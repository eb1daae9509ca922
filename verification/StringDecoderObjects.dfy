/** The `StringDecoder` object: three fields that `write` updates in place. */
module StringDecoderObjects {
  import opened Basics
  import opened Wrappers
  import opened Utf8
  import opened Chunks
  import D = StringDecoders
  import opened StringDecoders
  import Utf8Chunks

  class StringDecoder {
    const encoding: Encoding
    var lastNeed: nat
    var lastTotal: nat
    const lastChar: array<Byte>

    /** The fields as a value. */
    ghost function St(): State
      reads this, lastChar
    {
      State(lastNeed, lastTotal, lastChar[..])
    }

    constructor (encoding: Encoding)
      ensures this.encoding == encoding && fresh(lastChar)
      ensures lastNeed == 0 && lastTotal == 0
      ensures lastChar.Length == if encoding.EncBase64? then 3 else 4
    {
      this.encoding := encoding;
      lastNeed, lastTotal := 0, 0;
      lastChar := new Byte[if encoding.EncBase64? then 3 else 4];
    }

    /** `src.copy(lastChar, at, 0, src.length)` */
    method Copy(src: seq<Byte>, at: nat)
      modifies lastChar
      ensures lastChar[..] == Blit(old(lastChar[..]), at, src)
    {
      for i := 0 to |src|
        invariant forall k :: 0 <= k < lastChar.Length ==>
          lastChar[k] == if at <= k < at + i then src[k - at] else old(lastChar[k])
      {
        if at + i < lastChar.Length {
          lastChar[at + i] := src[i];
        }
      }
    }

    /** `utf8Text`; `s` is the part of the chunk not yet used. */
    method Utf8Text(s: seq<Byte>) returns (r: seq<Unit>)
      requires s != [] && lastNeed == 0
      modifies this, lastChar
      ensures (r, St()) == Read(EncUtf8, old(St()), s)
    {
      hide Decode, CheckIncomplete;
      var (need, total) := CheckIncomplete(s);
      if need == 0 { r := Decode(s); return; }
      lastNeed, lastTotal := need, total;
      var cut := |s| - (total - need);
      Copy(s[cut..], 0);
      r := Decode(s[..cut]);
    }

    /** `utf16Text` */
    method Utf16Text(s: seq<Byte>) returns (r: seq<Unit>)
      requires s != [] && lastNeed == 0
      modifies this, lastChar
      ensures (r, St()) == Read(EncUtf16, old(St()), s)
    {
      hide Decode16;
      var n := |s|;
      if n % 2 == 0 {
        r := Decode16(s);
        if Lead(r[|r| - 1]) {
          lastNeed, lastTotal := 2, 4;
          Copy(s[n - 2..], 0);
          r := r[..|r| - 1];
        }
      } else {
        lastNeed, lastTotal := 1, 2;
        Copy(s[n - 1..], 0);
        r := Decode16(s[..n - 1]);
      }
    }

    /** `base64Text` */
    method Base64Text(s: seq<Byte>) returns (r: seq<Unit>)
      requires s != [] && lastNeed == 0
      modifies this, lastChar
      ensures (r, St()) == Read(EncBase64, old(St()), s)
    {
      var k := |s| % 3;
      if k == 0 {
        r := Text(EncBase64, s);
      } else {
        lastNeed, lastTotal := 3 - k, 3;
        Copy(s[|s| - k..], 0);
        r := Text(EncBase64, s[..|s| - k]);
      }
    }

    /** `text`, as the constructor of the source installs it. */
    method ReadText(s: seq<Byte>) returns (r: seq<Unit>)
      requires s != [] && lastNeed == 0
      modifies this, lastChar
      ensures (r, St()) == Read(encoding, old(St()), s)
    {
      hide Read;
      match encoding
      case EncUtf8 => r := Utf8Text(s);
      case EncUtf16 => r := Utf16Text(s);
      case EncBase64 => r := Base64Text(s);
    }

    /** `fillLast` */
    method Fill(e: seq<Byte>) returns (r: Option<seq<Unit>>)
      requires e != [] && lastNeed <= lastTotal <= lastChar.Length
      modifies this, lastChar
      ensures (r, St()) == FillLast(encoding, old(St()), e)
    {
      hide Text;
      if encoding.EncUtf8? {
        var bad := CheckExtra(lastNeed, e);
        if bad.Some? {
          lastNeed := bad.value;
          return Some(FFFD);
        }
      }
      if lastNeed <= |e| {
        Copy(e[..lastNeed], lastTotal - lastNeed);
        r := Some(Text(encoding, lastChar[..lastTotal]));
        assert lastChar[..lastTotal] == lastChar[..][..lastTotal];
      } else {
        Copy(e, lastTotal - lastNeed);
        lastNeed := lastNeed - |e|;
        r := None;
      }
    }

    /** `write` */
    method Write(e: seq<Byte>) returns (s: seq<Unit>)
      requires lastNeed <= lastTotal <= lastChar.Length
      modifies this, lastChar
      ensures (s, St()) == D.Write(encoding, old(St()), e)
    {
      hide Read, FillLast;
      if e == [] { return []; }
      if lastNeed > 0 {
        var t := Fill(e);
        if t.None? { return []; }
        var i := lastNeed;
        lastNeed := 0;
        s := t.value;
        if i < |e| {
          var u := ReadText(e[i..]);
          s := s + u;
        }
      } else {
        s := ReadText(e);
      }
    }

    /** `end` without a chunk. */
    method End() returns (s: seq<Unit>)
      requires lastNeed <= lastTotal <= lastChar.Length
      ensures s == D.End(encoding, St())
    {
      s := [];
      if lastNeed > 0 {
        match encoding
        case EncUtf8 => s := FFFD;
        case EncUtf16 =>
          assert lastChar[..lastTotal - lastNeed] == lastChar[..][..lastTotal - lastNeed];
          s := Decode16(lastChar[..lastTotal - lastNeed]);
        case EncBase64 =>
          if lastNeed <= 3 <= lastChar.Length {
            assert lastChar[..3 - lastNeed] == lastChar[..][..3 - lastNeed];
            s := Text(EncBase64, lastChar[..3 - lastNeed]);
          }
      }
    }
  }

  /** A decoder fed chunk by chunk yields the text of the whole: for all bytes in
    * UTF-16 and base64, for valid bytes in UTF-8. */
  method DecodeChunks(encoding: Encoding, chunks: seq<seq<Byte>>) returns (s: seq<Unit>)
    requires encoding.EncUtf8? ==> Utf8Chunks.ValidUtf8(Concat(chunks))
    ensures s == Text(encoding, Concat(chunks))
    ensures encoding.EncUtf16? ==> |s| == |Concat(chunks)| / 2
    ensures encoding.EncUtf16? ==> forall i :: 0 <= i < |s| ==>
      s[i] == (Concat(chunks)[2 * i] as int) + 256 * (Concat(chunks)[2 * i + 1] as int)
  {
    ghost var b := Concat(chunks);
    forall i | 0 <= i < |b| / 2 ensures Decode16(b)[i] == (b[2 * i] as int) + 256 * (b[2 * i + 1] as int) {
      UnitAt(b, i);
    }
    assert encoding.EncUtf16? ==> Text(encoding, b) == Decode16(b);
    hide Decode16;
    hide D.Write, D.End, Text;
    var d := new StringDecoder(encoding);
    ghost var st := d.St();
    if encoding.EncUtf8? {
      Utf8Chunks.ChunksDoNotMatter(st.last, chunks);
    } else {
      D.ChunksDoNotMatter(encoding, st.last, chunks);
    }
    s := [];
    for i := 0 to |chunks|
      invariant fresh(d) && fresh(d.lastChar) && d.encoding == encoding
      invariant AlwaysFits(encoding, d.St(), chunks[i..])
      invariant s + WriteAll(encoding, d.St(), chunks[i..]) == Text(encoding, Concat(chunks))
    {
      ghost var before, rest := s, chunks[i..];
      ghost var was := d.St();
      assert rest[0] == chunks[i] && rest[1..] == chunks[i + 1..];
      var t := d.Write(chunks[i]);
      s := s + t;
      Assoc(before, t, WriteAll(encoding, d.St(), rest[1..]));
    }
    var t := d.End();
    s := s + t;
  }
}
