/** `StringDecoder` on valid UTF-8: characters cut by chunk boundaries. */
module Utf8Chunks {
  import opened Basics
  import opened Wrappers
  import opened Utf8
  import opened Chunks
  import opened StringDecoders

  /** In front of the scalars `ds`, with the first bytes `q` of their first one
    * held back. */
  ghost predicate Mid(st: State, ds: seq<Scalar>, q: seq<Byte>) {
    && |st.last| == 4 && Fits(st)
    && (q == [] ==> st.need == 0)
    && (q != [] ==> ds != [] && |q| < |Encode(ds[0])| && q == Encode(ds[0])[..|q|])
    && (q != [] ==> st.total == |Encode(ds[0])| && st.need == st.total - |q| && st.last[..|q|] == q)
  }

  lemma {:induction false} EncodeAllConcat(a: seq<Scalar>, b: seq<Scalar>)
    ensures EncodeAll(a + b) == EncodeAll(a) + EncodeAll(b)
    decreases |a|
  {
    hide Encode;
    if a == [] {
      assert a + b == b;
    } else {
      assert (a + b)[1..] == a[1..] + b;
      EncodeAllConcat(a[1..], b);
      Assoc(Encode(a[0]), EncodeAll(a[1..]), EncodeAll(b));
    }
  }

  /** Where a chunk of valid text ends: after `j` scalars and `q` bytes more. */
  lemma {:induction false} Cut(ds: seq<Scalar>, s: seq<Byte>, tail: seq<Byte>) returns (j: nat, q: seq<Byte>)
    requires EncodeAll(ds) == s + tail
    ensures j <= |ds| && s == EncodeAll(ds[..j]) + q && EncodeAll(ds[j..]) == q + tail
    ensures q != [] ==> j < |ds| && |q| < |Encode(ds[j])| && q == Encode(ds[j])[..|q|]
    decreases |ds|
  {
    hide Encode;
    if s == [] {
      j, q := 0, [];
      assert ds[0..] == ds && s == EncodeAll(ds[..0]) + q;
    } else {
      var c := Encode(ds[0]);
      if |s| < |c| {
        j, q := 0, s;
        assert ds[0..] == ds && s == EncodeAll(ds[..0]) + q;
        assert (s + tail)[..|s|] == (c + EncodeAll(ds[1..]))[..|s|];
      } else {
        assert (s + tail)[..|c|] == c && (s + tail)[|c|..] == s[|c|..] + tail;
        j, q := Cut(ds[1..], s[|c|..], tail);
        assert ds[1..][j..] == ds[j + 1..] && ds[..j + 1] == [ds[0]] + ds[1..][..j];
        Assoc(c, EncodeAll(ds[1..][..j]), q);
        assert s == c + s[|c|..];
        j := j + 1;
      }
    }
  }

  /** What `utf8CheckByte` says of the bytes of a scalar. */
  lemma ByteKinds(c: Scalar, i: nat)
    requires i < |Encode(c)|
    ensures CheckByte(Encode(c)[i]) == if i > 0 then -1 else if |Encode(c)| == 1 then 0 else |Encode(c)|
    ensures i > 0 ==> Cont(Encode(c)[i])
  {
  }

  /** `utf8CheckIncomplete` after bytes that end in the first `n` of a scalar. */
  lemma CheckAfter(x: seq<Byte>, c: Scalar, n: nat)
    requires 1 <= n <= |Encode(c)|
    ensures CheckIncomplete(x + Encode(c)[..n]).0 == if n == |Encode(c)| then 0 else |Encode(c)| - n
    ensures n < |Encode(c)| ==> CheckIncomplete(x + Encode(c)[..n]).1 == |Encode(c)|
  {
    var e := Encode(c);
    ByteKinds(c, n - 1);
    if n > 1 { ByteKinds(c, n - 2); }
    if n > 2 { ByteKinds(c, n - 3); }
    hide Encode, CheckByte;
    var s := x + e[..n];
    assert s[|s| - 1] == e[n - 1];
    if n > 1 { assert s[|s| - 2] == e[n - 2]; }
    if n > 2 { assert s[|s| - 3] == e[n - 3]; }
  }

  lemma DecodeScalars(cs: seq<Scalar>)
    ensures Decode(EncodeAll(cs)) == AllUnits(cs)
  {
    DecodeAllEncoded(cs, []);
    assert EncodeAll(cs) + [] == EncodeAll(cs);
    assert AllUnits(cs) + [] == AllUnits(cs);
  }

  /** `utf8Text` from a character boundary. */
  lemma ReadMid(st: State, ds: seq<Scalar>, s: seq<Byte>, tail: seq<Byte>) returns (j: nat, q: seq<Byte>)
    requires s != [] && st.need == 0 && Mid(st, ds, []) && EncodeAll(ds) == s + tail
    ensures j <= |ds| && EncodeAll(ds[j..]) == q + tail
    ensures var r := Read(EncUtf8, st, s); r.0 == AllUnits(ds[..j]) && Mid(r.1, ds[j..], q)
  {
    hide Encode, CheckIncomplete, Decode;
    j, q := Cut(ds, s, tail);
    DecodeScalars(ds[..j]);
    if q == [] {
      assert s == EncodeAll(ds[..j]);
      assert ds[..0] == [];
      assert ds[..j] == ds[..j - 1] + [ds[j - 1]];
      EncodeAllConcat(ds[..j - 1], [ds[j - 1]]);
      var c := Encode(ds[j - 1]);
      assert EncodeAll([ds[j - 1]]) == c[..|c|] by { assert c + [] == c; }
      CheckAfter(EncodeAll(ds[..j - 1]), ds[j - 1], |c|);
    } else {
      CheckAfter(EncodeAll(ds[..j]), ds[j], |q|);
      assert s[..|s| - |q|] == EncodeAll(ds[..j]) && s[|s| - |q|..] == q;
      BlitFirst(st.last, 0, q);
      assert st.last[..0] + q == q;
    }
  }

  /** The bytes after a cut continue the character that was cut. */
  lemma Continues(ds: seq<Scalar>, q: seq<Byte>, e: seq<Byte>, tail: seq<Byte>, i: nat)
    requires ds != [] && q != [] && EncodeAll(ds) == q + e + tail && i < |e| && |q| + i < |Encode(ds[0])|
    ensures e[i] == Encode(ds[0])[|q| + i] && Cont(e[i])
  {
    assert (Encode(ds[0]) + EncodeAll(ds[1..]))[|q| + i] == (q + e + tail)[|q| + i];
    ByteKinds(ds[0], |q| + i);
  }

  /** `utf8FillLast` when the chunk completes the character. */
  lemma FillMid(st: State, ds: seq<Scalar>, q: seq<Byte>, e: seq<Byte>, tail: seq<Byte>)
    requires q != [] && e != [] && Mid(st, ds, q) && EncodeAll(ds) == q + e + tail && st.need <= |e|
    ensures var r := FillLast(EncUtf8, st, e);
      && r.0 == Some(Units(ds[0]))
      && r.1.need == st.need && |r.1.last| == 4 && r.1.total == st.total
    ensures EncodeAll(ds[1..]) == e[st.need..] + tail
  {
    hide Units, Decode, Encode, Cont, EncodeAll, Mid;
    MidRest(st, ds, q, e, tail);
    BlitFirst(st.last, |q|, e[..st.need]);
    DecodeOneScalar(ds[0]);
  }

  /** What is missing of the character stands at the front of the chunk. */
  lemma MidRest(st: State, ds: seq<Scalar>, q: seq<Byte>, e: seq<Byte>, tail: seq<Byte>)
    requires q != [] && Mid(st, ds, q) && EncodeAll(ds) == q + e + tail && st.need <= |e|
    ensures ds != [] && |st.last| == 4 && st.total == |q| + st.need == |Encode(ds[0])| && st.last[..|q|] == q
    ensures 0 < st.need && st.total <= 4 && q + e[..st.need] == Encode(ds[0])
    ensures EncodeAll(ds[1..]) == e[st.need..] + tail
    ensures forall i :: 0 <= i < st.need ==> Cont(e[i])
  {
    hide Encode, Cont;
    var c, n := Encode(ds[0]), |q|;
    forall i | 0 <= i < st.need ensures e[i] == c[n + i] && Cont(e[i]) { Continues(ds, q, e, tail, i); }
    assert q + e[..st.need] == c;
    RestOf(c, EncodeAll(ds[1..]), q, e, tail, st.need);
  }

  lemma RestOf(c: seq<Byte>, rest: seq<Byte>, q: seq<Byte>, e: seq<Byte>, tail: seq<Byte>, n: nat)
    requires c + rest == q + e + tail && n <= |e| && |c| == |q| + n
    ensures rest == e[n..] + tail
  {
    assert (c + rest)[|c|..] == rest;
    assert (q + e + tail)[|c|..] == e[n..] + tail;
  }

  lemma DecodeOneScalar(c: Scalar)
    ensures Decode(Encode(c)) == Units(c)
  {
    DecodeScalars([c]);
    assert Encode(c) + [] == Encode(c) && Units(c) + [] == Units(c);
  }

  /** `utf8FillLast` when the character needs still more. */
  lemma FillMore(st: State, ds: seq<Scalar>, q: seq<Byte>, e: seq<Byte>, tail: seq<Byte>)
    requires q != [] && e != [] && Mid(st, ds, q) && EncodeAll(ds) == q + e + tail && st.need > |e|
    ensures var r := FillLast(EncUtf8, st, e); r.0 == None && Mid(r.1, ds, q + e)
  {
    var c, n := Encode(ds[0]), |q|;
    forall i | 0 <= i < |e| ensures e[i] == c[n + i] && Cont(e[i]) { Continues(ds, q, e, tail, i); }
    hide Encode, Cont;
    BlitFirst(st.last, n, e);
    assert q + e == c[..n + |e|];
  }

  /** One `write` on valid text. */
  lemma WriteMid(st: State, ds: seq<Scalar>, q: seq<Byte>, e: seq<Byte>, tail: seq<Byte>)
    returns (j: nat, q': seq<Byte>)
    requires Mid(st, ds, q) && EncodeAll(ds) == q + e + tail
    ensures j <= |ds| && EncodeAll(ds[j..]) == q' + tail
    ensures var r := Write(EncUtf8, st, e); r.0 == AllUnits(ds[..j]) && Mid(r.1, ds[j..], q')
  {
    hide Encode, Read, FillLast, Units;
    assert ds[0..] == ds && ds[..0] == [];
    if e == [] {
      j, q' := 0, q;
      assert q + e == q;
    } else if q == [] {
      assert q + e + tail == e + tail;
      j, q' := ReadMid(st, ds, e, tail);
    } else {
      if st.need > |e| { FillMore(st, ds, q, e, tail); } else { FillMid(st, ds, q, e, tail); }
      var (t, st1) := FillLast(EncUtf8, st, e);
      if st.need > |e| {
        j, q' := 0, q + e;
      } else if st.need == |e| {
        j, q' := 1, [];
        assert e[st.need..] == [];
        assert [] + tail == tail;
        assert ds[..1] == [ds[0]] && AllUnits(ds[..1]) == Units(ds[0]) + [];
      } else {
        j, q' := ReadMid(st1.(need := 0), ds[1..], e[st.need..], tail);
        assert ds[1..][j..] == ds[j + 1..] && ds[..j + 1] == [ds[0]] + ds[1..][..j];
        j := j + 1;
      }
    }
  }

  lemma {:induction false} AllUnitsConcat(a: seq<Scalar>, b: seq<Scalar>)
    ensures AllUnits(a + b) == AllUnits(a) + AllUnits(b)
    decreases |a|
  {
    hide Units;
    if a == [] {
      assert a + b == b;
    } else {
      assert (a + b)[1..] == a[1..] + b;
      AllUnitsConcat(a[1..], b);
      Assoc(Units(a[0]), AllUnits(a[1..]), AllUnits(b));
    }
  }

  /** All chunks, up to `tail`, which never comes. */
  lemma {:induction false} WriteAllMid(st: State, ds: seq<Scalar>, q: seq<Byte>, chunks: seq<seq<Byte>>,
                                       tail: seq<Byte>)
    returns (j: nat, q': seq<Byte>)
    requires Mid(st, ds, q) && EncodeAll(ds) == q + Concat(chunks) + tail
    ensures AlwaysFits(EncUtf8, st, chunks)
    ensures j <= |ds| && EncodeAll(ds[j..]) == q' + tail
    ensures q' != [] ==> j < |ds| && |q'| < |Encode(ds[j])|
    ensures WriteAll(EncUtf8, st, chunks) == AllUnits(ds[..j]) + if q' == [] then [] else FFFD
    decreases |chunks|
  {
    hide Write, Units, Encode;
    if chunks == [] {
      j, q' := 0, q;
      assert ds[0..] == ds && ds[..0] == [];
      assert q + Concat(chunks) + tail == q + tail;
    } else {
      Assoc(q, chunks[0], Concat(chunks[1..]));
      var rest := Concat(chunks[1..]) + tail;
      assert q + Concat(chunks) + tail == q + chunks[0] + rest;
      var i, p := WriteMid(st, ds, q, chunks[0], rest);
      Assoc(p, Concat(chunks[1..]), tail);
      var k;
      k, q' := WriteAllMid(Write(EncUtf8, st, chunks[0]).1, ds[i..], p, chunks[1..], tail);
      j := i + k;
      assert ds[i..][k..] == ds[j..];
      AllUnitsConcat(ds[..i], ds[i..][..k]);
      assert ds[..i] + ds[i..][..k] == ds[..j];
      Assoc(AllUnits(ds[..i]), AllUnits(ds[i..][..k]), if q' == [] then [] else FFFD);
    }
  }

  ghost predicate ValidUtf8(b: seq<Byte>) {
    exists cs: seq<Scalar> :: b == EncodeAll(cs)
  }

  /** Valid UTF-8: however the bytes are cut, the text is that of the whole. */
  lemma ChunksDoNotMatter(last: seq<Byte>, chunks: seq<seq<Byte>>)
    requires |last| == 4 && ValidUtf8(Concat(chunks))
    ensures AlwaysFits(EncUtf8, State(0, 0, last), chunks)
    ensures WriteAll(EncUtf8, State(0, 0, last), chunks) == Text(EncUtf8, Concat(chunks))
  {
    var cs: seq<Scalar> :| Concat(chunks) == EncodeAll(cs);
    assert [] + Concat(chunks) + [] == Concat(chunks);
    var j, q := WriteAllMid(State(0, 0, last), cs, [], chunks, []);
    assert q + [] == q;
    LastCut(cs, j, q, []);
    DecodeScalars(cs);
    assert cs[..|cs|] == cs;
    assert AllUnits(cs) + [] == AllUnits(cs);
  }

  /** What is left after the last whole character. */
  lemma LastCut(ds: seq<Scalar>, j: nat, q: seq<Byte>, tail: seq<Byte>)
    requires j <= |ds| && EncodeAll(ds[j..]) == q + tail
    requires q != [] ==> j < |ds| && |q| < |Encode(ds[j])|
    requires tail == [] || (ds != [] && |tail| < |Encode(ds[|ds| - 1])|)
    ensures tail == [] ==> q == [] && j == |ds|
    ensures tail != [] ==> j == |ds| - 1 && |q| == |Encode(ds[j])| - |tail|
  {
    hide Encode;
    EncodedSize(ds[j..]);
  }

  lemma EncodedSize(cs: seq<Scalar>)
    ensures cs == [] ==> EncodeAll(cs) == []
    ensures |cs| == 1 ==> EncodeAll(cs) == Encode(cs[0])
    ensures |cs| > 1 ==> |EncodeAll(cs)| >= |Encode(cs[0])| + |Encode(cs[|cs| - 1])|
  {
    hide Encode;
    if |cs| == 1 {
      assert Encode(cs[0]) + [] == Encode(cs[0]);
    } else if |cs| > 1 {
      var n := |cs| - 1;
      assert cs[1..] == cs[1..n] + [cs[n]];
      EncodeAllConcat(cs[1..n], [cs[n]]);
      assert EncodeAll([cs[n]]) == Encode(cs[n]) + [];
    }
  }

  /** Valid UTF-8 that stops in the middle of a character: the text of the whole
    * characters and one U+FFFD, however the bytes are cut. */
  lemma TruncatedChunks(last: seq<Byte>, chunks: seq<seq<Byte>>, cs: seq<Scalar>, d: Scalar, n: nat)
    requires |last| == 4 && 0 < n < |Encode(d)| && Concat(chunks) == EncodeAll(cs) + Encode(d)[..n]
    ensures AlwaysFits(EncUtf8, State(0, 0, last), chunks)
    ensures WriteAll(EncUtf8, State(0, 0, last), chunks) == AllUnits(cs) + [0xFFFD]
  {
    hide Encode;
    var ds, tail := cs + [d], Encode(d)[n..];
    CutInTwo(cs, d, n);
    hide EncodeAll;
    var j, q := WriteAllMid(State(0, 0, last), ds, [], chunks, tail);
    LastCut(ds, j, q, tail);
    assert ds[..j] == cs;
  }

  /** A character of which `n` bytes come in one chunk and `k` more in the next, before
    * another character cuts it off, becomes one U+FFFD, and the text goes on. */
  lemma CutOff(last: seq<Byte>, cs: seq<Scalar>, d: Scalar, n: nat, k: nat, ds: seq<Scalar>)
    requires |last| == 4 && 0 < n && n + k < |Encode(d)| && ds != []
    ensures var st := State(0, 0, last);
      var chunks := [EncodeAll(cs) + Encode(d)[..n], Encode(d)[n..n + k] + EncodeAll(ds)];
      AlwaysFits(EncUtf8, st, chunks) && WriteAll(EncUtf8, st, chunks) == AllUnits(cs) + ([0xFFFD] + AllUnits(ds))
  {
    hide Encode, Read, FillLast, Units;
    var a, b, tail := EncodeAll(cs) + Encode(d)[..n], Encode(d)[n..n + k] + EncodeAll(ds), Encode(d)[n..];
    var st := State(0, 0, last);
    CutInTwo(cs, d, n);
    hide EncodeAll, Write, Mid, WriteAll, AlwaysFits;
    MidStart(st, cs + [d]);
    var j, q := WriteMid(st, cs + [d], [], a, tail);
    LastCut(cs + [d], j, q, tail);
    assert (cs + [d])[..j] == cs && (cs + [d])[j..] == [d];
    var r := Write(EncUtf8, st, a);
    MidHas(r.1, d, q);
    WriteCut(r.1, d, q, k, ds);
    var u := Write(EncUtf8, r.1, b);
    WriteAllTwo(st, a, b);
  }

  lemma MidStart(st: State, ds: seq<Scalar>)
    requires st.need == 0 && Fits(st) && |st.last| == 4
    ensures Mid(st, ds, [])
  {
  }

  lemma MidHas(st: State, d: Scalar, q: seq<Byte>)
    requires Mid(st, [d], q) && q != []
    ensures Fits(st) && q == Encode(d)[..|q|]
  {
    hide Encode;
  }

  lemma CutInTwo(cs: seq<Scalar>, d: Scalar, n: nat)
    requires 0 < n < |Encode(d)|
    ensures [] + (EncodeAll(cs) + Encode(d)[..n]) + Encode(d)[n..] == EncodeAll(cs + [d])
  {
    hide Encode;
    EncodeAllConcat(cs, [d]);
    assert EncodeAll([d]) == Encode(d) + [];
    assert Encode(d) + [] == Encode(d)[..n] + Encode(d)[n..];
  }

  /** The chunk after a cut starts a new character, after `k` bytes more. */
  lemma WriteCut(st: State, d: Scalar, q: seq<Byte>, k: nat, ds: seq<Scalar>)
    requires q != [] && Mid(st, [d], q) && |q| + k < |Encode(d)| && ds != []
    ensures var u := Write(EncUtf8, st, Encode(d)[|q|..|q| + k] + EncodeAll(ds));
      u.0 == [0xFFFD] + AllUnits(ds) && u.1.need == 0 && Fits(u.1)
  {
    hide Encode, Read, Units, Cont, EncodeAll, CheckExtra;
    var x, f := Encode(d)[|q|..|q| + k], EncodeAll(ds);
    var e := x + f;
    FirstByte(ds);
    Continued(d, |q|, x);
    assert e[k] == f[0] && e[k..] == f;
    ExtraAt(st.need, e, k);
    assert f + [] == f;
    var j, q' := ReadMid(st.(need := 0), ds, f, []);
    assert q' + [] == q';
    LastCut(ds, j, q', []);
    assert ds[..j] == ds;
  }

  lemma Continued(d: Scalar, n: nat, x: seq<Byte>)
    requires 0 < n && n + |x| < |Encode(d)| && x == Encode(d)[n..n + |x|]
    ensures forall i :: 0 <= i < |x| ==> Cont(x[i])
  {
    forall i | 0 <= i < |x| ensures Cont(x[i]) {
      ByteKinds(d, n + i);
    }
  }

  lemma ExtraAt(need: nat, e: seq<Byte>, k: nat)
    requires k < need && k < 3 && k < |e| && !Cont(e[k]) && forall i :: 0 <= i < k ==> Cont(e[i])
    ensures CheckExtra(need, e) == Some(k)
  {
    hide Cont;
  }

  /** A byte that cannot start a character is not held back: it becomes U+FFFD at once. */
  lemma StrayByte(last: seq<Byte>, cs: seq<Scalar>, x: Byte)
    requires |last| == 4 && (0x80 <= x < 0xC0 || x >= 0xF8)
    ensures var w := Write(EncUtf8, State(0, 0, last), EncodeAll(cs) + [x]);
      w.0 == AllUnits(cs) + [0xFFFD] && w.1.need == 0
  {
    var s := EncodeAll(cs) + [x];
    StrayComplete(cs, x);
    DecodeAllEncoded(cs, [x]);
    StrayDecoded(x);
    hide Decode, CheckIncomplete;
  }

  lemma StrayDecoded(x: Byte)
    requires 0x80 <= x < 0xC0 || x >= 0xF8
    ensures Decode([x]) == [0xFFFD]
  {
    assert [x][1..] == [];
    assert Decode([x][1..]) == [];
  }

  /** `utf8CheckIncomplete` sees nothing incomplete before such a byte. */
  lemma StrayComplete(cs: seq<Scalar>, x: Byte)
    requires 0x80 <= x < 0xC0 || x >= 0xF8
    ensures CheckIncomplete(EncodeAll(cs) + [x]).0 == 0
  {
    hide Encode, EncodeAll, CheckIncomplete, CheckByte;
    var s, n := EncodeAll(cs) + [x], |EncodeAll(cs)|;
    StrayKind(x);
    if cs != [] {
      LastKinds(cs);
      assert s[n - 1] == EncodeAll(cs)[n - 1];
      if n > 1 {
        assert s[n - 2] == EncodeAll(cs)[n - 2];
      }
    } else {
      EncodedSize(cs);
    }
    assert s[n] == x;
    CompleteAt(s);
  }

  lemma StrayKind(x: Byte)
    requires 0x80 <= x < 0xC0 || x >= 0xF8
    ensures CheckByte(x) == -1 || CheckByte(x) == -2
  {
  }

  /** The last two bytes of whole characters. */
  lemma LastKinds(cs: seq<Scalar>)
    requires cs != []
    ensures var b, n := EncodeAll(cs), |EncodeAll(cs)|;
      && n > 0 && CheckByte(b[n - 1]) in {0, -1}
      && (CheckByte(b[n - 1]) == -1 ==> n > 1 && CheckByte(b[n - 2]) in {2, 3, 4, -1})
      && (CheckByte(b[n - 1]) == -1 && CheckByte(b[n - 2]) > 0 ==> CheckByte(b[n - 2]) == 2)
  {
    hide Encode, CheckByte;
    var m := |cs| - 1;
    var c := Encode(cs[m]);
    EncodeAllConcat(cs[..m], [cs[m]]);
    EncodedSize([cs[m]]);
    assert cs == cs[..m] + [cs[m]];
    hide EncodeAll;
    ByteKinds(cs[m], |c| - 1);
    if |c| > 1 {
      ByteKinds(cs[m], |c| - 2);
    }
  }

  lemma CompleteAt(s: seq<Byte>)
    requires |s| > 0 && CheckByte(s[|s| - 1]) in {-1, -2}
    requires |s| > 1 ==> CheckByte(s[|s| - 2]) in {0, -1}
    requires |s| > 2 && CheckByte(s[|s| - 2]) == -1 ==> CheckByte(s[|s| - 3]) in {2, -1}
    ensures CheckIncomplete(s).0 == 0
  {
    hide CheckByte;
  }

  lemma FirstByte(ds: seq<Scalar>)
    requires ds != []
    ensures EncodeAll(ds) != [] && !Cont(EncodeAll(ds)[0])
  {
  }

  lemma WriteAllTwo(st: State, a: seq<Byte>, b: seq<Byte>)
    requires Fits(st) && Fits(Write(EncUtf8, st, a).1)
    requires Fits(Write(EncUtf8, Write(EncUtf8, st, a).1, b).1)
    requires Write(EncUtf8, Write(EncUtf8, st, a).1, b).1.need == 0
    ensures AlwaysFits(EncUtf8, st, [a, b])
    ensures WriteAll(EncUtf8, st, [a, b]) == Write(EncUtf8, st, a).0 + Write(EncUtf8, Write(EncUtf8, st, a).1, b).0
  {
    hide Write;
    assert [a, b][1..] == [b] && [b][1..] == [];
    var r := Write(EncUtf8, st, a);
    var u := Write(EncUtf8, r.1, b);
    assert WriteAll(EncUtf8, r.1, [b]) == u.0 + [] == u.0;
  }
}
