/** `StringDecoder`: text from bytes that arrive in chunks. */
module StringDecoders {
  import opened Basics
  import opened Wrappers
  import opened Utf8
  import opened Chunks
  import Base64

  /** The encodings that keep state between chunks. */
  datatype Encoding = EncUtf8 | EncUtf16 | EncBase64

  /** `lastNeed`, `lastTotal` and the contents of `lastChar`. */
  datatype State = State(need: nat, total: nat, last: seq<Byte>)

  const FFFD: seq<Unit> := [0xFFFD]

  function Code(c: char): Unit {
    if (c as int) < 0x1_0000 then c as int else 0xFFFD
  }

  function Codes(s: seq<char>): (r: seq<Unit>)
    ensures |r| == |s| && forall i :: 0 <= i < |s| ==> r[i] == Code(s[i])
  {
    seq(|s|, i requires 0 <= i < |s| => Code(s[i]))
  }

  /** `utf16leSlice` */
  function Decode16(b: seq<Byte>): (s: seq<Unit>)
    ensures |s| == |b| / 2
    decreases |b|
  {
    if |b| < 2 then [] else var lo: int, hi: int := b[0], b[1]; [lo + 256 * hi] + Decode16(b[2..])
  }

  /** `toString` of a whole buffer. */
  function Text(enc: Encoding, b: seq<Byte>): seq<Unit> {
    match enc
    case EncUtf8 => Decode(b)
    case EncUtf16 => Decode16(b)
    case EncBase64 => Codes(Base64.FromBytes(b))
  }

  /** `src.copy(last, at, 0, src.length)`, clipped to the buffer. */
  function Blit(last: seq<Byte>, at: nat, src: seq<Byte>): (r: seq<Byte>)
    ensures |r| == |last|
  {
    seq(|last|, i requires 0 <= i < |last| => if at <= i < at + |src| then src[i - at] else last[i])
  }

  /** `utf8CheckByte` */
  function CheckByte(b: Byte): int {
    if b <= 0x7F then 0
    else if b / 32 == 6 then 2
    else if b / 16 == 14 then 3
    else if b / 8 == 30 then 4
    else if b / 64 == 2 then -1
    else -2
  }

  /** `utf8CheckIncomplete` on the bytes still to be read: the new `lastNeed`, which
    * was 0, and the result. */
  function CheckIncomplete(s: seq<Byte>): (r: (nat, nat))
    ensures r.0 > 0 ==> 1 <= r.1 - r.0 <= |s|
  {
    var n := |s|;
    if n < 1 then (0, 0)
    else
      var a := CheckByte(s[n - 1]);
      if a >= 0 then (if a > 0 then a - 1 else 0, a)
      else if n < 2 || a == -2 then (0, 0)
      else
        var b := CheckByte(s[n - 2]);
        if b >= 0 then (if b > 0 then b - 2 else 0, b)
        else if n < 3 || b == -2 then (0, 0)
        else
          var c := CheckByte(s[n - 3]);
          if c == 2 then (0, 0) else if c > 0 then (c - 3, c) else (0, 0)
  }

  /** The `text` methods; `s` is the part of the chunk not yet used, `st.need` 0. */
  function Read(enc: Encoding, st: State, s: seq<Byte>): (seq<Unit>, State)
    requires s != []
  {
    var n := |s|;
    match enc
    case EncUtf8 =>
      var (need, total) := CheckIncomplete(s);
      if need == 0 then (Decode(s), st.(need := 0))
      else
        var cut := n - (total - need);
        (Decode(s[..cut]), State(need, total, Blit(st.last, 0, s[cut..])))
    case EncUtf16 =>
      if n % 2 == 0 then
        var r := Decode16(s);
        if Lead(r[|r| - 1]) then (r[..|r| - 1], State(2, 4, Blit(st.last, 0, s[n - 2..])))
        else (r, st)
      else (Decode16(s[..n - 1]), State(1, 2, Blit(st.last, 0, s[n - 1..])))
    case EncBase64 =>
      var k := n % 3;
      if k == 0 then (Codes(Base64.FromBytes(s)), st)
      else (Codes(Base64.FromBytes(s[..n - k])), State(3 - k, 3, Blit(st.last, 0, s[n - k..])))
  }

  /** `utf8CheckExtraBytes`: where a byte that should continue a character does not. */
  function CheckExtra(need: nat, e: seq<Byte>): Option<nat>
    requires e != []
  {
    if !Cont(e[0]) then Some(0)
    else if need > 1 && |e| > 1 then
      if !Cont(e[1]) then Some(1)
      else if need > 2 && |e| > 2 && !Cont(e[2]) then Some(2)
      else None
    else None
  }

  /** The `fillLast` methods: the text of the completed character, unless more is
    * needed, and the state afterwards. */
  function FillLast(enc: Encoding, st: State, e: seq<Byte>): (Option<seq<Unit>>, State)
    requires e != [] && st.need <= st.total <= |st.last|
  {
    var bad := if enc.EncUtf8? then CheckExtra(st.need, e) else None;
    if bad.Some? then (Some(FFFD), st.(need := bad.value))
    else
      var at := st.total - st.need;
      if st.need <= |e| then
        var last := Blit(st.last, at, e[..st.need]);
        (Some(Text(enc, last[..st.total])), st.(last := last))
      else (None, State(st.need - |e|, st.total, Blit(st.last, at, e)))
  }

  /** `write` */
  function Write(enc: Encoding, st: State, e: seq<Byte>): (seq<Unit>, State)
    requires st.need <= st.total <= |st.last|
  {
    if e == [] then ([], st)
    else if st.need > 0 then
      var (t, st1) := FillLast(enc, st, e);
      if t.None? then ([], st1)
      else
        var i := st1.need;
        var st2 := st1.(need := 0);
        if i < |e| then var (u, st3) := Read(enc, st2, e[i..]); (t.value + u, st3)
        else (t.value, st2)
    else Read(enc, st, e)
  }

  /** `end`, after any last chunk has been written. */
  function End(enc: Encoding, st: State): seq<Unit>
    requires st.need <= st.total <= |st.last|
  {
    if st.need == 0 then []
    else match enc
      case EncUtf8 => FFFD
      case EncUtf16 => Decode16(st.last[..st.total - st.need])
      case EncBase64 => if st.need <= 3 <= |st.last| then Codes(Base64.FromBytes(st.last[..3 - st.need])) else []
  }

  /** The bytes held back. */
  function Pending(st: State): seq<Byte>
    requires st.need <= st.total <= |st.last|
  {
    if st.need == 0 then [] else st.last[..st.total - st.need]
  }

  ghost predicate Shape(enc: Encoding, st: State) {
    match enc
    case EncUtf8 => |st.last| == 4 && (st.need > 0 ==> st.need < st.total <= 4)
    case EncUtf16 =>
      |st.last| == 4 && (st.need > 0 ==> (st.total == 2 && st.need == 1) || (st.total == 4 && st.need <= 2))
    case EncBase64 => |st.last| == 3 && (st.need > 0 ==> st.total == 3 && st.need <= 2)
  }

  predicate Fits(st: State) {
    st.need <= st.total <= |st.last|
  }

  // ---------------------------------------------------- UTF-16 and base64

  /** Bytes of one unit of the encoding: the text of whole units is additive. */
  function Group(enc: Encoding): nat {
    if enc.EncUtf16? then 2 else 3
  }

  lemma {:induction false} TextAdditive(enc: Encoding, a: seq<Byte>, b: seq<Byte>)
    requires !enc.EncUtf8? && |a| % Group(enc) == 0
    ensures Text(enc, a + b) == Text(enc, a) + Text(enc, b)
    decreases |a|
  {
    hide Base64.FromBytes;
    if enc.EncBase64? {
      Base64.FromBytesConcat(a, b);
    } else if a == [] {
      assert a + b == b;
    } else {
      assert (a + b)[2..] == a[2..] + b;
      TextAdditive(enc, a[2..], b);
    }
  }

  /** After bytes `p`, the text so far is that of all but the bytes held back. */
  ghost predicate Holds(enc: Encoding, st: State, p: seq<Byte>, out: seq<Unit>) {
    && Fits(st) && Shape(enc, st)
    && |Pending(st)| <= |p|
    && p[|p| - |Pending(st)|..] == Pending(st)
    && (|p| - |Pending(st)|) % Group(enc) == 0
    && out == Text(enc, p[..|p| - |Pending(st)|])
  }

  lemma HoldsNone(enc: Encoding, st: State, p: seq<Byte>, out: seq<Unit>)
    requires st.need == 0 && Fits(st) && Shape(enc, st) && |p| % Group(enc) == 0 && out == Text(enc, p)
    ensures Holds(enc, st, p, out)
  {
    assert p[..|p|] == p && p[|p|..] == [];
  }

  /** Holding back the bytes `q`, which are now in `lastChar`. */
  lemma HoldsSome(enc: Encoding, st: State, p: seq<Byte>, q: seq<Byte>, out: seq<Unit>)
    requires st.need > 0 && Fits(st) && Shape(enc, st) && |p| % Group(enc) == 0 && out == Text(enc, p)
    requires |q| == st.total - st.need && st.last[..|q|] == q
    ensures Holds(enc, st, p + q, out)
  {
    assert (p + q)[..|p|] == p && (p + q)[|p|..] == q;
  }

  lemma BlitFirst(last: seq<Byte>, at: nat, src: seq<Byte>)
    requires at + |src| <= |last|
    ensures Blit(last, at, src)[..at + |src|] == last[..at] + src
  {
  }

  lemma {:induction false} Decode16Prefix(s: seq<Byte>, n: nat)
    requires n % 2 == 0 && n <= |s|
    ensures Decode16(s)[..n / 2] == Decode16(s[..n])
    decreases |s|
  {
    if n > 0 {
      assert s[..n][2..] == s[2..][..n - 2];
      Decode16Prefix(s[2..], n - 2);
    }
  }

  /** How many of its bytes a `text` method holds back. */
  function HeldBack(enc: Encoding, s: seq<Byte>): (k: nat)
    requires s != [] && !enc.EncUtf8?
    ensures k <= |s| && (|s| - k) % Group(enc) == 0
  {
    if enc.EncBase64? then |s| % 3
    else if |s| % 2 == 1 then 1
    else if Lead(Decode16(s)[|s| / 2 - 1]) then 2 else 0
  }

  lemma ReadCut(enc: Encoding, st: State, s: seq<Byte>)
    requires !enc.EncUtf8? && s != [] && st.need == 0 && Fits(st) && Shape(enc, st)
    ensures var r, k := Read(enc, st, s), HeldBack(enc, s);
      && r.0 == Text(enc, s[..|s| - k])
      && Fits(r.1) && Shape(enc, r.1)
      && (k == 0 <==> r.1.need == 0)
      && (k > 0 ==> r.1.total - r.1.need == k && r.1.last[..k] == s[|s| - k..])
  {
    hide Base64.FromBytes, Blit, Decode16, Lead;
    var n, k := |s|, HeldBack(enc, s);
    BlitFirst(st.last, 0, s[n - k..]);
    assert st.last[..0] + s[n - k..] == s[n - k..];
    if enc.EncUtf16? { Decode16Prefix(s, n - k); }
    assert k == 0 ==> s[..n] == s;
  }

  /** A `text` method at a unit boundary. */
  lemma ReadHolds(enc: Encoding, st: State, p: seq<Byte>, out: seq<Unit>, s: seq<Byte>)
    requires !enc.EncUtf8? && s != [] && st.need == 0 && Holds(enc, st, p, out)
    ensures var r := Read(enc, st, s); Holds(enc, r.1, p + s, out + r.0)
  {
    hide Holds, Read, Text, HeldBack, Shape, Fits, Decode16, Group, Pending;
    HoldsFits(enc, st, p, out);
    ShowsAll(enc, st, p, out);
    ReadCut(enc, st, s);
    var r, k := Read(enc, st, s), HeldBack(enc, s);
    var head, tail := s[..|s| - k], s[|s| - k..];
    assert head + tail == s;
    TextAdditive(enc, p, head);
    Assoc(p, head, tail);
    GroupSum(enc, |p|, |head|);
    if k == 0 {
      assert tail == [] && head == s;
      HoldsNone(enc, r.1, p + head, out + r.0);
    } else {
      HoldsSome(enc, r.1, p + head, tail, out + r.0);
    }
  }

  lemma GroupSum(enc: Encoding, m: nat, n: nat)
    requires m % Group(enc) == 0 && n % Group(enc) == 0
    ensures (m + n) % Group(enc) == 0
  {
    if enc.EncUtf16? {
      assert (m + n) % 2 == 0;
    } else {
      assert (m + n) % 3 == 0;
    }
  }

  lemma ShowsAll(enc: Encoding, st: State, p: seq<Byte>, out: seq<Unit>)
    requires st.need == 0 && Holds(enc, st, p, out)
    ensures out == Text(enc, p) && |p| % Group(enc) == 0 && Shape(enc, st)
  {
    assert p[..|p|] == p;
  }

  /** `fillLast` in the middle of a unit. */
  lemma FillHolds(enc: Encoding, st: State, p: seq<Byte>, out: seq<Unit>, e: seq<Byte>)
    requires !enc.EncUtf8? && e != [] && st.need > 0 && Holds(enc, st, p, out)
    ensures var r := FillLast(enc, st, e);
      && (r.0.None? ==> Holds(enc, r.1, p + e, out))
      && (r.0.Some? ==> r.1.need == st.need <= |e|)
      && (r.0.Some? ==> Holds(enc, r.1.(need := 0), p + e[..st.need], out + r.0.value))
  {
    hide Text, Holds, Blit, Group;
    var c, q := HoldsParts(enc, st, p, out);
    if st.need <= |e| {
      var x := e[..st.need];
      BlitFirst(st.last, |q|, x);
      TextAdditive(enc, c, q + x);
      Assoc(c, q, x);
      WholeUnit(enc, st, c, q, x);
      HoldsNone(enc, FillLast(enc, st, e).1.(need := 0), p + x, out + Text(enc, q + x));
    } else {
      BlitFirst(st.last, |q|, e);
      HoldsSome(enc, State(st.need - |e|, st.total, Blit(st.last, |q|, e)), c, q + e, out);
      Assoc(c, q, e);
    }
  }

  /** The bytes of `p` that are text and those that wait. */
  lemma HoldsParts(enc: Encoding, st: State, p: seq<Byte>, out: seq<Unit>) returns (c: seq<Byte>, q: seq<Byte>)
    requires Holds(enc, st, p, out)
    ensures p == c + q && q == Pending(st) && out == Text(enc, c) && |c| % Group(enc) == 0
    ensures Fits(st) && Shape(enc, st)
    ensures st.need > 0 ==> |q| == st.total - st.need && q == st.last[..|q|]
  {
    hide Text, Group;
    c, q := p[..|p| - |Pending(st)|], Pending(st);
  }

  lemma WholeUnit(enc: Encoding, st: State, c: seq<Byte>, q: seq<Byte>, x: seq<Byte>)
    requires !enc.EncUtf8? && Shape(enc, st) && st.need > 0 && |c| % Group(enc) == 0 && |q| + |x| == st.total
    ensures |c + q + x| % Group(enc) == 0
  {
  }

  /** One `write`. */
  lemma WriteHolds(enc: Encoding, st: State, p: seq<Byte>, out: seq<Unit>, e: seq<Byte>)
    requires !enc.EncUtf8? && Holds(enc, st, p, out)
    ensures var r := Write(enc, st, e); Holds(enc, r.1, p + e, out + r.0)
  {
    hide Holds, Read, FillLast, Text;
    assert Fits(st) by { HoldsFits(enc, st, p, out); }
    assert p + [] == p && out + [] == out;
    if e == [] {
    } else if st.need > 0 {
      FillHolds(enc, st, p, out, e);
      var (t, st1) := FillLast(enc, st, e);
      if t.Some? {
        var x := e[..st.need];
        if st.need < |e| {
          ReadHolds(enc, st1.(need := 0), p + x, out + t.value, e[st.need..]);
          assert p + x + e[st.need..] == p + e;
          Assoc(out, t.value, Read(enc, st1.(need := 0), e[st.need..]).0);
        } else {
          assert x == e;
        }
      }
    } else {
      ReadHolds(enc, st, p, out, e);
    }
  }

  lemma HoldsFits(enc: Encoding, st: State, p: seq<Byte>, out: seq<Unit>)
    requires Holds(enc, st, p, out)
    ensures Fits(st)
  {
  }

  /** `end` gives the text of the bytes held back. */
  lemma EndHolds(enc: Encoding, st: State, p: seq<Byte>, out: seq<Unit>)
    requires !enc.EncUtf8? && Holds(enc, st, p, out)
    ensures out + End(enc, st) == Text(enc, p)
  {
    hide Holds, Text, Group;
    var c, q := HoldsParts(enc, st, p, out);
    TextAdditive(enc, c, q);
    EndIsText(enc, st);
  }

  lemma EndIsText(enc: Encoding, st: State)
    requires !enc.EncUtf8? && Fits(st) && Shape(enc, st)
    ensures End(enc, st) == Text(enc, Pending(st))
  {
  }

  // ----------------------------------------------------------------- chunks

  predicate AlwaysFits(enc: Encoding, st: State, chunks: seq<seq<Byte>>)
    decreases |chunks|
  {
    Fits(st) && (chunks != [] ==> AlwaysFits(enc, Write(enc, st, chunks[0]).1, chunks[1..]))
  }

  /** The concatenated results of `write` for every chunk, and of `end`. */
  function WriteAll(enc: Encoding, st: State, chunks: seq<seq<Byte>>): seq<Unit>
    requires AlwaysFits(enc, st, chunks)
    decreases |chunks|
  {
    if chunks == [] then End(enc, st)
    else
      var r := Write(enc, st, chunks[0]);
      r.0 + WriteAll(enc, r.1, chunks[1..])
  }

  lemma {:induction false} WriteAllHolds(enc: Encoding, st: State, p: seq<Byte>, out: seq<Unit>, chunks: seq<seq<Byte>>)
    requires !enc.EncUtf8? && Holds(enc, st, p, out)
    ensures AlwaysFits(enc, st, chunks)
    ensures out + WriteAll(enc, st, chunks) == Text(enc, p + Concat(chunks))
    decreases |chunks|
  {
    hide Holds, Write, End, Text;
    HoldsFits(enc, st, p, out);
    if chunks == [] {
      EndHolds(enc, st, p, out);
      assert p + [] == p;
    } else {
      var r := Write(enc, st, chunks[0]);
      WriteHolds(enc, st, p, out, chunks[0]);
      WriteAllHolds(enc, r.1, p + chunks[0], out + r.0, chunks[1..]);
      Assoc(p, chunks[0], Concat(chunks[1..]));
      Assoc(out, r.0, WriteAll(enc, r.1, chunks[1..]));
    }
  }

  /** UTF-16 and base64: however the bytes are cut, the text is that of the whole. */
  lemma ChunksDoNotMatter(enc: Encoding, last: seq<Byte>, chunks: seq<seq<Byte>>)
    requires !enc.EncUtf8? && |last| == if enc.EncUtf16? then 4 else 3
    ensures AlwaysFits(enc, State(0, 0, last), chunks)
    ensures WriteAll(enc, State(0, 0, last), chunks) == Text(enc, Concat(chunks))
  {
    HoldsNone(enc, State(0, 0, last), [], []);
    WriteAllHolds(enc, State(0, 0, last), [], [], chunks);
    assert [] + Concat(chunks) == Concat(chunks);
    assert [] + WriteAll(enc, State(0, 0, last), chunks) == WriteAll(enc, State(0, 0, last), chunks);
  }

  // ------------------------------------------------------------ UTF-16 units

  /** Unit `i` of UTF-16 text is made of the bytes at `2 * i`, low byte first. */
  lemma {:induction false} UnitAt(b: seq<Byte>, i: nat)
    requires 2 * i + 1 < |b|
    ensures Decode16(b)[i] == (b[2 * i] as int) + 256 * (b[2 * i + 1] as int)
    decreases i
  {
    if i > 0 {
      UnitAt(b[2..], i - 1);
      assert b[2..][2 * (i - 1)] == b[2 * i] && b[2..][2 * (i - 1) + 1] == b[2 * i + 1];
    }
  }

  ghost predicate EndsInLead(s: seq<Unit>) {
    s != [] && Lead(s[|s| - 1])
  }

  /** One `write` gives the text of what waited and the chunk, but for a lead surrogate
    * at the very end that the chunk brings as a whole. */
  lemma WriteGives(st: State, e: seq<Byte>)
    requires Fits(st) && Shape(EncUtf16, st)
    ensures var t := Decode16(Pending(st) + e);
      Write(EncUtf16, st, e).0 ==
      if |e| < st.need then []
      else if |e| > st.need && |Pending(st) + e| % 2 == 0 && EndsInLead(t) then t[..|t| - 1]
      else t
  {
    hide Decode16, Read, Lead, Blit;
    var q := Pending(st);
    if st.need > 0 && |e| >= st.need {
      var x, rest := e[..st.need], e[st.need..];
      BlitFirst(st.last, |q|, x);
      assert e == x + rest;
      Assoc(q, x, rest);
      TextAdditive(EncUtf16, q + x, rest);
      if rest != [] {
        ReadGives(FillLast(EncUtf16, st, e).1.(need := 0), rest);
        LastOfBoth(Decode16(q + x), Decode16(rest));
      } else {
        NoUnits();
      }
    } else if st.need == 0 {
      assert q + e == e;
      NoUnits();
      if e != [] {
        ReadGives(st, e);
      }
    }
  }

  lemma NoUnits()
    ensures Decode16([]) == [] && forall s: seq<Unit> :: s + [] == s
  {
  }

  lemma ReadGives(st: State, s: seq<Byte>)
    requires s != [] && st.need == 0
    ensures var t := Decode16(s);
      Read(EncUtf16, st, s).0 == if |s| % 2 == 0 && EndsInLead(t) then t[..|t| - 1] else t
  {
    hide Decode16, Blit, Lead;
    if |s| % 2 == 1 {
      OddUnits(s);
    }
  }

  lemma OddUnits(s: seq<Byte>)
    requires |s| % 2 == 1
    ensures Decode16(s[..|s| - 1]) == Decode16(s)
  {
    hide Decode16;
    Decode16Prefix(s, |s| - 1);
    assert (|s| - 1) / 2 == |Decode16(s)|;
    assert Decode16(s)[..|Decode16(s)|] == Decode16(s);
  }

  lemma LastOfBoth(a: seq<Unit>, b: seq<Unit>)
    ensures b != [] ==> (EndsInLead(a + b) <==> EndsInLead(b)) && (a + b)[..|a + b| - 1] == a + b[..|b| - 1]
  {
  }

  /** No two lead surrogates in a row. */
  ghost predicate LeadsApart(s: seq<Unit>) {
    forall i :: 0 < i < |s| ==> !(Lead(s[i - 1]) && Lead(s[i]))
  }

  /** When no two lead surrogates follow each other, a `write` result ends in one
    * exactly if the chunk gives no more than a part of the next unit, or nothing
    * beyond the unit that waited: `write` looks at whole units of one chunk only. */
  lemma WriteEnds(st: State, e: seq<Byte>)
    requires Fits(st) && Shape(EncUtf16, st) && LeadsApart(Decode16(Pending(st) + e))
    ensures EndsInLead(Write(EncUtf16, st, e).0) <==>
      EndsInLead(Decode16(Pending(st) + e)) && |e| >= st.need && (|e| == st.need || |Pending(st) + e| % 2 == 1)
  {
    hide Decode16, Write;
    WriteGives(st, e);
  }

  /** Three bytes, of which the first two are a lead surrogate. */
  lemma WriteEndsInLead(last: seq<Byte>)
    requires |last| == 4
    ensures Write(EncUtf16, State(0, 0, last), [0x3D, 0xD8, 0x3D]).0 == [0xD83D] && Lead(0xD83D)
  {
    var e: seq<Byte> := [0x3D, 0xD8, 0x3D];
    WriteGives(State(0, 0, last), e);
    assert [] + e == e;
    UnitAt(e, 0);
  }
}
