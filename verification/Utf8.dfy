/** UTF-8 as `Buffer` writes and reads it: `utf8ToBytes` and `utf8Slice`, over
  * strings of 16-bit units (RFC 3629, section 3). */
module Utf8 {
  import opened Basics
  import opened Wrappers

  type Byte = x: nat | x < 0x100
  type Unit = x: nat | x < 0x1_0000

  /** A Unicode scalar value. */
  type Scalar = x: nat | x < 0x11_0000 && !(0xD800 <= x <= 0xDFFF)

  predicate Lead(u: Unit) { 0xD800 <= u <= 0xDBFF }
  predicate Trail(u: Unit) { 0xDC00 <= u <= 0xDFFF }

  /** The units of a scalar value. */
  function Units(c: Scalar): seq<Unit> {
    if c < 0x1_0000 then [c] else [0xD800 + (c - 0x1_0000) / 1024, 0xDC00 + (c - 0x1_0000) % 1024]
  }

  /** `65536 + (hi - 55296 << 10 | lo - 56320)` */
  function Combine(hi: Unit, lo: Unit): (c: Scalar)
    requires Lead(hi) && Trail(lo)
    ensures Units(c) == [hi, lo]
  {
    var h: int, l: int := hi, lo;
    0x1_0000 + (h - 0xD800) * 1024 + (l - 0xDC00)
  }

  function AllUnits(cs: seq<Scalar>): seq<Unit> {
    if cs == [] then [] else Units(cs[0]) + AllUnits(cs[1..])
  }

  /** Every surrogate is one half of a pair. */
  predicate WellFormed(s: seq<Unit>)
    decreases |s|
  {
    if s == [] then true
    else if Lead(s[0]) then |s| >= 2 && Trail(s[1]) && WellFormed(s[2..])
    else !Trail(s[0]) && WellFormed(s[1..])
  }

  function Scalars(s: seq<Unit>): (cs: seq<Scalar>)
    requires WellFormed(s)
    ensures AllUnits(cs) == s
    decreases |s|
  {
    if s == [] then []
    else if Lead(s[0]) then
      var c := Combine(s[0], s[1]);
      assert s == Units(c) + s[2..];
      [c] + Scalars(s[2..])
    else
      assert s == Units(s[0]) + s[1..];
      [s[0]] + Scalars(s[1..])
  }

  /** The bytes of a scalar value. */
  function Encode(c: Scalar): (b: seq<Byte>)
    ensures 1 <= |b| <= 4
  {
    if c < 0x80 then [c]
    else if c < 0x800 then [0xC0 + c / 0x40, 0x80 + c % 0x40]
    else if c < 0x1_0000 then [0xE0 + c / 0x1000, 0x80 + c / 0x40 % 0x40, 0x80 + c % 0x40]
    else [0xF0 + c / 0x4_0000, 0x80 + c / 0x1000 % 0x40, 0x80 + c / 0x40 % 0x40, 0x80 + c % 0x40]
  }

  function EncodeAll(cs: seq<Scalar>): seq<Byte> {
    if cs == [] then [] else Encode(cs[0]) + EncodeAll(cs[1..])
  }

  // ------------------------------------------------------------- utf8ToBytes

  const REPLACEMENT: seq<Byte> := [0xEF, 0xBF, 0xBD]

  /** A byte budget; `None` is `Infinity`. */
  type Budget = Option<int>

  function Spend(t: Budget, n: nat): Budget {
    match t { case None => None case Some(x) => Some(x - n) }
  }

  predicate Broke(t: Budget) {
    t.Some? && t.value < 0
  }

  /** One unit: what is pushed for ill-formed input, the pending lead surrogate
    * and budget afterwards, and the scalar to write, if there is one. */
  datatype Turn = Turn(bad: seq<Byte>, lead: Option<Unit>, t: Budget, scalar: Option<Scalar>)

  function Take(s: seq<Unit>, i: nat, lead: Option<Unit>, t: Budget): (r: Turn)
    requires i < |s| && (lead.Some? ==> Lead(lead.value))
    ensures r.lead.Some? ==> Lead(r.lead.value) && r.scalar.None?
  {
    var r := s[i];
    var t3 := Spend(t, 3);
    var bad := if Broke(t3) then [] else REPLACEMENT;
    if lead.None? && (Trail(r) || (Lead(r) && i + 1 == |s|)) then Turn(bad, None, t3, None)
    else if lead.None? && Lead(r) then Turn([], Some(r), t, None)
    else if Lead(r) then Turn(bad, Some(r), t3, None)
    else if lead.Some? && Trail(r) then Turn([], None, t, Some(Combine(lead.value, r)))
    else if lead.Some? then Turn(bad, None, t3, Some(r))
    else Turn([], None, t, Some(r))
  }

  /** The bytes that `utf8ToBytes` still pushes from index `i` on. */
  function BytesFrom(s: seq<Unit>, i: nat, lead: Option<Unit>, t: Budget): seq<Byte>
    requires i <= |s| && (lead.Some? ==> Lead(lead.value))
    decreases |s| - i
  {
    if i == |s| then []
    else
      var u := Take(s, i, lead, t);
      if u.scalar.None? then u.bad + BytesFrom(s, i + 1, u.lead, u.t)
      else
        var left := Spend(u.t, |Encode(u.scalar.value)|);
        if Broke(left) then u.bad else u.bad + Encode(u.scalar.value) + BytesFrom(s, i + 1, None, left)
  }

  /** `utf8ToBytes`; a limit of 0 counts as none. */
  function Utf8ToBytes(s: seq<Unit>, limit: Budget): seq<Byte> {
    BytesFrom(s, 0, None, if limit == Some(0) then None else limit)
  }

  lemma BytesEnd(s: seq<Unit>, lead: Option<Unit>, t: Budget)
    requires lead.Some? ==> Lead(lead.value)
    ensures BytesFrom(s, |s|, lead, t) == []
  {
  }

  /** `utf8ToBytes` with its loop. */
  method WriteUtf8(s: seq<Unit>, limit: Budget) returns (bytes: seq<Byte>)
    ensures bytes == Utf8ToBytes(s, limit)
  {
    hide Encode, BytesFrom, Take;
    var t := if limit == Some(0) then None else limit;
    ghost var t0 := t;
    bytes := [];
    var lead: Option<Unit> := None;
    for i := 0 to |s|
      invariant lead.Some? ==> Lead(lead.value)
      invariant BytesFrom(s, 0, None, t0) == bytes + BytesFrom(s, i, lead, t)
    {
      BytesStep(s, i, lead, t, bytes);
      var bad, lead', t', scalar := TakeUnit(s, i, lead, t);
      bytes := bytes + bad;
      lead, t := lead', t';
      if scalar.Some? {
        t := Spend(t, |Encode(scalar.value)|);
        if Broke(t) { return; }
        bytes := bytes + Encode(scalar.value);
      }
    }
    BytesEnd(s, lead, t);
  }

  /** One turn of the loop, with what has been pushed before. */
  lemma BytesStep(s: seq<Unit>, i: nat, lead: Option<Unit>, t: Budget, bytes: seq<Byte>)
    requires i < |s| && (lead.Some? ==> Lead(lead.value))
    ensures var u := Take(s, i, lead, t);
      bytes + BytesFrom(s, i, lead, t)
      == if u.scalar.None? then bytes + u.bad + BytesFrom(s, i + 1, u.lead, u.t)
         else
           var left := Spend(u.t, |Encode(u.scalar.value)|);
           if Broke(left) then bytes + u.bad
           else bytes + u.bad + Encode(u.scalar.value) + BytesFrom(s, i + 1, None, left)
  {
    hide Encode, Take;
    var u := Take(s, i, lead, t);
    if u.scalar.None? {
      Assoc(bytes, u.bad, BytesFrom(s, i + 1, u.lead, u.t));
    } else {
      var left := Spend(u.t, |Encode(u.scalar.value)|);
      Assoc(bytes, u.bad, Encode(u.scalar.value));
      Assoc(bytes, u.bad + Encode(u.scalar.value), BytesFrom(s, i + 1, None, left));
    }
  }

  /** The surrogate handling of the loop body. */
  method TakeUnit(s: seq<Unit>, i: nat, lead0: Option<Unit>, t0: Budget)
    returns (bad: seq<Byte>, lead: Option<Unit>, t: Budget, scalar: Option<Scalar>)
    requires i < |s| && (lead0.Some? ==> Lead(lead0.value))
    ensures Turn(bad, lead, t, scalar) == Take(s, i, lead0, t0)
  {
    bad, lead, t, scalar := [], lead0, t0, None;
    var r := s[i];
    if r > 0xD7FF && r < 0xE000 {
      if lead.None? {
        if r > 0xDBFF || i + 1 == |s| {
          t := Spend(t, 3);
          if !Broke(t) { bad := REPLACEMENT; }
        } else {
          lead := Some(r);
        }
        return;
      }
      if r < 0xDC00 {
        t := Spend(t, 3);
        if !Broke(t) { bad := REPLACEMENT; }
        lead := Some(r);
        return;
      }
      scalar := Some(Combine(lead.value, r));
    } else {
      if lead.Some? {
        t := Spend(t, 3);
        if !Broke(t) { bad := REPLACEMENT; }
      }
      scalar := Some(r);
    }
    lead := None;
  }

  /** A well-formed string, one scalar on. */
  lemma ScalarStep(s: seq<Unit>, i: nat, t: Budget)
    requires i < |s| && WellFormed(s[i..])
    ensures var w := if Lead(s[i]) then 2 else 1;
      var cs := Scalars(s[i..]);
      var left := Spend(t, |Encode(cs[0])|);
      && i + w <= |s| && WellFormed(s[i + w..]) && cs[1..] == Scalars(s[i + w..])
      && BytesFrom(s, i, None, t) == if Broke(left) then [] else Encode(cs[0]) + BytesFrom(s, i + w, None, left)
  {
    hide Encode;
    if Lead(s[i]) {
      assert s[i..][2..] == s[i + 2..] && s[i..][1] == s[i + 1];
      var u := Take(s, i + 1, Some(s[i]), t);
      assert BytesFrom(s, i, None, t) == [] + BytesFrom(s, i + 1, Some(s[i]), t);
      assert u.scalar == Some(Combine(s[i], s[i + 1]));
      assert u.bad + Encode(u.scalar.value) == Encode(u.scalar.value);
    } else {
      assert s[i..][1..] == s[i + 1..];
      assert [] + Encode(s[i]) == Encode(s[i]);
    }
  }

  /** Without a limit, a well-formed string is encoded scalar by scalar. */
  lemma {:induction false} BytesOfScalars(s: seq<Unit>, i: nat)
    requires i <= |s| && WellFormed(s[i..])
    ensures BytesFrom(s, i, None, None) == EncodeAll(Scalars(s[i..]))
    decreases |s| - i
  {
    if i < |s| {
      ScalarStep(s, i, None);
      BytesOfScalars(s, i + if Lead(s[i]) then 2 else 1);
    }
  }

  /** The longest prefix of scalars whose bytes fit a budget. */
  function Fitting(cs: seq<Scalar>, t: nat): (n: nat)
    ensures n <= |cs|
    ensures |EncodeAll(cs[..n])| <= t
    ensures n < |cs| ==> |EncodeAll(cs[..n + 1])| > t
  {
    if cs == [] || |Encode(cs[0])| > t then
      assert cs != [] ==> cs[..1] == [cs[0]] + cs[..0] && EncodeAll(cs[..1]) == Encode(cs[0]) + [];
      0
    else
      var n := Fitting(cs[1..], t - |Encode(cs[0])|);
      assert cs[..n + 1] == [cs[0]] + cs[1..][..n];
      assert n + 1 < |cs| ==> cs[..n + 2] == [cs[0]] + cs[1..][..n + 1];
      n + 1
  }

  lemma {:induction false} BytesWithin(s: seq<Unit>, i: nat, t: nat)
    requires i <= |s| && WellFormed(s[i..])
    ensures var cs := Scalars(s[i..]);
      BytesFrom(s, i, None, Some(t)) == EncodeAll(cs[..Fitting(cs, t)])
    decreases |s| - i
  {
    if i < |s| {
      var cs := Scalars(s[i..]);
      ScalarStep(s, i, Some(t));
      var k := |Encode(cs[0])|;
      if k <= t {
        BytesWithin(s, i + if Lead(s[i]) then 2 else 1, t - k);
        var n := Fitting(cs, t);
        assert cs[..n][1..] == cs[1..][..n - 1];
      }
    }
  }

  /** A limit cuts a well-formed string after the last scalar that fits. */
  lemma LimitedBytes(s: seq<Unit>, t: nat)
    requires WellFormed(s) && t > 0
    ensures var cs := Scalars(s);
      var n := Fitting(cs, t);
      && Utf8ToBytes(s, Some(t)) == EncodeAll(cs[..n])
      && |EncodeAll(cs[..n])| <= t
      && (n < |cs| ==> |EncodeAll(cs[..n + 1])| > t)
  {
    assert s[0..] == s;
    BytesWithin(s, 0, t);
  }

  // --------------------------------------------------------------- utf8Slice

  predicate Cont(b: Byte) { 0x80 <= b < 0xC0 }

  /** The length the first byte announces. */
  function Announced(b: Byte): nat {
    if b > 0xEF then 4 else if b > 0xDF then 3 else if b > 0xBF then 2 else 1
  }

  /** One step of `utf8Slice`: the scalar read and the bytes used. */
  function DecodeOne(b: seq<Byte>): (r: (Scalar, nat))
    requires b != []
    ensures 1 <= r.1 <= |b|
  {
    var n := Announced(b[0]);
    if n <= |b| && (forall k :: 1 <= k < n ==> Cont(b[k])) && InRange(n, Raw(b, n)) then (Raw(b, n), n)
    else (0xFFFD, 1)
  }

  /** The bits of a character of `n` bytes. */
  function Raw(b: seq<Byte>, n: nat): (c: nat)
    requires n <= |b| && 1 <= n <= 4
  {
    var x: int := b[0];
    if n == 1 then x
    else
      var y: int := b[1];
      if n == 2 then x % 0x20 * 0x40 + y % 0x40
      else
        var z: int := b[2];
        if n == 3 then x % 0x10 * 0x1000 + y % 0x40 * 0x40 + z % 0x40
        else
          var w: int := b[3];
          x % 0x10 * 0x4_0000 + y % 0x40 * 0x1000 + z % 0x40 * 0x40 + w % 0x40
  }

  /** Values a character of `n` bytes may have: no overlong form, no surrogate. */
  predicate InRange(n: nat, c: nat) {
    if n == 1 then c < 0x80
    else if n == 2 then c > 0x7F
    else if n == 3 then c > 0x7FF && (c < 0xD800 || c > 0xDFFF)
    else 0xFFFF < c < 0x11_0000
  }

  /** `utf8Slice` of a whole buffer. */
  function Decode(b: seq<Byte>): seq<Unit>
    decreases |b|
  {
    if b == [] then []
    else var (c, n) := DecodeOne(b); Units(c) + Decode(b[n..])
  }

  /** `utf8Slice` with its loop. */
  method ReadUtf8(b: seq<Byte>, start: nat, end: nat) returns (s: seq<Unit>)
    requires start <= end
    ensures s == if start <= |b| then Decode(b[start..if end < |b| then end else |b|]) else []
  {
    hide DecodeOne, Units, Decode;
    var stop := if end < |b| then end else |b|;
    s := [];
    if start > |b| { return; }
    var i := start;
    while i < stop
      invariant start <= i <= stop
      invariant Decode(b[start..stop]) == s + Decode(b[i..stop])
    {
      DecodeStep(b, i, stop, s);
      var step := DecodeOne(b[i..stop]);
      UnitsOf(step.0);
      var c: int := step.0;
      if c > 0xFFFF {
        s := s + [0xD800 + (c - 0x1_0000) / 1024, 0xDC00 + (c - 0x1_0000) % 1024];
      } else {
        s := s + [c];
      }
      i := i + step.1;
    }
    DecodeNone(b[stop..stop]);
  }

  lemma DecodeNone(b: seq<Byte>)
    requires b == []
    ensures Decode(b) == []
  {
  }

  lemma DecodeStep(b: seq<Byte>, i: nat, stop: nat, s: seq<Unit>)
    requires i < stop <= |b|
    ensures var r := DecodeOne(b[i..stop]);
      && i + r.1 <= stop
      && s + Decode(b[i..stop]) == s + Units(r.0) + Decode(b[i + r.1..stop])
  {
    hide DecodeOne, Units;
    var r := DecodeOne(b[i..stop]);
    assert b[i..stop][r.1..] == b[i + r.1..stop];
    Assoc(s, Units(r.0), Decode(b[i + r.1..stop]));
  }

  lemma UnitsOf(c: Scalar)
    ensures c <= 0xFFFF ==> Units(c) == [c]
    ensures c > 0xFFFF ==> Units(c) == [0xD800 + (c - 0x1_0000) / 1024, 0xDC00 + (c - 0x1_0000) % 1024]
  {
  }

  /** A scalar's bytes are read back as that scalar, whatever follows. */
  lemma DecodeEncoded(c: Scalar, rest: seq<Byte>)
    ensures DecodeOne(Encode(c) + rest) == (c, |Encode(c)|)
  {
    var b := Encode(c) + rest;
    RawEncoded(c, rest);
    assert forall k :: 1 <= k < |Encode(c)| ==> b[k] == Encode(c)[k];
    EncodeShape(c);
  }

  lemma EncodeShape(c: Scalar)
    ensures Announced(Encode(c)[0]) == |Encode(c)|
    ensures forall k :: 1 <= k < |Encode(c)| ==> Cont(Encode(c)[k])
    ensures InRange(|Encode(c)|, c)
  {
  }

  lemma RawEncoded(c: Scalar, rest: seq<Byte>)
    ensures Raw(Encode(c) + rest, |Encode(c)|) == c
  {
    if 0x80 <= c < 0x800 {
      Raw2(c, rest);
    } else if 0x800 <= c < 0x1_0000 {
      Raw3(c, rest);
    } else if 0x1_0000 <= c {
      Raw4(c, rest);
    }
  }

  lemma Raw2(c: Scalar, rest: seq<Byte>)
    requires 0x80 <= c < 0x800
    ensures Raw(Encode(c) + rest, 2) == c
  {
    var b := Encode(c) + rest;
    assert b[0] == 0xC0 + c / 0x40 && b[1] == 0x80 + c % 0x40;
  }

  lemma Raw3(c: Scalar, rest: seq<Byte>)
    requires 0x800 <= c < 0x1_0000
    ensures Raw(Encode(c) + rest, 3) == c
  {
    var b := Encode(c) + rest;
    var x, y, z := c / 0x1000, c / 0x40 % 0x40, c % 0x40;
    assert b[0] == 0xE0 + x && b[1] == 0x80 + y && b[2] == 0x80 + z;
    assert c == x * 0x1000 + y * 0x40 + z;
  }

  lemma Raw4(c: Scalar, rest: seq<Byte>)
    requires c >= 0x1_0000
    ensures Raw(Encode(c) + rest, 4) == c
  {
    var b := Encode(c) + rest;
    var x, y, z, w := c / 0x4_0000, c / 0x1000 % 0x40, c / 0x40 % 0x40, c % 0x40;
    FourParts(c);
    Tail6(y);
    Tail6(z);
    Tail6(w);
    assert (0xF0 + x) % 0x10 == x;
    assert b == [0xF0 + x, 0x80 + y, 0x80 + z, 0x80 + w] + rest;
  }

  lemma Tail6(y: nat)
    requires y < 0x40
    ensures (0x80 + y) % 0x40 == y
  {
  }

  lemma FourParts(c: nat)
    ensures c == c / 0x4_0000 * 0x4_0000 + c / 0x1000 % 0x40 * 0x1000 + c / 0x40 % 0x40 * 0x40 + c % 0x40
  {
    var a, b := c / 0x40, c / 0x1000;
    assert b == a / 0x40 && c / 0x4_0000 == b / 0x40;
  }

  lemma {:induction false} DecodeAllEncoded(cs: seq<Scalar>, rest: seq<Byte>)
    ensures Decode(EncodeAll(cs) + rest) == AllUnits(cs) + Decode(rest)
    decreases |cs|
  {
    if cs == [] {
      assert EncodeAll(cs) + rest == rest;
    } else {
      var more := EncodeAll(cs[1..]) + rest;
      assert EncodeAll(cs) + rest == Encode(cs[0]) + more;
      DecodeEncoded(cs[0], more);
      assert (Encode(cs[0]) + more)[|Encode(cs[0])|..] == more;
      DecodeAllEncoded(cs[1..], rest);
    }
  }

  /** Writing a well-formed string and reading it back is the identity. */
  lemma RoundTrip(s: seq<Unit>)
    requires WellFormed(s)
    ensures Decode(Utf8ToBytes(s, None)) == s
  {
    assert s[0..] == s;
    BytesOfScalars(s, 0);
    DecodeAllEncoded(Scalars(s), []);
    assert EncodeAll(Scalars(s)) + [] == EncodeAll(Scalars(s));
  }

  lemma {:induction false} UnitsWellFormed(c: Scalar, s: seq<Unit>)
    requires WellFormed(s)
    ensures WellFormed(Units(c) + s)
  {
    var w := Units(c) + s;
    if c < 0x1_0000 {
      assert w[1..] == s;
    } else {
      assert w[2..] == s;
    }
  }

  /** Whatever the bytes, what is read is well-formed. */
  lemma {:induction false} DecodeWellFormed(b: seq<Byte>)
    ensures WellFormed(Decode(b))
    decreases |b|
  {
    if b != [] {
      var (c, n) := DecodeOne(b);
      DecodeWellFormed(b[n..]);
      UnitsWellFormed(c, Decode(b[n..]));
    }
  }

  // --------------------------------------------------------- malformed input

  /** The bytes of `c` stand at the front of `b`. */
  predicate Starts(b: seq<Byte>, c: Scalar) {
    Encode(c) <= b
  }

  /** For any bytes: a character that stands at the front is read, and where none
    * does, one byte is replaced by U+FFFD. */
  lemma DecodeLaw(b: seq<Byte>)
    requires b != []
    ensures forall c: Scalar :: Starts(b, c) ==> Decode(b) == Units(c) + Decode(b[|Encode(c)|..])
    ensures (forall c: Scalar :: !Starts(b, c)) ==> Decode(b) == [0xFFFD] + Decode(b[1..])
  {
    hide Encode, Units, Raw, Announced, Cont;
    forall c: Scalar | Starts(b, c) ensures Decode(b) == Units(c) + Decode(b[|Encode(c)|..]) {
      DecodeEncoded(c, b[|Encode(c)|..]);
      assert Encode(c) + b[|Encode(c)|..] == b;
    }
    if forall c: Scalar :: !Starts(b, c) {
      WellFormedFront(b);
      UnitsOf(0xFFFD);
    }
  }

  /** What `utf8Slice` accepts is the encoding of what it reads. */
  lemma WellFormedFront(b: seq<Byte>)
    requires b != []
    ensures DecodeOne(b) == (0xFFFD, 1) || Starts(b, DecodeOne(b).0)
  {
    hide Encode, Raw, InRange;
    var n := Announced(b[0]);
    if n <= |b| && (forall k :: 1 <= k < n ==> Cont(b[k])) && InRange(n, Raw(b, n)) {
      EncodeRaw(b, n);
      assert b == b[..n] + b[n..];
    }
  }

  lemma EncodeRaw(b: seq<Byte>, n: nat)
    requires b != [] && n == Announced(b[0]) <= |b| && InRange(n, Raw(b, n))
    requires forall k :: 1 <= k < n ==> Cont(b[k])
    ensures Encode(Raw(b, n)) == b[..n]
  {
    if n == 2 {
      SplitCont(b[1]);
      assert b[..2] == [b[0], b[1]];
    } else if n == 3 {
      EncodeRaw3(b);
    } else if n == 4 {
      EncodeRaw4(b);
    }
  }

  lemma SplitCont(y: Byte)
    requires Cont(y)
    ensures (y as int) == 0x80 + (y as int) % 0x40
  {
  }

  lemma EncodeRaw3(b: seq<Byte>)
    requires |b| >= 3 && 0xDF < b[0] <= 0xEF && InRange(3, Raw(b, 3)) && Cont(b[1]) && Cont(b[2])
    ensures Encode(Raw(b, 3)) == b[..3]
  {
    var x: int, y: int, z: int := (b[0] as int) % 0x10, (b[1] as int) % 0x40, (b[2] as int) % 0x40;
    var c := Raw(b, 3);
    SplitCont(b[1]);
    SplitCont(b[2]);
    Digits64(x, y, z);
    assert b[..3] == [b[0], b[1], b[2]];
  }

  lemma Digits64(x: int, y: int, z: int)
    requires 0 <= x && 0 <= y < 0x40 && 0 <= z < 0x40
    ensures var c := x * 0x1000 + y * 0x40 + z; c / 0x1000 == x && c / 0x40 % 0x40 == y && c % 0x40 == z
    ensures var c := x * 0x1000 + y * 0x40 + z; c / 0x40 == x * 0x40 + y
  {
    var c := x * 0x1000 + y * 0x40 + z;
    QuotientIs(c, 0x40, x * 0x40 + y, z);
    QuotientIs(x * 0x40 + y, 0x40, x, y);
    QuotientIs(c, 0x1000, x, y * 0x40 + z);
  }

  lemma EncodeRaw4(b: seq<Byte>)
    requires |b| >= 4 && b[0] > 0xEF && InRange(4, Raw(b, 4)) && Cont(b[1]) && Cont(b[2]) && Cont(b[3])
    ensures Encode(Raw(b, 4)) == b[..4]
  {
    hide Cont;
    var x: int, y: int, z: int, w: int :=
      (b[0] as int) % 0x10, (b[1] as int) % 0x40, (b[2] as int) % 0x40, (b[3] as int) % 0x40;
    SplitCont(b[1]);
    SplitCont(b[2]);
    SplitCont(b[3]);
    var c: int := Raw(b, 4);
    assert c == (x * 0x40 + y) * 0x1000 + z * 0x40 + w;
    Digits64(x * 0x40 + y, z, w);
    QuotientIs(x * 0x40 + y, 0x40, x, y);
    QuotientIs(c, 0x4_0000, x, y * 0x1000 + z * 0x40 + w);
    assert b[..4] == [b[0], b[1], b[2], b[3]];
  }

  /** The table of section 3 of RFC 3629: how many bytes, their high bits, and the bits
    * of the character in the others. */
  lemma EncodeTable(c: Scalar)
    ensures |Encode(c)| == if c <= 0x7F then 1 else if c <= 0x7FF then 2 else if c <= 0xFFFF then 3 else 4
    ensures forall k :: 1 <= k < |Encode(c)| ==> Payload(Encode(c)[k], 0x80, 0x40)
    ensures |Encode(c)| == 1 ==> Encode(c) == [c]
    ensures |Encode(c)| == 2 ==>
      && Payload(Encode(c)[0], 0xC0, 0x20)
      && c == 0x40 * Low(Encode(c)[0], 0xC0) + Low(Encode(c)[1], 0x80)
    ensures |Encode(c)| == 3 ==>
      && Payload(Encode(c)[0], 0xE0, 0x10)
      && c == 0x1000 * Low(Encode(c)[0], 0xE0) + 0x40 * Low(Encode(c)[1], 0x80) + Low(Encode(c)[2], 0x80)
    ensures |Encode(c)| == 4 ==>
      && Payload(Encode(c)[0], 0xF0, 0x08)
      && c == 0x4_0000 * Low(Encode(c)[0], 0xF0) + 0x1000 * Low(Encode(c)[1], 0x80)
              + 0x40 * Low(Encode(c)[2], 0x80) + Low(Encode(c)[3], 0x80)
  {
    FourParts(c);
  }

  /** A byte with the high bits of `mark` and payload bits below `size`. */
  predicate Payload(b: Byte, mark: int, size: int) {
    mark <= b < mark + size
  }

  function Low(b: Byte, mark: int): int {
    b - mark
  }

  // ------------------------------------------------------ ill-formed strings

  /** The scalars of any string, with U+FFFD for every surrogate without a partner. */
  function Repaired(s: seq<Unit>): seq<Scalar>
    decreases |s|
  {
    if s == [] then []
    else if Lead(s[0]) && |s| > 1 && Trail(s[1]) then [Combine(s[0], s[1])] + Repaired(s[2..])
    else if Lead(s[0]) || Trail(s[0]) then [0xFFFD] + Repaired(s[1..])
    else [s[0]] + Repaired(s[1..])
  }

  /** A string that ends in two lead surrogates. */
  predicate EndsInLeads(s: seq<Unit>) {
    |s| >= 2 && Lead(s[|s| - 1]) && Lead(s[|s| - 2])
  }

  /** What `utf8ToBytes` writes: it forgets the last of two lead surrogates at the end. */
  function Written(s: seq<Unit>): seq<Scalar> {
    Repaired(if EndsInLeads(s) then s[..|s| - 1] else s)
  }

  lemma {:induction false} RepairedWellFormed(s: seq<Unit>)
    requires WellFormed(s)
    ensures Repaired(s) == Scalars(s)
    decreases |s|
  {
    if s != [] {
      RepairedWellFormed(s[if Lead(s[0]) then 2 else 1..]);
    }
  }

  /** What is written of scalars within a budget. */
  function Within(cs: seq<Scalar>, t: Budget): seq<Byte> {
    match t
    case None => EncodeAll(cs)
    case Some(x) => if x < 0 then [] else EncodeAll(cs[..Fitting(cs, x)])
  }

  lemma WithinNone(t: Budget)
    ensures Within([], t) == []
  {
  }

  lemma WithinMore(c: Scalar, cs: seq<Scalar>, t: Budget)
    ensures var left := Spend(t, |Encode(c)|);
      Within([c] + cs, t) == if Broke(left) then [] else Encode(c) + Within(cs, left)
  {
    hide Encode;
    var all := [c] + cs;
    assert all[1..] == cs;
    if t.Some? && t.value >= |Encode(c)| {
      var n := Fitting(all, t.value);
      assert all[..n][1..] == cs[..n - 1];
    }
  }

  lemma {:induction false} WithinBroke(s: seq<Unit>, i: nat, lead: Option<Unit>, t: Budget)
    requires i <= |s| && (lead.Some? ==> Lead(lead.value)) && Broke(t)
    ensures BytesFrom(s, i, lead, t) == []
    decreases |s| - i
  {
    hide Encode;
    if i < |s| {
      var u := Take(s, i, lead, t);
      if u.scalar.None? {
        WithinBroke(s, i + 1, u.lead, u.t);
      }
    }
  }

  lemma WrittenNone()
    ensures Written([]) == []
  {
  }

  lemma WrittenStep(v: seq<Unit>)
    requires v != []
    ensures !Lead(v[0]) ==> Written(v) == [if Trail(v[0]) then 0xFFFD else v[0]] + Written(v[1..])
    ensures Lead(v[0]) && |v| > 1 && Trail(v[1]) ==> Written(v) == [Combine(v[0], v[1])] + Written(v[2..])
    ensures Lead(v[0]) && |v| > 1 && !Trail(v[1]) && !(Lead(v[1]) && |v| == 2) ==>
      Written(v) == [0xFFFD] + Written(v[1..])
    ensures Lead(v[0]) && (|v| == 1 || (|v| == 2 && Lead(v[1]))) ==> Written(v) == [0xFFFD]
  {
    var w := v[..|v| - 1];
    if EndsInLeads(v) {
      assert |v| > 2 ==> w[1..] == v[1..][..|v| - 2];
      assert |v| > 3 ==> w[2..] == v[2..][..|v| - 3];
      assert |v| == 2 ==> w == [v[0]];
    }
    assert [v[0]][1..] == [] && [0xFFFD] + Repaired([]) == [0xFFFD];
  }

  /** One replacement, within the budget. */
  lemma WithinBad(s: seq<Unit>, i: nat, lead: Option<Unit>, t: Budget, cs: seq<Scalar>)
    requires i <= |s| && (lead.Some? ==> Lead(lead.value))
    requires BytesFrom(s, i, lead, Spend(t, 3)) == Within(cs, Spend(t, 3))
    ensures (if Broke(Spend(t, 3)) then [] else REPLACEMENT) + BytesFrom(s, i, lead, Spend(t, 3))
         == Within([0xFFFD] + cs, t)
  {
    assert Encode(0xFFFD) == REPLACEMENT;
    WithinMore(0xFFFD, cs, t);
    if Broke(Spend(t, 3)) {
      WithinBroke(s, i, lead, Spend(t, 3));
    }
  }

  /** One scalar, within the budget, after `bad`. */
  lemma WithinGood(s: seq<Unit>, i: nat, t: Budget, c: Scalar, cs: seq<Scalar>)
    requires i <= |s|
    requires BytesFrom(s, i, None, Spend(t, |Encode(c)|)) == Within(cs, Spend(t, |Encode(c)|))
    ensures (if Broke(Spend(t, |Encode(c)|)) then [] else Encode(c) + BytesFrom(s, i, None, Spend(t, |Encode(c)|)))
         == Within([c] + cs, t)
  {
    hide Encode, BytesFrom;
    WithinMore(c, cs, t);
  }

  /** The loop from index `i` on, with or without a lead surrogate before it. */
  lemma {:induction false} BytesAre(s: seq<Unit>, i: nat, lead: Option<Unit>, t: Budget)
    requires i <= |s| && (lead.Some? ==> i > 0 && s[i - 1] == lead.value && Lead(lead.value) && i < |s|)
    ensures BytesFrom(s, i, lead, t) == Within(Written(s[if lead.Some? then i - 1 else i..]), t)
    decreases |s| - i, 2
  {
    hide Encode, Within, Written;
    if i == |s| {
      WrittenNone();
      WithinNone(t);
      assert s[i..] == [];
    } else if lead.None? {
      BytesFresh(s, i, t);
    } else {
      BytesPending(s, i, lead.value, t);
    }
  }

  lemma {:induction false} BytesFresh(s: seq<Unit>, i: nat, t: Budget)
    requires i < |s|
    ensures BytesFrom(s, i, None, t) == Within(Written(s[i..]), t)
    decreases |s| - i, 0
  {
    hide Encode, Within, Written;
    var v, r := s[i..], s[i];
    assert v[1..] == s[i + 1..];
    WrittenStep(v);
    if Lead(r) && i + 1 < |s| {
      BytesAre(s, i + 1, Some(r), t);
      assert [] + BytesFrom(s, i + 1, Some(r), t) == BytesFrom(s, i + 1, Some(r), t);
    } else if Lead(r) {
      BytesEnd(s, None, Spend(t, 3));
      WithinNone(Spend(t, 3));
      WithinBad(s, i + 1, None, t, []);
      assert [0xFFFD] + [] == [0xFFFD];
    } else if Trail(r) {
      BytesAre(s, i + 1, None, Spend(t, 3));
      WithinBad(s, i + 1, None, t, Written(s[i + 1..]));
    } else {
      BytesAre(s, i + 1, None, Spend(t, |Encode(r)|));
      WithinGood(s, i + 1, t, r, Written(s[i + 1..]));
      assert [] + Encode(r) == Encode(r);
    }
  }

  lemma {:induction false} BytesPending(s: seq<Unit>, i: nat, l: Unit, t: Budget)
    requires 0 < i < |s| && s[i - 1] == l && Lead(l)
    ensures BytesFrom(s, i, Some(l), t) == Within(Written(s[i - 1..]), t)
    decreases |s| - i, 1
  {
    hide Encode, Within, Written;
    var v, r := s[i - 1..], s[i];
    assert v[1..] == s[i..] && v[2..] == s[i + 1..] && v[1] == r;
    WrittenStep(v);
    if Lead(r) && i + 1 == |s| {
      BytesEnd(s, Some(r), Spend(t, 3));
      WithinNone(Spend(t, 3));
      WithinBad(s, i + 1, Some(r), t, []);
      assert [0xFFFD] + [] == [0xFFFD];
    } else if Lead(r) {
      BytesAre(s, i + 1, Some(r), Spend(t, 3));
      WithinBad(s, i + 1, Some(r), t, Written(s[i..]));
    } else if Trail(r) {
      var c := Combine(l, r);
      BytesAre(s, i + 1, None, Spend(t, |Encode(c)|));
      WithinGood(s, i + 1, t, c, Written(s[i + 1..]));
      assert [] + Encode(c) == Encode(c);
    } else {
      BytesFresh(s, i, Spend(t, 3));
      BytesSkipped(s, i, l, t);
    }
  }

  /** A lone lead surrogate before a unit of its own: a replacement and a scalar. */
  lemma BytesSkipped(s: seq<Unit>, i: nat, l: Unit, t: Budget)
    requires 0 < i < |s| && s[i - 1] == l && Lead(l) && !Lead(s[i]) && !Trail(s[i])
    requires BytesFrom(s, i, None, Spend(t, 3)) == Within(Written(s[i..]), Spend(t, 3))
    ensures BytesFrom(s, i, Some(l), t) == Within(Written(s[i - 1..]), t)
  {
    hide Encode, Within, Written;
    var v := s[i - 1..];
    assert v[1..] == s[i..] && v[1] == s[i];
    WrittenStep(v);
    WithinBad(s, i, None, t, Written(s[i..]));
  }

  /** For any string and any limit: the longest prefix that fits of the scalars with
    * U+FFFD for every surrogate without a partner, except that the last of two lead
    * surrogates at the end is forgotten. */
  lemma AnyBytes(s: seq<Unit>, limit: Budget)
    requires limit.Some? ==> limit.value >= 0
    ensures Utf8ToBytes(s, limit) == Within(Written(s), if limit == Some(0) then None else limit)
  {
    assert s[0..] == s;
    BytesAre(s, 0, None, if limit == Some(0) then None else limit);
  }

  /** So without a limit each one is written exactly unless two stand at the end. */
  lemma AllWritten(s: seq<Unit>)
    ensures Utf8ToBytes(s, None) == EncodeAll(Repaired(s)) <==> !EndsInLeads(s)
  {
    AnyBytes(s, None);
    if EndsInLeads(s) {
      LastForgotten(s);
    }
  }

  /** Two lead surrogates, of which one is forgotten. */
  lemma TwoLeads()
    ensures Utf8ToBytes([0xD800, 0xD800], None) == REPLACEMENT
  {
    AnyBytes([0xD800, 0xD800], None);
    WrittenStep([0xD800, 0xD800]);
    EncodedFFFD();
  }

  /** One scalar less, of three bytes. */
  lemma {:induction false} LastForgotten(s: seq<Unit>)
    requires |s| > 0 && Lead(s[|s| - 1]) && (|s| > 1 ==> Lead(s[|s| - 2]))
    ensures EncodeAll(Repaired(s)) == EncodeAll(Repaired(s[..|s| - 1])) + REPLACEMENT
    decreases |s|
  {
    hide Encode, Combine, Repaired, EncodeAll;
    var w := s[..|s| - 1];
    if |s| == 1 {
      LeadAlone(s);
    } else {
      var n := if Lead(s[0]) && Trail(s[1]) then 2 else 1;
      assert s[n..][..|s[n..]| - 1] == w[n..];
      LastForgotten(s[n..]);
      var x := RepairedStep(s, n);
      FirstSame(s, w, n);
      var y := RepairedStep(w, n);
      EncodeMore(x, Repaired(s[n..]));
      EncodeMore(x, Repaired(w[n..]));
      Assoc(Encode(x), EncodeAll(Repaired(w[n..])), REPLACEMENT);
    }
  }

  lemma LeadAlone(s: seq<Unit>)
    requires |s| == 1 && Lead(s[0])
    ensures EncodeAll(Repaired(s)) == EncodeAll(Repaired(s[..0])) + REPLACEMENT
  {
    assert Repaired(s) == [0xFFFD] + [] && Repaired(s[..0]) == [];
    EncodedFFFD();
  }

  /** The first scalar and the rest. */
  lemma RepairedStep(s: seq<Unit>, n: nat) returns (x: Scalar)
    requires s != [] && n == if |s| > 1 && Lead(s[0]) && Trail(s[1]) then 2 else 1
    ensures Repaired(s) == [x] + Repaired(s[n..])
    ensures n == 2 ==> x == Combine(s[0], s[1])
    ensures n == 1 ==> x == if Lead(s[0]) || Trail(s[0]) then 0xFFFD else s[0]
  {
    hide Combine;
    x := if n == 2 then Combine(s[0], s[1]) else if Lead(s[0]) || Trail(s[0]) then 0xFFFD else s[0];
  }

  lemma FirstSame(s: seq<Unit>, w: seq<Unit>, n: nat)
    requires |s| > 1 && w == s[..|s| - 1] && Lead(s[|s| - 1]) && Lead(s[|s| - 2])
    requires n == if Lead(s[0]) && Trail(s[1]) then 2 else 1
    ensures w != [] && w[0] == s[0] && n == if |w| > 1 && Lead(w[0]) && Trail(w[1]) then 2 else 1
    ensures n == 2 ==> |w| > 2 && w[1] == s[1]
  {
  }

  lemma EncodedFFFD()
    ensures EncodeAll([0xFFFD]) == REPLACEMENT && EncodeAll([]) == []
  {
  }

  lemma EncodeMore(c: Scalar, cs: seq<Scalar>)
    ensures EncodeAll([c] + cs) == Encode(c) + EncodeAll(cs)
  {
    assert ([c] + cs)[1..] == cs;
  }
}
