/** `Buffer` reads and writes signed integers of one to six bytes. Numbers in this
  * range are exact in the program's arithmetic, and so are quotients by powers of
  * 256; `|0` truncates toward zero and keeps 32 bits. */
module SignedInts {
  import opened Basics
  import opened Wrappers
  import opened Utf8

  // --------------------------------------------------- two's complement bytes

  function Pow256(n: nat): (p: nat)
    ensures p >= 1
  {
    if n == 0 then 1 else 256 * Pow256(n - 1)
  }

  /** The last `n` bytes of `v` in two's complement, least significant first. */
  function Bytes(v: int, n: nat): (b: seq<Byte>)
    ensures |b| == n
    decreases n
  {
    if n == 0 then [] else [v % 256] + Bytes(v / 256, n - 1)
  }

  /** Byte `i` is the one of weight `256^i`. */
  lemma {:induction false} BytesIndex(v: int, n: nat, i: nat)
    requires i < n
    ensures Bytes(v, n)[i] == v / Pow256(i) % 256
    decreases i
  {
    if i > 0 {
      BytesIndex(v / 256, n - 1, i - 1);
      DivTwice(v, Pow256(i - 1));
    }
  }

  lemma DivTwice(v: int, b: int)
    requires b > 0
    ensures v / 256 / b == v / (256 * b)
  {
    var q, r := v / 256, v % 256;
    var p, s := q / b, q % b;
    assert (256 * b) * p == 256 * (b * p);
    QuotientIs(v, 256 * b, p, 256 * s + r);
  }

  function Unsigned(b: seq<Byte>): (v: nat)
    ensures v < Pow256(|b|)
  {
    if b == [] then 0 else b[0] + 256 * Unsigned(b[1..])
  }

  /** The number that the bytes stand for. */
  function Signed(b: seq<Byte>): int
    requires |b| >= 1
  {
    var u: int := Unsigned(b);
    if u >= 128 * Pow256(|b| - 1) then u - Pow256(|b|) else u
  }

  /** `-2^(8n-1) <= v < 2^(8n-1)` */
  predicate InRange(v: int, n: nat)
    requires n >= 1
  {
    -128 * Pow256(n - 1) <= v < 128 * Pow256(n - 1)
  }

  /** Every number in range is the number its bytes stand for. */
  lemma RoundTrip(v: int, n: nat)
    requires n >= 1 && InRange(v, n)
    ensures Signed(Bytes(v, n)) == v
  {
    UnsignedOf(v, n);
  }

  /** And only those: a number is in range exactly when its bytes stand for it. */
  lemma InRangeExactly(v: int, n: nat)
    requires n >= 1
    ensures InRange(v, n) <==> Signed(Bytes(v, n)) == v
  {
    if InRange(v, n) {
      RoundTrip(v, n);
    } else {
      BytesOfSigned(Bytes(v, n));
    }
  }

  lemma {:induction false} UnsignedOf(v: int, n: nat)
    requires n >= 1 && InRange(v, n)
    ensures Unsigned(Bytes(v, n)) == if v < 0 then v + Pow256(n) else v
    decreases n
  {
    var b := Bytes(v, n);
    assert b[1..] == Bytes(v / 256, n - 1);
    if n == 1 {
      assert Unsigned(b[1..]) == 0;
    } else {
      UnsignedOf(v / 256, n - 1);
    }
  }

  /** And every byte string is the bytes of the number it stands for. */
  lemma {:induction false} BytesOfSigned(b: seq<Byte>)
    requires |b| >= 1
    ensures InRange(Signed(b), |b|) && Bytes(Signed(b), |b|) == b
  {
    BytesOfUnsigned(b, 0);
    BytesOfUnsigned(b, -1);
  }

  lemma {:induction false} BytesOfUnsigned(b: seq<Byte>, k: int)
    ensures Bytes(Unsigned(b) + k * Pow256(|b|), |b|) == b
  {
    if b != [] {
      var u: int, p: int := Unsigned(b[1..]), Pow256(|b| - 1);
      BytesOfUnsigned(b[1..], k);
      assert k * (256 * p) == 256 * (k * p);
      QuotientIs(Unsigned(b) + k * Pow256(|b|), 256, u + k * p, b[0]);
    }
  }

  lemma {:induction false} UnsignedMore(b: seq<Byte>, x: Byte)
    ensures Unsigned(b + [x]) == Unsigned(b) + x * Pow256(|b|)
  {
    if b == [] {
      assert [x][1..] == [];
    } else {
      assert (b + [x])[1..] == b[1..] + [x];
      UnsignedMore(b[1..], x);
      var y: int, p: int := x, Pow256(|b| - 1);
      assert y * (256 * p) == 256 * (y * p);
    }
  }

  // ---------------------------------------------------------- quotient bytes

  /** Division that truncates toward zero. */
  function Trunc(v: int, s: nat): int
    requires s > 0
  {
    if v >= 0 then v / s else -((-v) / s)
  }

  /** `v` shifted right by `n` bytes. */
  function Shifted(v: int, n: nat): int {
    if n == 0 then v else Shifted(v, n - 1) / 256
  }

  /** Byte `n` of `v`. */
  function ByteAt(v: int, n: nat): Byte {
    Shifted(v, n) % 256
  }

  lemma {:induction false} BytesAt(v: int, n: nat)
    ensures Bytes(v, n + 1) == Bytes(v, n) + [ByteAt(v, n)]
    decreases n
  {
    if n > 0 {
      BytesAt(v / 256, n - 1);
      ShiftedFirst(v, n - 1);
    }
  }

  lemma {:induction false} ShiftedFirst(v: int, n: nat)
    ensures Shifted(v / 256, n) == Shifted(v, n + 1)
  {
    if n > 0 {
      ShiftedFirst(v, n - 1);
    }
  }

  /** What the shift drops. */
  function Dropped(v: int, n: nat): int {
    v - Pow256(n) * Shifted(v, n)
  }

  lemma {:induction false} DroppedRange(v: int, n: nat)
    ensures 0 <= Dropped(v, n) < Pow256(n)
    ensures n > 0 ==> (Dropped(v, n) == 0 <==> Dropped(v, n - 1) == 0 && ByteAt(v, n - 1) == 0)
  {
    if n > 0 {
      DroppedRange(v, n - 1);
      DropStep(v, Pow256(n - 1), Shifted(v, n - 1));
      Scale(Dropped(v, n - 1), Pow256(n - 1), ByteAt(v, n - 1));
    }
  }

  lemma DropStep(v: int, p: int, s: int)
    ensures v - 256 * p * (s / 256) == v - p * s + p * (s % 256)
  {
    var q, r := s / 256, s % 256;
    assert p * s == p * (256 * q) + p * r by {
      assert s == 256 * q + r;
    }
  }

  lemma Scale(d: int, p: int, r: int)
    requires 0 <= d < p && 0 <= r < 256
    ensures 0 <= d + p * r < 256 * p
    ensures d + p * r == 0 <==> d == 0 && r == 0
  {
    assert 0 <= p * r <= p * 255;
    assert r > 0 ==> p * r >= p;
  }

  /** Truncation is one more than the shift, unless nothing is dropped or the
    * number is not negative. */
  lemma TruncIs(v: int, n: nat)
    ensures Trunc(v, Pow256(n)) == Shifted(v, n) + if v < 0 && Dropped(v, n) != 0 then 1 else 0
  {
    var p: int, s: int := Pow256(n), Shifted(v, n);
    DroppedRange(v, n);
    if v >= 0 {
      QuotientIs(v, p, s, Dropped(v, n));
    } else if Dropped(v, n) == 0 {
      QuotientIs(-v, p, -s, 0);
    } else {
      assert p * (-s - 1) == -(p * s) - p;
      QuotientIs(-v, p, -s - 1, p - Dropped(v, n));
    }
  }

  /** What the loops subtract from the quotient for byte `n`. */
  function Borrow(v: int, n: nat): (b: nat) {
    if v < 0 && Dropped(v, n) != 0 then 1 else 0
  }

  /** The byte that the loop stores: keeping 32 bits first changes nothing. */
  lemma StoredByte(v: int, n: nat)
    ensures (ToInt32(Trunc(v, Pow256(n))) - Borrow(v, n)) % 256 == ByteAt(v, n)
  {
    TruncIs(v, n);
    Wraps(Trunc(v, Pow256(n)), Borrow(v, n));
  }

  /** The loops borrow from the first byte on that is not zero. */
  lemma NextBorrow(v: int, n: nat)
    requires n > 0
    ensures Borrow(v, n) == if v < 0 && Borrow(v, n - 1) == 0 && ByteAt(v, n - 1) != 0 then 1 else Borrow(v, n - 1)
  {
    hide Dropped, ByteAt, Pow256;
    DroppedRange(v, n);
  }

  lemma Wraps(x: int, borrow: int)
    ensures (ToInt32(x) - borrow) % 256 == (x - borrow) % 256
  {
    var k := (x + 0x8000_0000) / 0x1_0000_0000;
    assert ToInt32(x) == x - 256 * (0x100_0000 * k);
  }

  // ------------------------------------------------------------------ Buffer

  datatype RangeError = ValueOutOfBounds | IndexOutOfRange

  /** `checkInt` for a signed integer. */
  function CheckInt(length: nat, value: int, offset: nat, n: nat): Option<RangeError>
    requires n >= 1
  {
    if !InRange(value, n) then Some(ValueOutOfBounds)
    else if offset + n > length then Some(IndexOutOfRange)
    else None
  }

  /** `writeIntLE` */
  method WriteIntLE(buf: array<Byte>, value: int, offset: nat, n: nat) returns (r: Result<nat, RangeError>)
    requires 1 <= n <= 6
    modifies buf
    ensures !InRange(value, n) ==> r == Err(ValueOutOfBounds) && buf[..] == old(buf[..])
    ensures InRange(value, n) && offset + n > buf.Length ==> r == Err(IndexOutOfRange) && buf[..] == old(buf[..])
    ensures InRange(value, n) && offset + n <= buf.Length ==>
      r == Ok(offset + n) && buf[..] == old(buf[..offset]) + Bytes(value, n) + old(buf[offset + n..])
  {
    hide InRange, Bytes, Borrow, ByteAt, ToInt32, Trunc, Pow256;
    var error := CheckInt(buf.Length, value, offset, n);
    if error.Some? {
      return Err(error.value);
    }
    assert offset + n <= buf.Length;
    hide CheckInt;
    ghost var was := buf[..];
    var a, s, borrow := 1, 1, 0;
    NextPower(0);
    buf[offset] := value % 256;
    FirstByte(value);
    assert buf[..] == was[..offset] + [value % 256] + was[offset + 1..];
    while a < n
      invariant 1 <= a <= n && s == Pow256(a - 1)
      invariant borrow == Borrow(value, a - 1)
      invariant buf[..] == was[..offset] + Bytes(value, a) + was[offset + a..]
    {
      s := s * 256;
      NextPower(a - 1);
      NextBorrow(value, a);
      NextLE(was, offset, value, a);
      assert buf[offset + a - 1] == buf[..][offset + a - 1];
      if value < 0 && borrow == 0 && buf[offset + a - 1] != 0 {
        borrow := 1;
      }
      StoredByte(value, a);
      buf[offset + a] := (ToInt32(Trunc(value, s)) - borrow) % 256;
      a := a + 1;
    }
    return Ok(offset + n);
  }

  lemma NextPower(n: nat)
    ensures Pow256(0) == 1 && Pow256(n + 1) == 256 * Pow256(n)
  {}

  /** The last byte written, and one more. */
  lemma NextLE(was: seq<Byte>, offset: nat, v: int, a: nat)
    requires a > 0 && offset + a < |was|
    ensures var now := was[..offset] + Bytes(v, a) + was[offset + a..];
      now[offset + a - 1] == ByteAt(v, a - 1)
      && now[offset + a := ByteAt(v, a)] == was[..offset] + Bytes(v, a + 1) + was[offset + a + 1..]
  {
    hide Bytes, ByteAt;
    BytesAt(v, a - 1);
    BytesAt(v, a);
    PutNext(was, offset, Bytes(v, a), ByteAt(v, a));
  }

  lemma FirstByte(v: int)
    ensures Bytes(v, 1) == [v % 256] && Borrow(v, 0) == 0
  {
    assert Bytes(v / 256, 0) == [];
  }

  /** `readIntLE` */
  method ReadIntLE(buf: array<Byte>, offset: nat, n: nat) returns (r: Result<int, RangeError>)
    requires 1 <= n <= 6
    ensures r == if offset + n > buf.Length then Err(IndexOutOfRange) else Ok(Signed(buf[offset..offset + n]))
  {
    hide Unsigned;
    if offset + n > buf.Length {
      return Err(IndexOutOfRange);
    }
    var value: int, mul: nat, i := buf[offset], 1, 1;
    UnsignedOne(buf[offset]);
    assert buf[offset..offset + 1] == [buf[offset]];
    while i < n
      invariant 1 <= i <= n && mul == Pow256(i - 1)
      invariant value == Unsigned(buf[offset..offset + i])
    {
      mul := mul * 256;
      UnsignedMore(buf[offset..offset + i], buf[offset + i]);
      assert buf[offset..offset + i + 1] == buf[offset..offset + i] + [buf[offset + i]];
      value := value + buf[offset + i] * mul;
      i := i + 1;
    }
    mul := mul * 128;
    if value >= mul {
      value := value - Pow256(n);
    }
    return Ok(value);
  }

  lemma UnsignedOne(x: Byte)
    ensures Unsigned([x]) == x
  {
    assert [x][1..] == [];
  }

  /** `writeIntBE` */
  method WriteIntBE(buf: array<Byte>, value: int, offset: nat, n: nat) returns (r: Result<nat, RangeError>)
    requires 1 <= n <= 6
    modifies buf
    ensures !InRange(value, n) ==> r == Err(ValueOutOfBounds) && buf[..] == old(buf[..])
    ensures InRange(value, n) && offset + n > buf.Length ==> r == Err(IndexOutOfRange) && buf[..] == old(buf[..])
    ensures InRange(value, n) && offset + n <= buf.Length ==>
      r == Ok(offset + n) && buf[..] == old(buf[..offset]) + Reverse<Byte>(Bytes(value, n)) + old(buf[offset + n..])
  {
    hide InRange, Bytes, Borrow, ByteAt, ToInt32, Trunc, Reverse, Pow256;
    var error := CheckInt(buf.Length, value, offset, n);
    if error.Some? {
      return Err(error.value);
    }
    assert offset + n <= buf.Length;
    hide CheckInt;
    ghost var was := buf[..];
    var a: int, s, borrow := n - 1, 1, 0;
    buf[offset + a] := value % 256;
    FirstByte(value);
    ReverseMore<Byte>([], value % 256);
    assert [] + [value % 256] == [value % 256];
    PutOne(was, offset + a, value % 256);
    NextPower(0);
    while a > 0
      invariant 0 <= a < n && s == Pow256(n - 1 - a)
      invariant borrow == Borrow(value, n - 1 - a)
      invariant buf[..] == was[..offset + a] + Reverse<Byte>(Bytes(value, n - a)) + was[offset + n..]
    {
      a := a - 1;
      s := s * 256;
      var k := n - 1 - a;
      NextPower(k - 1);
      NextBorrow(value, k);
      NextBE(was, offset + a + 1, value, k);
      assert buf[offset + a + 1] == buf[..][offset + a + 1];
      if value < 0 && borrow == 0 && buf[offset + a + 1] != 0 {
        borrow := 1;
      }
      StoredByte(value, k);
      buf[offset + a] := (ToInt32(Trunc(value, s)) - borrow) % 256;
    }
    return Ok(offset + n);
  }

  /** The last byte written, and one more in front. */
  lemma NextBE(was: seq<Byte>, at: nat, v: int, k: nat)
    requires k > 0 && 0 < at && at + k <= |was|
    ensures var now := was[..at] + Reverse<Byte>(Bytes(v, k)) + was[at + k..];
      now[at] == ByteAt(v, k - 1)
      && now[at - 1 := ByteAt(v, k)] == was[..at - 1] + Reverse<Byte>(Bytes(v, k + 1)) + was[at + k..]
  {
    hide Bytes, ByteAt, Reverse;
    BytesAt(v, k - 1);
    ReverseMore<Byte>(Bytes(v, k - 1), ByteAt(v, k - 1));
    BytesAt(v, k);
    ReverseMore<Byte>(Bytes(v, k), ByteAt(v, k));
    PutPrevious(was, at, Reverse<Byte>(Bytes(v, k)), ByteAt(v, k));
  }

  lemma {:induction false} ReverseTwice(b: seq<Byte>)
    ensures Reverse<Byte>(Reverse<Byte>(b)) == b
  {
    if b != [] {
      ReverseMore<Byte>(Reverse<Byte>(b[1..]), b[0]);
      ReverseTwice(b[1..]);
    }
  }

  /** `readIntBE` */
  method ReadIntBE(buf: array<Byte>, offset: nat, n: nat) returns (r: Result<int, RangeError>)
    requires 1 <= n <= 6
    ensures r == if offset + n > buf.Length then Err(IndexOutOfRange)
                 else Ok(Signed(Reverse<Byte>(buf[offset..offset + n])))
  {
    hide Unsigned, Reverse;
    if offset + n > buf.Length {
      return Err(IndexOutOfRange);
    }
    var i := n - 1;
    var value: int, mul: nat := buf[offset + i], 1;
    UnsignedOne(buf[offset + i]);
    ReverseFirst(buf[offset + i], []);
    assert [] + [buf[offset + i]] == [buf[offset + i]];
    assert buf[offset + i..offset + n] == [buf[offset + i]] == [buf[offset + i]] + [];
    while i > 0
      invariant 0 <= i < n && mul == Pow256(n - 1 - i)
      invariant value == Unsigned(Reverse<Byte>(buf[offset + i..offset + n]))
    {
      mul := mul * 256;
      i := i - 1;
      ghost var tail := buf[offset + i + 1..offset + n];
      assert buf[offset + i..offset + n] == [buf[offset + i]] + tail;
      ReverseFirst(buf[offset + i], tail);
      UnsignedMore(Reverse<Byte>(tail), buf[offset + i]);
      value := value + buf[offset + i] * mul;
    }
    mul := mul * 128;
    if value >= mul {
      value := value - Pow256(n);
    }
    return Ok(value);
  }

  lemma ReverseFirst(x: Byte, b: seq<Byte>)
    ensures Reverse<Byte>([x] + b) == Reverse<Byte>(b) + [x]
    ensures Reverse<Byte>([]) == []
  {
    assert ([x] + b)[1..] == b;
  }

  /** What is written in range is read back, in either byte order. */
  method WriteThenRead(buf: array<Byte>, value: int, offset: nat, n: nat, big: bool) returns (back: int)
    requires 1 <= n <= 6 && InRange(value, n) && offset + n <= buf.Length
    modifies buf
    ensures back == value
    ensures buf[offset..offset + n] == if big then Reverse<Byte>(Bytes(value, n)) else Bytes(value, n)
  {
    hide InRange, Bytes, Signed, Reverse;
    RoundTrip(value, n);
    if big {
      var w := WriteIntBE(buf, value, offset, n);
      assert buf[offset..offset + n] == Reverse<Byte>(Bytes(value, n));
      ReverseTwice(Bytes(value, n));
      var r := ReadIntBE(buf, offset, n);
      back := r.value;
    } else {
      var w := WriteIntLE(buf, value, offset, n);
      assert buf[offset..offset + n] == Bytes(value, n);
      var r := ReadIntLE(buf, offset, n);
      back := r.value;
    }
  }
}
