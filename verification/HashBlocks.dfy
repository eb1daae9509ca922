/** `Hash`: a message of any chunks, cut into blocks and padded as in sections
  * 5.1.1 and 5.1.2 of FIPS 180-4. */
module HashBlocks {
  import opened Basics
  import opened Utf8
  import Sha = Sha512

  // ---------------------------------------------------------------- standard

  /** Block sizes in bytes. */
  type Size = n: nat | n == 64 || n == 128 witness 64

  /** Bytes past the last whole block. */
  function Past(n: nat, size: Size): (r: nat)
    ensures r < size && r <= n
  {
    n % size
  }

  function Zeros(n: nat): (z: seq<Byte>)
    ensures |z| == n
  {
    seq(n, _ => 0)
  }

  /** The last `n` bytes of `x`, most significant first. */
  function BigEndian(x: nat, n: nat): (b: seq<Byte>)
    ensures |b| == n
  {
    if n == 0 then [] else BigEndian(x / 256, n - 1) + [x % 256]
  }

  /** Zeros between the bit 1 and the length: as few as make whole blocks. */
  function ZeroCount(len: nat, size: Size): (z: nat)
    ensures z < size && Past(len + 1 + z, size) == size - size / 8
  {
    var t := Past(len, size);
    Fits(len, t, size);
    if t + 1 <= size - size / 8 then size - size / 8 - t - 1 else 2 * size - size / 8 - t - 1
  }

  lemma ZeroCountIs(len: nat, t: nat, size: Size)
    requires t == Past(len, size)
    ensures ZeroCount(len, size) == if t < size - size / 8 then size - size / 8 - t - 1 else 2 * size - size / 8 - t - 1
  {
  }

  lemma Fits(len: nat, t: nat, size: Size)
    requires t == Past(len, size)
    ensures Past(len + 1 + (size - size / 8 - t - 1), size) == size - size / 8
    ensures Past(len + 1 + (2 * size - size / 8 - t - 1), size) == size - size / 8
  {
    Multiples(len / size, size - size / 8, size);
    Multiples(len / size + 1, size - size / 8, size);
  }

  lemma Multiples(q: nat, r: nat, size: Size)
    requires r < size
    ensures Past(q * size + r, size) == r
  {
    if size == 64 {
      assert (64 * q + r) % 64 == r;
    } else {
      assert (128 * q + r) % 128 == r;
    }
  }

  /** The padded message: 64-byte blocks end in a 64-bit length, 128-byte blocks
    * in a 128-bit one. */
  function Padded(m: seq<Byte>, size: Size): (p: seq<Byte>)
    ensures Past(|p|, size) == 0
  {
    WholeBlocks(|m|, size);
    m + [0x80] + Zeros(ZeroCount(|m|, size)) + BigEndian(8 * |m|, size / 8)
  }

  lemma WholeBlocks(len: nat, size: Size)
    ensures Past(len + 1 + ZeroCount(len, size) + size / 8, size) == 0
  {
  }

  function Blocks(b: seq<Byte>, size: Size): (r: seq<seq<Byte>>)
    requires Past(|b|, size) == 0
    ensures forall i :: 0 <= i < |r| ==> |r[i]| == size
    decreases |b|
  {
    if b == [] then []
    else
      AtLeastOne(|b|, size);
      [b[..size]] + Blocks(b[size..], size)
  }

  lemma AtLeastOne(n: nat, size: Size)
    requires Past(n, size) == 0 && n > 0
    ensures n >= size && Past(n - size, size) == 0
  {
    if n < size {
      SmallMod(n, size);
    }
    ModAdd(n - size, size);
  }

  lemma SmallMod(n: nat, size: Size)
    requires n < size
    ensures Past(n, size) == n
  {
  }

  lemma WholePart(n: nat, size: Size)
    ensures Past(n - Past(n, size), size) == 0
  {
    if size == 64 {
      assert (n - n % 64) % 64 == 0;
    } else {
      assert (n - n % 128) % 128 == 0;
    }
  }

  lemma ModAdd(n: nat, size: Size)
    ensures Past(n + size, size) == Past(n, size)
  {
  }

  lemma {:induction false} BlocksConcat(a: seq<Byte>, b: seq<Byte>, size: Size)
    requires Past(|a|, size) == 0 && |b| == size
    ensures Past(|a + b|, size) == 0 && Blocks(a + b, size) == Blocks(a, size) + [b]
    decreases |a|
  {
    ModAdd(|a|, size);
    if a == [] {
      assert a + b == b && b[..size] == b && b[size..] == [];
    } else {
      AtLeastOne(|a|, size);
      assert (a + b)[..size] == a[..size] && (a + b)[size..] == a[size..] + b;
      BlocksConcat(a[size..], b, size);
    }
  }

  // -------------------------------------------------------------------- Hash

  class Hash {
    const blockSize: Size
    const finalSize: nat
    const block: array<Byte>
    var len: nat
    /** The state of the subclass `Sha512`; without it `_update` is only logged. */
    const sha: Sha.Sha512?
    /** The blocks handed to `_update`. */
    ghost var fed: seq<seq<Byte>>

    /** What `_update` may change. */
    ghost function State(): set<object> {
      if sha == null then {} else {sha, sha.w}
    }

    ghost predicate Apart() {
      this !in State() && block !in State()
    }

    /** The subclass has compressed all blocks it was handed, in order. */
    ghost predicate Compressed()
      reads this`fed, if sha == null then {} else {sha}
    {
      sha != null ==>
        && blockSize == 128 && sha.w.Length == 160
        && (forall k :: 0 <= k < |fed| ==> |fed[k]| == 128)
        && sha.Value() == Sha.CompressAll(Sha.InitialValue(), fed)
    }

    /** What has been fed and what is buffered is the message so far. */
    ghost predicate Holds(m: seq<Byte>)
      reads this, block, State()
    {
      && finalSize == blockSize - blockSize / 8 && block.Length == blockSize
      && len == |m|
      && Buffered(m, block[..], fed, blockSize)
      && Apart() && Compressed()
    }

    constructor (blockSize: Size, finalSize: nat, sha: Sha.Sha512?)
      requires finalSize == blockSize - blockSize / 8
      requires sha != null ==> blockSize == 128 && sha.w.Length == 160 && sha.Value() == Sha.InitialValue()
      ensures this.blockSize == blockSize && this.sha == sha && fresh(block) && Holds([])
    {
      this.blockSize, this.finalSize, this.sha := blockSize, finalSize, sha;
      block := new Byte[blockSize](_ => 0);
      len, fed := 0, [];
      new;
      hide *;
      HoldsNothing();
    }

    lemma HoldsNothing()
      requires finalSize == blockSize - blockSize / 8 && block.Length == blockSize
      requires len == 0 && fed == [] && Apart()
      requires sha != null ==> blockSize == 128 && sha.w.Length == 160 && sha.Value() == Sha.InitialValue()
      ensures Holds([])
    {
      hide Buffered, Sha.InitialValue, Sha.Sha512.Value;
      BufferedNone(block[..], blockSize);
    }

    /** The call of `_update`. */
    method Feed()
      requires Apart() && Compressed() && block.Length == blockSize
      modifies this`fed, State()
      ensures Compressed() && fed == old(fed) + [block[..]]
    {
      hide Sha.InitialValue, Sha.CompressAll, Sha.Compress;
      ghost var whole := block[..];
      if sha != null {
        Sha.CompressMore(Sha.InitialValue(), fed, whole);
        sha.Update(block[..]);
      }
      fed := fed + [whole];
    }

    /** `update` */
    method Update(e: seq<Byte>, ghost m: seq<Byte>)
      requires Holds(m)
      modifies this, block, State()
      ensures Holds(m + e)
    {
      hide Blocks, Buffered, Past, Compressed;
      var n, o, i := blockSize, len, 0;
      assert m + e[..0] == m;
      while i < |e|
        invariant i <= |e| && o == |m| + i
        invariant Buffered(m + e[..i], block[..], fed, n) && Compressed()
        invariant len == old(len)
      {
        var l := Past(o, n);
        var c := if |e| - i < n - l then |e| - i else n - l;
        Progress(m, e, i, c);
        Take(e[i..i + c], l, m + e[..i]);
        i, o := i + c, o + c;
        if Past(o, n) == 0 {
          Feed();
        }
      }
      assert e[..|e|] == e;
      len := len + |e|;
    }

    /** Bytes up to the end of the block, at most. */
    method Take(x: seq<Byte>, l: nat, ghost m: seq<Byte>)
      requires block.Length == blockSize && Buffered(m, block[..], fed, blockSize)
      requires l == Past(|m|, blockSize) && |x| > 0 && l + |x| <= blockSize
      modifies block
      ensures Buffered(m + x, block[..], if Past(|m + x|, blockSize) == 0 then fed + [block[..]] else fed, blockSize)
    {
      hide *;
      ghost var before := block[..];
      CopyIn(x, l);
      assert block[..][..l + |x|] == before[..l] + x;
      Fill(m, before, fed, blockSize, x, block[..]);
    }

    /** `block[at + u] = x[u]` for every `u`. */
    method CopyIn(x: seq<Byte>, at: nat)
      requires at + |x| <= block.Length
      modifies block
      ensures block[..] == old(block[..at]) + x + old(block[at + |x|..])
    {
      hide *;
      ghost var was := block[..];
      Untouched(was, at);
      assert x[..0] == [];
      for u := 0 to |x|
        invariant block[..] == was[..at] + x[..u] + was[at + u..]
      {
        CopyNext(was, at, x, u);
        block[at + u] := x[u];
      }
      assert x[..|x|] == x;
    }

    /** `block.fill(0, from)` */
    method Clear(from: nat)
      requires from <= block.Length
      modifies block
      ensures block[..] == old(block[..from]) + Zeros(block.Length - from)
    {
      hide *;
      ghost var was := block[..];
      Untouched(was, from);
      ZerosMore(0);
      for i := from to block.Length
        invariant block[..] == was[..from] + Zeros(i - from) + was[i..]
      {
        PutNext(was, from, Zeros(i - from), 0);
        ZerosMore(i - from);
        block[i] := 0;
      }
    }

    /** `digest`, up to the subclass's `_hash`; messages under 2^53 bits. */
    method Digest(ghost m: seq<Byte>)
      requires Holds(m) && 8 * |m| < 0x20_0000_0000_0000
      modifies this, block, State()
      ensures Compressed() && fed == Blocks(Padded(m, blockSize), blockSize)
    {
      hide Blocks, Padded, BigEndian, Buffered, Zeros, Past, Compressed;
      ghost var start := m[|m| - Past(|m|, blockSize)..];
      ghost var front := PadEnd(m);
      WriteLength(8 * len, front);
      Feed();
      PaddedBlocks(m, start, blockSize);
    }

    /** The bit 1 and the zeros after it, in the last block or the last but one. */
    method PadEnd(ghost m: seq<Byte>) returns (ghost front: seq<Byte>)
      requires Holds(m)
      modifies this`fed, block, State()
      ensures block.Length == blockSize && Apart() && Compressed() && |front| == blockSize - blockSize / 8
      ensures block[..] == front + Zeros(blockSize / 8)
      ensures Past(|m| - Past(|m|, blockSize), blockSize) == 0
      ensures var t := Past(|m|, blockSize);
        var start, whole := m[|m| - t..], Blocks(m[..|m| - t], blockSize);
        if t >= finalSize then
          fed == whole + [start + [0x80] + Zeros(blockSize - t - 1)] && front == Zeros(finalSize)
        else
          fed == whole && front == start + [0x80] + Zeros(finalSize - t - 1)
    {
      hide Blocks, Padded, BigEndian, Buffered, Zeros, Past, Compressed;
      var n: int, t := blockSize, Past(len, blockSize);
      ghost var start := block[..t];
      BufferedStart(m, block[..], fed, blockSize);
      block[t] := 0x80;
      Clear(t + 1);
      assert block[..] == start + [0x80] + Zeros(n - t - 1);
      if t >= finalSize {
        Feed();
        Clear(0);
        front := Zeros(finalSize);
        ZerosTwice(finalSize, n / 8);
        assert block[..] == Zeros(n);
      } else {
        front := start + [0x80] + Zeros(finalSize - t - 1);
        ZerosTwice(finalSize - t - 1, n / 8);
        Assoc(start + [0x80], Zeros(finalSize - t - 1), Zeros(n / 8));
      }
    }

    /** The length in bits, over zeros at the end of the block. */
    method WriteLength(bits: nat, ghost front: seq<Byte>)
      requires block.Length == blockSize && bits < 0x20_0000_0000_0000
      requires |front| == blockSize - blockSize / 8 && block[..] == front + Zeros(blockSize / 8)
      modifies block
      ensures block[..] == front + BigEndian(bits, blockSize / 8)
    {
      hide BigEndian;
      var n: int := blockSize;
      if bits <= 0xFFFF_FFFF {
        CopyIn(BigEndian(bits, 4), n - 4);
        ZerosLength(bits, n / 8 - 4);
      } else {
        var low := bits % 0x1_0000_0000;
        var high := (bits - low) / 0x1_0000_0000;
        CopyIn(BigEndian(high, 4), n - 8);
        CopyIn(BigEndian(low, 4), n - 4);
        LongLength(bits, n / 8 - 8);
      }
    }
  }

  lemma Untouched(was: seq<Byte>, at: nat)
    requires at <= |was|
    ensures was == was[..at] + [] + was[at..]
  {}

  /** One more byte of `x` copied to `was` from `at` on. */
  lemma CopyNext(was: seq<Byte>, at: nat, x: seq<Byte>, u: nat)
    requires u < |x| && at + |x| <= |was|
    ensures (was[..at] + x[..u] + was[at + u..])[at + u := x[u]] == was[..at] + x[..u + 1] + was[at + u + 1..]
  {
    PutNext(was, at, x[..u], x[u]);
    assert x[..u + 1] == x[..u] + [x[u]];
  }

  lemma ZerosMore(n: nat)
    ensures Zeros(0) == [] && Zeros(n + 1) == Zeros(n) + [0]
  {}

  lemma Progress(m: seq<Byte>, e: seq<Byte>, i: nat, c: nat)
    requires i + c <= |e|
    ensures m + e[..i + c] == (m + e[..i]) + e[i..i + c]
  {
    assert e[..i + c] == e[..i] + e[i..i + c];
    Assoc(m, e[..i], e[i..i + c]);
  }

  lemma BufferedStart(m: seq<Byte>, block: seq<Byte>, fed: seq<seq<Byte>>, size: Size)
    requires Buffered(m, block, fed, size)
    ensures Past(|m|, size) < |block| && block[..Past(|m|, size)] == m[|m| - Past(|m|, size)..]
    ensures Past(|m| - Past(|m|, size), size) == 0 && fed == Blocks(m[..|m| - Past(|m|, size)], size)
  {
  }

  lemma ZerosTwice(a: int, b: nat)
    ensures a >= 0 ==> Zeros(a) + Zeros(b) == Zeros(a + b)
  {
  }

  lemma {:induction false} ZerosBigEndian(n: nat)
    ensures BigEndian(0, n) == Zeros(n)
  {
    if n > 0 {
      ZerosBigEndian(n - 1);
    }
  }

  /** `k` zeros in front of four bytes. */
  lemma ZerosLength(x: nat, k: nat)
    requires x < 0x1_0000_0000
    ensures BigEndian(x, k + 4) == Zeros(k) + BigEndian(x, 4)
  {
    BigEndianSplit(x, k);
    ZerosBigEndian(k);
  }

  lemma LongLength(x: nat, k: nat)
    requires x < 0x1_0000_0000_0000_0000
    ensures var low := x % 0x1_0000_0000;
      BigEndian(x, k + 8) == Zeros(k) + BigEndian((x - low) / 0x1_0000_0000, 4) + BigEndian(low, 4)
  {
    hide BigEndian, Zeros;
    BigEndianSplit(x, k + 4);
    ZerosLength(x / 0x1_0000_0000, k);
    WithoutLow(x);
  }

  lemma WithoutLow(x: nat)
    ensures (x - x % 0x1_0000_0000) / 0x1_0000_0000 == x / 0x1_0000_0000
  {
  }

  lemma BigEndianSplit(x: nat, k: nat)
    ensures BigEndian(x, k + 4) == BigEndian(x / 0x1_0000_0000, k) + BigEndian(x % 0x1_0000_0000, 4)
  {
    hide BigEndian;
    var q, y := x / 0x1_0000_0000, x % 0x1_0000_0000;
    var a, b, c, d := y % 256, y / 256 % 256, y / 65536 % 256, y / 16777216;
    FourDigits(y);
    FourBytes(q, d, c, b, a, k);
    FourBytes(0, d, c, b, a, 0);
    NoBytes();
  }

  lemma NoBytes()
    ensures BigEndian(0, 0) == []
  {
  }

  lemma FourDigits(y: nat)
    requires y < 0x1_0000_0000
    ensures y == 16777216 * (y / 16777216) + 65536 * (y / 65536 % 256) + 256 * (y / 256 % 256) + y % 256
    ensures y / 16777216 < 256
  {
    assert y / 256 / 256 == y / 65536 && y / 65536 / 256 == y / 16777216;
  }

  lemma FourBytes(q: nat, d: Byte, c: Byte, b: Byte, a: Byte, k: nat)
    ensures BigEndian(0x1_0000_0000 * q + 16777216 * d + 65536 * c + 256 * b + a, k + 4)
         == BigEndian(q, k) + [d, c, b, a]
  {
    hide BigEndian;
    var x1: nat := 256 * q + d;
    var x2: nat := 256 * x1 + c;
    var x3: nat := 256 * x2 + b;
    LastByte(q, d, k);
    LastByte(x1, c, k + 1);
    LastByte(x2, b, k + 2);
    LastByte(x3, a, k + 3);
  }

  lemma LastByte(q: nat, a: Byte, k: nat)
    ensures BigEndian(256 * q + a, k + 1) == BigEndian(q, k) + [a]
  {
    var x: int := a;
    assert (256 * q + x) / 256 == q && (256 * q + x) % 256 == x;
  }

  /** The whole blocks of `m` are fed; the rest of `m` starts the buffer. */
  ghost predicate Buffered(m: seq<Byte>, block: seq<Byte>, fed: seq<seq<Byte>>, size: Size) {
    && |block| == size
    && Past(|m| - Past(|m|, size), size) == 0
    && fed == Blocks(m[..|m| - Past(|m|, size)], size)
    && block[..Past(|m|, size)] == m[|m| - Past(|m|, size)..]
  }

  lemma BufferedNone(block: seq<Byte>, size: Size)
    requires |block| == size
    ensures Buffered([], block, [], size)
  {
  }

  /** Bytes that do not cross the end of the block. */
  lemma Fill(m: seq<Byte>, block: seq<Byte>, fed: seq<seq<Byte>>, size: Size, x: seq<Byte>, now: seq<Byte>)
    requires Buffered(m, block, fed, size) && |x| > 0 && Past(|m|, size) + |x| <= size
    requires |now| == size && now[..Past(|m|, size) + |x|] == block[..Past(|m|, size)] + x
    ensures Buffered(m + x, now, if Past(|m + x|, size) == 0 then fed + [now] else fed, size)
  {
    var l := Past(|m|, size);
    var w := |m| - l;
    if l + |x| == size {
      ModAdd(w, size);
      assert (m + x)[..w + size] == m[..w] + now by {
        assert m + x == m[..w] + (m[w..] + x);
        assert now == now[..size];
      }
      BlocksConcat(m[..w], now, size);
    } else {
      AddBelow(w, l + |x|, size);
      assert (m + x)[..w] == m[..w] && (m + x)[w..] == m[w..] + x;
    }
  }

  lemma AddBelow(w: nat, r: nat, size: Size)
    requires Past(w, size) == 0 && r < size
    ensures Past(w + r, size) == r
  {
  }

  lemma PaddedIs(m: seq<Byte>, size: Size)
    ensures Padded(m, size) == m + [0x80] + Zeros(ZeroCount(|m|, size)) + BigEndian(8 * |m|, size / 8)
  {}

  /** The last one or two blocks complete the padded message. */
  lemma PaddedBlocks(m: seq<Byte>, start: seq<Byte>, size: Size)
    requires start == m[|m| - Past(|m|, size)..]
    ensures Past(|m| - Past(|m|, size), size) == 0
    ensures var t, f := Past(|m|, size), size - size / 8;
      var whole, len := Blocks(m[..|m| - t], size), BigEndian(8 * |m|, size / 8);
      Blocks(Padded(m, size), size)
      == if t < f then whole + [start + [0x80] + Zeros(f - t - 1) + len]
         else whole + [start + [0x80] + Zeros(size - t - 1)] + [Zeros(f) + len]
  {
    hide *;
    WholePart(|m|, size);
    if Past(|m|, size) < size - size / 8 {
      OneBlock(m, start, size);
    } else {
      TwoBlocks(m, start, size);
    }
  }

  lemma OneBlock(m: seq<Byte>, start: seq<Byte>, size: Size)
    requires Past(|m|, size) < size - size / 8
    requires start == m[|m| - Past(|m|, size)..] && Past(|m| - Past(|m|, size), size) == 0
    ensures var t, f := Past(|m|, size), size - size / 8;
      Blocks(Padded(m, size), size)
      == Blocks(m[..|m| - t], size) + [start + [0x80] + Zeros(f - t - 1) + BigEndian(8 * |m|, size / 8)]
  {
    hide Blocks, BigEndian, Zeros, ZeroCount, Past, Padded;
    PaddedIs(m, size);
    var t, f := Past(|m|, size), size - size / 8;
    ZeroCountIs(|m|, t, size);
    assert m == m[..|m| - t] + start;
    OneLast(m[..|m| - t], start, Zeros(f - t - 1), BigEndian(8 * |m|, size / 8), size);
  }

  lemma TwoBlocks(m: seq<Byte>, start: seq<Byte>, size: Size)
    requires Past(|m|, size) >= size - size / 8
    requires start == m[|m| - Past(|m|, size)..] && Past(|m| - Past(|m|, size), size) == 0
    ensures var t, f := Past(|m|, size), size - size / 8;
      Blocks(Padded(m, size), size)
      == Blocks(m[..|m| - t], size)
         + [start + [0x80] + Zeros(size - t - 1)] + [Zeros(f) + BigEndian(8 * |m|, size / 8)]
  {
    hide Blocks, BigEndian, Zeros, ZeroCount, Past, Padded;
    PaddedIs(m, size);
    var t, f := Past(|m|, size), size - size / 8;
    ZeroCountIs(|m|, t, size);
    assert m == m[..|m| - t] + start;
    ZerosTwice(size - t - 1, f);
    TwoLast(m[..|m| - t], start, Zeros(size - t - 1), Zeros(f), BigEndian(8 * |m|, size / 8), size);
  }

  lemma OneLast(w: seq<Byte>, start: seq<Byte>, z: seq<Byte>, len: seq<Byte>, size: Size)
    requires Past(|w|, size) == 0 && |start + [0x80] + z + len| == size
    ensures Past(|w + start + [0x80] + z + len|, size) == 0
    ensures Blocks(w + start + [0x80] + z + len, size) == Blocks(w, size) + [start + [0x80] + z + len]
  {
    hide Blocks;
    var last := start + [0x80] + z + len;
    assert w + start + [0x80] + z + len == w + last;
    BlocksConcat(w, last, size);
  }

  lemma TwoLast(w: seq<Byte>, start: seq<Byte>, y: seq<Byte>, z: seq<Byte>, len: seq<Byte>, size: Size)
    requires Past(|w|, size) == 0 && |start + [0x80] + y| == |z + len| == size
    ensures Past(|w + start + [0x80] + (y + z) + len|, size) == 0
    ensures Blocks(w + start + [0x80] + (y + z) + len, size)
         == Blocks(w, size) + [start + [0x80] + y] + [z + len]
  {
    hide Blocks;
    var a, b := start + [0x80] + y, z + len;
    assert w + start + [0x80] + (y + z) + len == w + a + b;
    BlocksConcat(w, a, size);
    BlocksConcat(w + a, b, size);
  }

  // ------------------------------------------------------- what padding means

  /** The number that bytes spell, most significant first. */
  function Number(b: seq<Byte>): nat {
    if b == [] then 0 else 256 * Number(b[..|b| - 1]) + b[|b| - 1]
  }

  lemma {:induction false} NumberBack(x: nat, n: nat)
    requires x < Power(n)
    ensures Number(BigEndian(x, n)) == x
    decreases n
  {
    if n > 0 {
      assert BigEndian(x, n)[..n - 1] == BigEndian(x / 256, n - 1);
      NumberBack(x / 256, n - 1);
    }
  }

  /** `256^n` */
  function Power(n: nat): nat {
    if n == 0 then 1 else 256 * Power(n - 1)
  }

  /** From the padded message alone: the message, the byte 0x80, zeros, and at the end of
    * the last block the number of bits; no shorter text of whole blocks has them all. */
  lemma PaddedParts(m: seq<Byte>, size: Size)
    requires 8 * |m| < 0x1_0000_0000_0000_0000
    ensures var p, n := Padded(m, size), |Padded(m, size)|;
      && |m| + 1 + size / 8 <= n && Past(n, size) == 0
      && p[..|m|] == m && p[|m|] == 0x80
      && (forall i :: |m| < i < n - size / 8 ==> p[i] == 0)
      && Number(p[n - size / 8..]) == 8 * |m|
      && n - size < |m| + 1 + size / 8
  {
    hide BigEndian, Past, ZeroCount;
    var z, len := ZeroCount(|m|, size), BigEndian(8 * |m|, size / 8);
    PaddedIs(m, size);
    var p := Padded(m, size);
    assert p == m + [0x80] + Zeros(z) + len;
    assert p[|p| - size / 8..] == len;
    EightBytesHold(size / 8);
    NumberBack(8 * |m|, size / 8);
    ZerosFit(|m|, size);
  }

  lemma {:induction false} EightBytesHold(n: nat)
    requires n >= 8
    ensures Power(n) >= 0x1_0000_0000_0000_0000
  {
    if n == 8 {
      assert Power(4) == 256 * Power(3) == 0x1_0000 * Power(2) == 0x1_0000 * 0x1_0000;
      assert Power(8) == 256 * Power(7) == 0x1_0000 * Power(6) == 0x100_0000 * Power(5);
    } else {
      EightBytesHold(n - 1);
    }
  }

  lemma ZerosFit(n: nat, size: Size)
    ensures ZeroCount(n, size) < size
  {
  }
}
