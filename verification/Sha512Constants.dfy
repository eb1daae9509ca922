/** The constants of SHA-512: the tables of 32-bit halves that the code spells
  * out are the roots of section 4.2.3 and section 5.3.5 of FIPS 180-4. */
module Sha512Constants {

  /** Halves `16 * r` to `16 * r + 15` of the table of round constants, the
    * higher half of each constant first. */
  function Row(r: nat): (k: seq<bv32>)
    ensures |k| == 16
  {
    if r == 0 then [
      0x428a2f98, 0xd728ae22, 0x71374491, 0x23ef65cd, 0xb5c0fbcf, 0xec4d3b2f, 0xe9b5dba5, 0x8189dbbc,
      0x3956c25b, 0xf348b538, 0x59f111f1, 0xb605d019, 0x923f82a4, 0xaf194f9b, 0xab1c5ed5, 0xda6d8118
    ] else
    if r == 1 then [
      0xd807aa98, 0xa3030242, 0x12835b01, 0x45706fbe, 0x243185be, 0x4ee4b28c, 0x550c7dc3, 0xd5ffb4e2,
      0x72be5d74, 0xf27b896f, 0x80deb1fe, 0x3b1696b1, 0x9bdc06a7, 0x25c71235, 0xc19bf174, 0xcf692694
    ] else
    if r == 2 then [
      0xe49b69c1, 0x9ef14ad2, 0xefbe4786, 0x384f25e3, 0x0fc19dc6, 0x8b8cd5b5, 0x240ca1cc, 0x77ac9c65,
      0x2de92c6f, 0x592b0275, 0x4a7484aa, 0x6ea6e483, 0x5cb0a9dc, 0xbd41fbd4, 0x76f988da, 0x831153b5
    ] else
    if r == 3 then [
      0x983e5152, 0xee66dfab, 0xa831c66d, 0x2db43210, 0xb00327c8, 0x98fb213f, 0xbf597fc7, 0xbeef0ee4,
      0xc6e00bf3, 0x3da88fc2, 0xd5a79147, 0x930aa725, 0x06ca6351, 0xe003826f, 0x14292967, 0x0a0e6e70
    ] else
    if r == 4 then [
      0x27b70a85, 0x46d22ffc, 0x2e1b2138, 0x5c26c926, 0x4d2c6dfc, 0x5ac42aed, 0x53380d13, 0x9d95b3df,
      0x650a7354, 0x8baf63de, 0x766a0abb, 0x3c77b2a8, 0x81c2c92e, 0x47edaee6, 0x92722c85, 0x1482353b
    ] else
    if r == 5 then [
      0xa2bfe8a1, 0x4cf10364, 0xa81a664b, 0xbc423001, 0xc24b8b70, 0xd0f89791, 0xc76c51a3, 0x0654be30,
      0xd192e819, 0xd6ef5218, 0xd6990624, 0x5565a910, 0xf40e3585, 0x5771202a, 0x106aa070, 0x32bbd1b8
    ] else
    if r == 6 then [
      0x19a4c116, 0xb8d2d0c8, 0x1e376c08, 0x5141ab53, 0x2748774c, 0xdf8eeb99, 0x34b0bcb5, 0xe19b48a8,
      0x391c0cb3, 0xc5c95a63, 0x4ed8aa4a, 0xe3418acb, 0x5b9cca4f, 0x7763e373, 0x682e6ff3, 0xd6b2b8a3
    ] else
    if r == 7 then [
      0x748f82ee, 0x5defb2fc, 0x78a5636f, 0x43172f60, 0x84c87814, 0xa1f0ab72, 0x8cc70208, 0x1a6439ec,
      0x90befffa, 0x23631e28, 0xa4506ceb, 0xde82bde9, 0xbef9a3f7, 0xb2c67915, 0xc67178f2, 0xe372532b
    ] else
    if r == 8 then [
      0xca273ece, 0xea26619c, 0xd186b8c7, 0x21c0c207, 0xeada7dd6, 0xcde0eb1e, 0xf57d4f7f, 0xee6ed178,
      0x06f067aa, 0x72176fba, 0x0a637dc5, 0xa2c898a6, 0x113f9804, 0xbef90dae, 0x1b710b35, 0x131c471b
    ] else
    [
      0x28db77f5, 0x23047d84, 0x32caab7b, 0x40c72493, 0x3c9ebe0a, 0x15c9bebc, 0x431d67c4, 0x9c100d4c,
      0x4cc5d4be, 0xcb3e42b6, 0x597f299c, 0xfc657e2a, 0x5fcb6fab, 0x3ad6faec, 0x6c44198c, 0x4a475817
    ]
  }

  /** Entry `i` of the table. */
  function K(i: nat): bv32 {
    Row(i / 16)[i % 16]
  }

  /** The halves of the initial hash value, `_ah`, `_al`, `_bh`, `_bl` and on. */
  function Initial(): (h: seq<bv32>)
    ensures |h| == 16
  {
    [
      0x6a09e667, 0xf3bcc908, 0xbb67ae85, 0x84caa73b, 0x3c6ef372, 0xfe94f82b, 0xa54ff53a, 0x5f1d36f1,
      0x510e527f, 0xade682d1, 0x9b05688c, 0x2b3e6c1f, 0x1f83d9ab, 0xfb41bd6b, 0x5be0cd19, 0x137e2179
    ]
  }

  // ------------------------------------------------------ where they come from

  /** The word with halves `h` and `l`. */
  function Value(h: bv32, l: bv32): nat {
    0x1_0000_0000 * (h as nat) + l as nat
  }

  /** The whole part of the cube root, for `p` below 512. */
  function CubeFloor(p: nat): nat {
    if p < 64 then if p < 8 then 1 else if p < 27 then 2 else 3
    else if p < 125 then 4 else if p < 216 then 5 else if p < 343 then 6 else 7
  }

  function Cube(x: nat): nat {
    x * x * x
  }

  /** `h` and `l` hold the first 64 bits of the fraction of the cube root of `p`. */
  predicate CubeRoot(p: nat, h: bv32, l: bv32) {
    var unit := 0x1_0000_0000_0000_0000;
    var x := unit * CubeFloor(p) + Value(h, l);
    Cube(x) <= p * Cube(unit) < Cube(x + 1)
  }

  function SquareFloor(p: nat): nat {
    if p < 4 then 1 else if p < 9 then 2 else if p < 16 then 3 else 4
  }

  /** The same for the square root, for `p` below 25. */
  predicate SquareRoot(p: nat, h: bv32, l: bv32) {
    var unit := 0x1_0000_0000_0000_0000;
    var x := unit * SquareFloor(p) + Value(h, l);
    x * x <= p * unit * unit < (x + 1) * (x + 1)
  }

  /** The initial words come from the first eight primes. */
  lemma InitialRoots()
    ensures var h := Initial(); SquareRoot(2, h[0], h[1])
    ensures var h := Initial(); SquareRoot(3, h[2], h[3])
    ensures var h := Initial(); SquareRoot(5, h[4], h[5])
    ensures var h := Initial(); SquareRoot(7, h[6], h[7])
    ensures var h := Initial(); SquareRoot(11, h[8], h[9])
    ensures var h := Initial(); SquareRoot(13, h[10], h[11])
    ensures var h := Initial(); SquareRoot(17, h[12], h[13])
    ensures var h := Initial(); SquareRoot(19, h[14], h[15])
  {
  }

  /** Four constants of a row from entry `at` on. */
  predicate CubeRoots(p0: nat, p1: nat, p2: nat, p3: nat, k: seq<bv32>, at: nat)
    requires at + 8 <= |k|
  {
    && CubeRoot(p0, k[at], k[at + 1])
    && CubeRoot(p1, k[at + 2], k[at + 3])
    && CubeRoot(p2, k[at + 4], k[at + 5])
    && CubeRoot(p3, k[at + 6], k[at + 7])
  }

  lemma Roots0()
    ensures CubeRoots(2, 3, 5, 7, Row(0), 0)
  {}

  lemma Roots4()
    ensures CubeRoots(11, 13, 17, 19, Row(0), 8)
  {}

  lemma Roots8()
    ensures CubeRoots(23, 29, 31, 37, Row(1), 0)
  {}

  lemma Roots12()
    ensures CubeRoots(41, 43, 47, 53, Row(1), 8)
  {}

  lemma Roots16()
    ensures CubeRoots(59, 61, 67, 71, Row(2), 0)
  {}

  lemma Roots20()
    ensures CubeRoots(73, 79, 83, 89, Row(2), 8)
  {}

  lemma Roots24()
    ensures CubeRoots(97, 101, 103, 107, Row(3), 0)
  {}

  lemma Roots28()
    ensures CubeRoots(109, 113, 127, 131, Row(3), 8)
  {}

  lemma Roots32()
    ensures CubeRoots(137, 139, 149, 151, Row(4), 0)
  {}

  lemma Roots36()
    ensures CubeRoots(157, 163, 167, 173, Row(4), 8)
  {}

  lemma Roots40()
    ensures CubeRoots(179, 181, 191, 193, Row(5), 0)
  {}

  lemma Roots44()
    ensures CubeRoots(197, 199, 211, 223, Row(5), 8)
  {}

  lemma Roots48()
    ensures CubeRoots(227, 229, 233, 239, Row(6), 0)
  {}

  lemma Roots52()
    ensures CubeRoots(241, 251, 257, 263, Row(6), 8)
  {}

  lemma Roots56()
    ensures CubeRoots(269, 271, 277, 281, Row(7), 0)
  {}

  lemma Roots60()
    ensures CubeRoots(283, 293, 307, 311, Row(7), 8)
  {}

  lemma Roots64()
    ensures CubeRoots(313, 317, 331, 337, Row(8), 0)
  {}

  lemma Roots68()
    ensures CubeRoots(347, 349, 353, 359, Row(8), 8)
  {}

  lemma Roots72()
    ensures CubeRoots(367, 373, 379, 383, Row(9), 0)
  {}

  lemma Roots76()
    ensures CubeRoots(389, 397, 401, 409, Row(9), 8)
  {
  }

  /** The first eighty primes, eight in a row. */
  function PrimeRow(r: nat): (p: seq<nat>)
    ensures |p| == 8
  {
    if r == 0 then [2, 3, 5, 7, 11, 13, 17, 19] else
    if r == 1 then [23, 29, 31, 37, 41, 43, 47, 53] else
    if r == 2 then [59, 61, 67, 71, 73, 79, 83, 89] else
    if r == 3 then [97, 101, 103, 107, 109, 113, 127, 131] else
    if r == 4 then [137, 139, 149, 151, 157, 163, 167, 173] else
    if r == 5 then [179, 181, 191, 193, 197, 199, 211, 223] else
    if r == 6 then [227, 229, 233, 239, 241, 251, 257, 263] else
    if r == 7 then [269, 271, 277, 281, 283, 293, 307, 311] else
    if r == 8 then [313, 317, 331, 337, 347, 349, 353, 359] else
    [367, 373, 379, 383, 389, 397, 401, 409]
  }

  /** Constant `t` comes from prime number `t`. */
  lemma RoundConstants(t: nat)
    requires t < 80
    ensures CubeRoot(PrimeRow(t / 8)[t % 8], K(2 * t), K(2 * t + 1))
  {
    hide CubeRoot, Row, PrimeRow;
    RowConstants(t / 8, t % 8);
    assert 2 * t / 16 == t / 8 && 2 * t % 16 == 2 * (t % 8);
    assert (2 * t + 1) / 16 == t / 8 && (2 * t + 1) % 16 == 2 * (t % 8) + 1;
  }

  lemma RowConstants(r: nat, j: nat)
    requires r < 10 && j < 8
    ensures CubeRoot(PrimeRow(r)[j], Row(r)[2 * j], Row(r)[2 * j + 1])
  {
    hide CubeRoot, Row;
    match r
    case 0 => Roots0(); Roots4(); OneOf(PrimeRow(0), Row(0), j);
    case 1 => Roots8(); Roots12(); OneOf(PrimeRow(1), Row(1), j);
    case 2 => Roots16(); Roots20(); OneOf(PrimeRow(2), Row(2), j);
    case 3 => Roots24(); Roots28(); OneOf(PrimeRow(3), Row(3), j);
    case 4 => Roots32(); Roots36(); OneOf(PrimeRow(4), Row(4), j);
    case 5 => Roots40(); Roots44(); OneOf(PrimeRow(5), Row(5), j);
    case 6 => Roots48(); Roots52(); OneOf(PrimeRow(6), Row(6), j);
    case 7 => Roots56(); Roots60(); OneOf(PrimeRow(7), Row(7), j);
    case 8 => Roots64(); Roots68(); OneOf(PrimeRow(8), Row(8), j);
    case _ => Roots72(); Roots76(); OneOf(PrimeRow(9), Row(9), j);
  }

  lemma OneOf(ps: seq<nat>, k: seq<bv32>, j: nat)
    requires |ps| == 8 && |k| == 16 && j < 8
    requires CubeRoots(ps[0], ps[1], ps[2], ps[3], k, 0) && CubeRoots(ps[4], ps[5], ps[6], ps[7], k, 8)
    ensures CubeRoot(ps[j], k[2 * j], k[2 * j + 1])
  {
    hide CubeRoot;
  }
}
