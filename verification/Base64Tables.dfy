/** Base64 text bit by bit: the tables of sections 4 and 5 of RFC 4648, and what
  * `base64ToBytes` makes of text that no encoder wrote. */
module Base64Tables {
  import opened Basics
  import opened Wrappers
  import opened Utf8
  import opened Base64

  const UPPER: string := "ABCDEFGHIJKLMNOPQRSTUVWXYZ"
  const LOWER: string := "abcdefghijklmnopqrstuvwxyz"
  const DIGITS: string := "0123456789"

  /** Table 1 of RFC 4648. */
  const TABLE1: string := UPPER + LOWER + DIGITS + "+/"

  /** Table 2, the alphabet that is safe in URLs. */
  const TABLE2: string := UPPER + LOWER + DIGITS + "-_"

  /** Bit `j` of a byte string, most significant first; zero past the end. */
  function Bit(b: seq<Byte>, j: nat): (d: nat)
    ensures d < 2
  {
    if j / 8 < |b| then b[j / 8] / Pow2(7 - j % 8) % 2 else 0
  }

  /** Group `i` of six bits. */
  function SixBits(b: seq<Byte>, i: nat): (v: Six) {
    32 * Bit(b, 6 * i) + 16 * Bit(b, 6 * i + 1) + 8 * Bit(b, 6 * i + 2)
    + 4 * Bit(b, 6 * i + 3) + 2 * Bit(b, 6 * i + 4) + Bit(b, 6 * i + 5)
  }

  /** Halving a quotient. */
  lemma Halved(y: nat, k: nat)
    requires k > 0
    ensures y / k / 2 == y / (2 * k) && y / k == 2 * (y / (2 * k)) + y / k % 2
  {
    var q, r := y / k / 2, y / k % 2;
    assert k * (y / k) == k * (2 * q + r) == (2 * k) * q + k * r;
    assert k * r <= k;
    QuotientIs(y, 2 * k, q, k * r + y % k);
  }

  /** The bits of one byte. */
  lemma ByteBits(x: Byte)
    ensures var y: int := x;
      && y / 1 == y && y / 128 == y / 128 % 2
      && y / 1 == 2 * (y / 2) + y / 1 % 2 && y / 2 == 2 * (y / 4) + y / 2 % 2 && y / 4 == 2 * (y / 8) + y / 4 % 2
      && y / 8 == 2 * (y / 16) + y / 8 % 2 && y / 16 == 2 * (y / 32) + y / 16 % 2
      && y / 32 == 2 * (y / 64) + y / 32 % 2 && y / 64 == 2 * (y / 128) + y / 64 % 2
  {
    Halved(x, 1);
    Halved(x, 2);
    Halved(x, 4);
    Halved(x, 8);
    Halved(x, 16);
    Halved(x, 32);
    Halved(x, 64);
  }

  lemma SymTable(x: Six)
    ensures Sym(x) == TABLE1[x] && UrlChar(Sym(x)) == TABLE2[x]
  {
    if x < 26 {
      Upper(x);
    } else if x < 52 {
      Lower(x - 26);
    } else if x < 62 {
      Digits(x - 52);
    }
  }

  lemma Upper(x: nat)
    requires x < 26
    ensures UPPER[x] == ('A' as int + x) as char
  {
    match x
    case 0 => case 1 => case 2 => case 3 => case 4 => case 5 => case 6 => case 7 =>
    case 8 => case 9 => case 10 => case 11 => case 12 => case 13 => case 14 => case 15 =>
    case 16 => case 17 => case 18 => case 19 => case 20 => case 21 => case 22 => case 23 =>
    case 24 => case _ =>
  }

  lemma Lower(x: nat)
    requires x < 26
    ensures LOWER[x] == ('a' as int + x) as char
  {
    match x
    case 0 => case 1 => case 2 => case 3 => case 4 => case 5 => case 6 => case 7 =>
    case 8 => case 9 => case 10 => case 11 => case 12 => case 13 => case 14 => case 15 =>
    case 16 => case 17 => case 18 => case 19 => case 20 => case 21 => case 22 => case 23 =>
    case 24 => case _ =>
  }

  lemma Digits(x: nat)
    requires x < 10
    ensures DIGITS[x] == ('0' as int + x) as char
  {
    match x
    case 0 => case 1 => case 2 => case 3 => case 4 => case 5 => case 6 => case 7 =>
    case 8 => case _ =>
  }

  // ------------------------------------------------------------------ encoding

  /** Three bytes hold four groups of six bits. */
  lemma SixOfBytes(b: seq<Byte>, i: nat)
    ensures SixBits(b, 4 * i) == At(b, 3 * i) / 4
    ensures SixBits(b, 4 * i + 1) == At(b, 3 * i) % 4 * 16 + At(b, 3 * i + 1) / 16
    ensures SixBits(b, 4 * i + 2) == At(b, 3 * i + 1) % 16 * 4 + At(b, 3 * i + 2) / 64
    ensures SixBits(b, 4 * i + 3) == At(b, 3 * i + 2) % 64
  {
    Six0(b, i);
    Six1(b, i);
    Six2(b, i);
    Six3(b, i);
  }

  lemma Six0(b: seq<Byte>, i: nat)
    ensures SixBits(b, 4 * i) == At(b, 3 * i) / 4
  {
    hide Bit, At;
    BitsOf(b, 3 * i);
    ByteParts(At(b, 3 * i));
    assert 6 * (4 * i) == 8 * (3 * i);
  }

  lemma Six1(b: seq<Byte>, i: nat)
    ensures SixBits(b, 4 * i + 1) == At(b, 3 * i) % 4 * 16 + At(b, 3 * i + 1) / 16
  {
    var x: int, y: int := At(b, 3 * i), At(b, 3 * i + 1);
    hide Bit, At;
    BitsOf(b, 3 * i);
    BitsOf(b, 3 * i + 1);
    SixIs(b, 4 * i + 1, 8 * (3 * i) + 6, x / 2 % 2, x % 2, y / 128, y / 64 % 2, y / 32 % 2, y / 16 % 2);
    ByteParts(At(b, 3 * i));
    ByteParts(At(b, 3 * i + 1));
  }

  /** A group by its six bits, the first of which is bit `j`. */
  lemma SixIs(b: seq<Byte>, g: nat, j: nat, p: int, q: int, r: int, s: int, t: int, u: int)
    requires j == 6 * g && Bit(b, j) == p && Bit(b, j + 1) == q && Bit(b, j + 2) == r
    requires Bit(b, j + 3) == s && Bit(b, j + 4) == t && Bit(b, j + 5) == u
    ensures SixBits(b, g) == 32 * p + 16 * q + 8 * r + 4 * s + 2 * t + u
  {
    hide Bit;
  }

  lemma Six2(b: seq<Byte>, i: nat)
    ensures SixBits(b, 4 * i + 2) == At(b, 3 * i + 1) % 16 * 4 + At(b, 3 * i + 2) / 64
  {
    var x: int, y: int := At(b, 3 * i + 1), At(b, 3 * i + 2);
    hide Bit, At;
    BitsOf(b, 3 * i + 1);
    BitsOf(b, 3 * i + 2);
    SixIs(b, 4 * i + 2, 8 * (3 * i + 1) + 4, x / 8 % 2, x / 4 % 2, x / 2 % 2, x % 2, y / 128, y / 64 % 2);
    ByteParts(At(b, 3 * i + 1));
    ByteParts(At(b, 3 * i + 2));
  }

  lemma Six3(b: seq<Byte>, i: nat)
    ensures SixBits(b, 4 * i + 3) == At(b, 3 * i + 2) % 64
  {
    hide Bit, At;
    BitsOf(b, 3 * i + 2);
    ByteParts(At(b, 3 * i + 2));
    assert 6 * (4 * i + 3) == 8 * (3 * i + 2) + 2;
  }

  /** Byte `i`, or 0 past the end. */
  function At(b: seq<Byte>, i: nat): Byte {
    if i < |b| then b[i] else 0
  }

  lemma BitsOf(b: seq<Byte>, i: nat)
    ensures var x: int := At(b, i);
      && Bit(b, 8 * i) == x / 128 && Bit(b, 8 * i + 1) == x / 64 % 2
      && Bit(b, 8 * i + 2) == x / 32 % 2 && Bit(b, 8 * i + 3) == x / 16 % 2
      && Bit(b, 8 * i + 4) == x / 8 % 2 && Bit(b, 8 * i + 5) == x / 4 % 2
      && Bit(b, 8 * i + 6) == x / 2 % 2 && Bit(b, 8 * i + 7) == x % 2
  {
    SmallPowers();
    hide Pow2, Bit;
    BitOf(b, i, 0);
    BitOf(b, i, 1);
    BitOf(b, i, 2);
    BitOf(b, i, 3);
    BitOf(b, i, 4);
    BitOf(b, i, 5);
    BitOf(b, i, 6);
    BitOf(b, i, 7);
    ByteBits(At(b, i));
  }

  lemma BitOf(b: seq<Byte>, i: nat, k: nat)
    requires k < 8
    ensures Bit(b, 8 * i + k) == At(b, i) / Pow2(7 - k) % 2
  {
    hide Pow2;
    QuotientIs(8 * i + k, 8, i, k);
  }

  lemma SmallPowers()
    ensures Pow2(0) == 1 && Pow2(1) == 2 && Pow2(2) == 4 && Pow2(3) == 8
    ensures Pow2(4) == 16 && Pow2(5) == 32 && Pow2(6) == 64 && Pow2(7) == 128
  {
    assert Pow2(4) == 2 * Pow2(3) == 4 * Pow2(2) == 8 * Pow2(1);
    assert Pow2(7) == 2 * Pow2(6) == 4 * Pow2(5) == 8 * Pow2(4);
  }

  /** Parts of a byte by its bits. */
  lemma ByteParts(y: Byte)
    ensures var x: int := y;
      var h, g, f, e := x / 128, x / 64 % 2, x / 32 % 2, x / 16 % 2;
      var d, c, b, a := x / 8 % 2, x / 4 % 2, x / 2 % 2, x % 2;
      && x / 4 == 32 * h + 16 * g + 8 * f + 4 * e + 2 * d + c && x % 4 == 2 * b + a
      && x / 16 == 8 * h + 4 * g + 2 * f + e && x % 16 == 8 * d + 4 * c + 2 * b + a
      && x / 64 == 2 * h + g && x % 64 == 32 * f + 16 * e + 8 * d + 4 * c + 2 * b + a
  {
    ByteBits(y);
  }

  lemma {:induction false} GroupsIndex(b: seq<Byte>, g: nat)
    requires |b| % 3 == 0 && 3 * g < |b|
    ensures 3 * g + 3 <= |b| && Groups(b)[4 * g..4 * g + 4] == Quad(b[3 * g], b[3 * g + 1], b[3 * g + 2])
    decreases g
  {
    hide Quad;
    GroupsUnfold(b);
    if g > 0 {
      GroupsIndex(b[3..], g - 1);
      assert Groups(b)[4 * g..4 * g + 4] == Groups(b[3..])[4 * (g - 1)..4 * (g - 1) + 4];
      var c, n := b[3..], 3 * (g - 1);
      assert c[n] == b[3 * g] && c[n + 1] == b[3 * g + 1] && c[n + 2] == b[3 * g + 2];
    }
  }

  /** Symbol `i` stands for group `i` of six bits. */
  lemma SymbolAt(b: seq<Byte>, i: nat)
    requires i < |Symbols(b)|
    ensures Symbols(b)[i] == Sym(SixBits(b, i))
  {
    hide Groups, SixBits, Sym, Quad;
    var w := Whole(b);
    var g, r := i / 4, i % 4;
    SixOfBytes(b, g);
    if i < |Groups(b[..w])| {
      GroupsIndex(b[..w], g);
      assert Groups(b[..w])[4 * g..4 * g + 4][r] == Groups(b[..w])[i];
      QuadIs(b[3 * g], b[3 * g + 1], b[3 * g + 2]);
    } else {
      assert w == 3 * g;
      RestIs(b[w..]);
    }
  }

  lemma QuadIs(x: Byte, y: Byte, z: Byte)
    ensures var a: int, b: int, c: int := x, y, z;
      Quad(x, y, z) == [Sym(a / 4), Sym(a % 4 * 16 + b / 16), Sym(b % 16 * 4 + c / 64), Sym(c % 64)]
  {
    hide Sym;
  }

  lemma RestIs(b: seq<Byte>)
    requires |b| < 3
    ensures forall r :: 0 <= r < |Rest(b)| ==>
      Rest(b)[r] == Sym(if r == 0 then At(b, 0) / 4
                        else if r == 1 then At(b, 0) % 4 * 16 + At(b, 1) / 16
                        else At(b, 1) % 16 * 4 + At(b, 2) / 64)
  {
    hide Sym;
  }

  /** As many symbols as groups of six bits, the last one filled up with zeros. */
  lemma SymbolCount(b: seq<Byte>)
    ensures |Symbols(b)| == (8 * |b| + 5) / 6
    ensures |FromBytes(b)| == |Symbols(b)| + (3 - |b| % 3) % 3 && |FromBytes(b)| % 4 == 0
  {
    hide Groups, Rest, Symbols;
    SymbolsSize(b);
    Counts(|b|);
  }

  lemma Counts(n: nat)
    ensures (n - n % 3) / 3 * 4 + (if n % 3 == 0 then 0 else n % 3 + 1) == (8 * n + 5) / 6
    ensures ((8 * n + 5) / 6 + (3 - n % 3) % 3) % 4 == 0
  {
    var k, r := n / 3, n % 3;
    QuotientIs(n - r, 3, k, 0);
    if r == 0 {
      QuotientIs(8 * n + 5, 6, 4 * k, 5);
    } else if r == 1 {
      QuotientIs(8 * n + 5, 6, 4 * k + 2, 1);
    } else {
      QuotientIs(8 * n + 5, 6, 4 * k + 3, 3);
    }
  }

  /** The text of any bytes is that of section 4 of RFC 4648. */
  lemma TableText(b: seq<Byte>)
    ensures |FromBytes(b)| % 4 == 0 && (8 * |b| + 5) / 6 <= |FromBytes(b)|
    ensures forall i :: 0 <= i < |FromBytes(b)| ==>
      FromBytes(b)[i] == if i < (8 * |b| + 5) / 6 then TABLE1[SixBits(b, i)] else '='
  {
    hide Symbols, SixBits, Sym, UrlChar;
    SymbolCount(b);
    forall i | 0 <= i < |Symbols(b)| ensures FromBytes(b)[i] == TABLE1[SixBits(b, i)] {
      SymbolAt(b, i);
      SymTable(SixBits(b, i));
    }
  }

  /** And the URL-safe text that of section 5, without padding. */
  lemma TableUrl(b: seq<Byte>)
    ensures |UrlEncoded(FromBytes(b))| == (8 * |b| + 5) / 6
    ensures forall i :: 0 <= i < |UrlEncoded(FromBytes(b))| ==>
      UrlEncoded(FromBytes(b))[i] == TABLE2[SixBits(b, i)]
  {
    hide UrlEncoded, SixBits, Sym, UrlChar;
    TableText(b);
    SymbolCount(b);
    var s, n := FromBytes(b), |Symbols(b)|;
    forall i | 0 <= i < n ensures s[i] != '=' && UrlChar(s[i]) == TABLE2[SixBits(b, i)] {
      SymbolAt(b, i);
      SymTable(SixBits(b, i));
    }
    UrlEncodedOf(s, n);
  }

  predicate UrlSafe(c: char) {
    'A' <= c <= 'Z' || 'a' <= c <= 'z' || '0' <= c <= '9' || c == '-' || c == '_'
  }

  lemma UrlTextIsSafe(b: seq<Byte>)
    ensures forall i :: 0 <= i < |UrlEncoded(FromBytes(b))| ==> UrlSafe(UrlEncoded(FromBytes(b))[i])
  {
    hide UrlEncoded, FromBytes, SixBits;
    TableUrl(b);
    forall x: Six ensures UrlSafe(TABLE2[x]) {
      SymTable(x);
    }
  }

  // ------------------------------------------------------------------ decoding

  /** The characters of both tables are the ones that `base64clean` keeps. */
  lemma AllowedTable(c: char)
    ensures Allowed(c) <==> exists x: Six :: TABLE1[x] == c || TABLE2[x] == c
  {
    hide Sym, UrlChar;
    if Allowed(c) {
      var x := Rev(c);
      SymTable(x);
      RevBack(c);
    }
    forall x: Six ensures Allowed(TABLE1[x]) && Allowed(TABLE2[x]) {
      SymTable(x);
      TableAllowed(x);
    }
  }

  lemma RevBack(c: char)
    requires Allowed(c)
    ensures c == Sym(Rev(c)) || c == UrlChar(Sym(Rev(c)))
  {
  }

  lemma TableAllowed(x: Six)
    ensures Allowed(Sym(x)) && Allowed(UrlChar(Sym(x))) && Rev(Sym(x)) == Rev(UrlChar(Sym(x))) == x
  {
  }

  /** Both tables are read back. */
  lemma RevTable(x: Six)
    ensures Rev(TABLE1[x]) == Rev(TABLE2[x]) == x
  {
    hide Rev, Sym, UrlChar;
    SymTable(x);
    TableAllowed(x);
  }

  /** The characters that count: those of the tables before the first `=`. */
  function Kept(s: seq<char>): seq<char> {
    Clean(s[..FirstPad(s)])
  }

  /** A character that is in no table changes nothing, and nothing after `=` counts. */
  lemma Noise(s: seq<char>, c: char, t: seq<char>)
    requires !Allowed(c)
    ensures c != '=' ==> Kept(s + [c] + t) == Kept(s + t)
    ensures c == '=' ==> Kept(s + [c] + t) == Kept(s)
    ensures Base64ToBytes(s + [c] + t) == Base64ToBytes(if c == '=' then s else s + t)
  {
    hide *;
    var u := [c] + t;
    assert s + [c] + t == s + u;
    FirstPadConcat(s, u);
    FirstPadConcat(s, t);
    Front(c, t);
    if FirstPad(s) == |s| && c != '=' {
      var m := FirstPad(t);
      KeptConcat(s, u, 1 + m);
      KeptConcat(s, t, m);
      assert u[..1 + m] == [c] + t[..m];
      Front(c, t[..m]);
    } else if FirstPad(s) == |s| {
      KeptConcat(s, u, 0);
      assert u[..0] == [];
    } else {
      KeptFront(s, u);
      KeptFront(s, t);
    }
    OnlyKept(s + u);
    OnlyKept(s + t);
    OnlyKept(s);
  }

  /** `base64ToBytes` looks at nothing else. */
  lemma OnlyKept(s: seq<char>)
    ensures Base64ToBytes(s) == ToBytes(if |Kept(s)| < 2 then [] else PadTo4(Kept(s)))
  {
    hide ToBytes, PadTo4, Clean, FirstPad;
  }

  lemma Front(c: char, t: seq<char>)
    ensures FirstPad([c] + t) == if c == '=' then 0 else 1 + FirstPad(t)
    ensures Clean([c] + t) == if Allowed(c) then [c] + Clean(t) else Clean(t)
    ensures Clean([]) == []
  {
    assert ([c] + t)[1..] == t;
  }

  lemma KeptConcat(s: seq<char>, t: seq<char>, m: nat)
    requires FirstPad(s) == |s| && FirstPad(s + t) == |s| + m && m <= |t|
    ensures Kept(s + t) == Kept(s) + Clean(t[..m])
    ensures m == 0 ==> Kept(s + t) == Kept(s)
  {
    hide Clean, FirstPad;
    assert (s + t)[..|s| + m] == s + t[..m] && s[..|s|] == s;
    assert m == 0 ==> s + t[..m] == s;
    CleanConcat(s, t[..m]);
  }

  lemma KeptFront(s: seq<char>, t: seq<char>)
    requires FirstPad(s) == FirstPad(s + t)
    ensures Kept(s + t) == Kept(s)
  {
    hide Clean, FirstPad;
    assert (s + t)[..FirstPad(s)] == s[..FirstPad(s)];
  }

  lemma {:induction false} FirstPadConcat(s: seq<char>, t: seq<char>)
    ensures FirstPad(s + t) == if FirstPad(s) < |s| then FirstPad(s) else |s| + FirstPad(t)
  {
    if s == [] {
      assert s + t == t;
    } else {
      assert (s + t)[1..] == s[1..] + t;
      FirstPadConcat(s[1..], t);
    }
  }

  lemma {:induction false} CleanConcat(s: seq<char>, t: seq<char>)
    ensures Clean(s + t) == Clean(s) + Clean(t)
  {
    if s == [] {
      assert s + t == t;
    } else {
      assert (s + t)[1..] == s[1..] + t;
      CleanConcat(s[1..], t);
    }
  }

  /** Bit `j` of a text of symbols, six a symbol. */
  function SymbolBit(c: seq<char>, j: nat): nat
    requires j / 6 < |c|
  {
    Rev(c[j / 6]) / Pow2(5 - j % 6) % 2
  }

  /** The bytes that whole groups and a remainder of two or three symbols hold. */
  function Held(c: seq<char>): (b: seq<Byte>)
    ensures |b| == 6 * |c| / 8
  {
    var g := |c| / 4 * 4;
    Counted(|c|);
    Ungroup(c[..g]) + if |c| % 4 >= 2 then Unrest(c[g..]) else []
  }

  lemma Counted(n: nat)
    ensures n / 4 * 4 % 4 == 0 && n / 4 * 4 <= n && n - n / 4 * 4 == n % 4 && n / 4 * 4 / 4 * 3 == n / 4 * 3
    ensures 6 * n / 8 == n / 4 * 3 + if n % 4 >= 2 then n % 4 - 1 else 0
  {
    var k, r := n / 4, n % 4;
    QuotientIs(6 * n, 8, 3 * k + if r >= 2 then r - 1 else 0,
               if r == 0 then 0 else if r == 1 then 6 else 4 - 2 * (r - 2));
  }

  /** Padded up to four, text without padding gives these bytes. */
  lemma PaddedHolds(c: seq<char>)
    requires |c| >= 2 && FirstPad(c) == |c|
    ensures ToBytes(PadTo4(c)) == Ok(Held(c))
  {
    hide Ungroup, Unrest, FirstPad, Fill, PadTo4, ToBytes;
    var s, n := PadTo4(c), |c|;
    PadSizes(n);
    PadEnds(c);
    Counted(n);
    var g := n / 4 * 4;
    assert s[..g] == c[..g] && s[g..n] == c[g..];
    ToBytesAt(s, n, g);
    FilledExactly(Held(c));
    assert Ungroup(c[..g]) + [] == Ungroup(c[..g]);
  }

  /** `toByteArray` with its numbers worked out. */
  lemma ToBytesAt(s: seq<char>, n: nat, g: nat)
    requires |s| % 4 == 0 && FirstPad(s) == n && |s| == n + (4 - n % 4) % 4 && n >= 2
    requires g == n / 4 * 4 && g % 4 == 0
    ensures ToBytes(s) ==
      Ok(Fill(Ungroup(s[..g]) + if n % 4 >= 2 then Unrest(s[g..n]) else [], 6 * n / 8))
  {
    hide Ungroup, Unrest, FirstPad, Fill;
    PadSizes(n);
    if n % 4 == 0 {
      ToBytesWhole(s, g);
    } else {
      ToBytesPart(s, n, g);
    }
  }

  lemma ToBytesWhole(s: seq<char>, n: nat)
    requires |s| == n && n % 4 == 0 && FirstPad(s) == n && 3 * (n + 0) / 4 - 0 == 6 * n / 8
    ensures ToBytes(s) == Ok(Fill(Ungroup(s[..n]) + [], 6 * n / 8))
  {
    hide Ungroup, Unrest, FirstPad, Fill;
  }

  lemma ToBytesPart(s: seq<char>, n: nat, g: nat)
    requires |s| == n + (4 - n % 4) && |s| % 4 == 0 && n % 4 > 0 && FirstPad(s) == n
    requires g % 4 == 0 && g == if n < 4 then 0 else (n - 1) / 4 * 4
    requires 3 * (n + (4 - n % 4)) / 4 - (4 - n % 4) == 6 * n / 8 && g <= n && (n % 4 >= 2 ==> 2 <= n - g <= 3)
    ensures ToBytes(s) == Ok(Fill(Ungroup(s[..g]) + if n % 4 >= 2 then Unrest(s[g..n]) else [], 6 * n / 8))
  {
    hide Ungroup, Unrest, FirstPad, Fill;
  }

  lemma FilledExactly(b: seq<Byte>)
    ensures Fill(b, |b|) == b
  {
    assert b[..|b|] == b;
  }

  lemma PadEnds(c: seq<char>)
    requires FirstPad(c) == |c|
    ensures FirstPad(PadTo4(c)) == |c| <= |PadTo4(c)| && PadTo4(c)[..|c|] == c
    ensures |PadTo4(c)| == |c| + (4 - |c| % 4) % 4
  {
    PadsFirst();
    hide FirstPad;
    FirstPadConcat(c, "===");
    FirstPadConcat(c, "==");
    FirstPadConcat(c, "=");
  }

  lemma PadsFirst()
    ensures FirstPad("===") == FirstPad("==") == FirstPad("=") == 0
  {
  }

  /** The numbers in `toByteArray` for `n` symbols. */
  lemma PadSizes(n: nat)
    requires n >= 2
    ensures (n + (4 - n % 4) % 4) % 4 == 0
    ensures n % 4 == 0 ==> 3 * (n + 0) / 4 - 0 == 6 * n / 8
    ensures n % 4 != 0 ==> 3 * (n + (4 - n % 4)) / 4 - (4 - n % 4) == 6 * n / 8
    ensures n % 4 != 0 && n >= 4 ==> (n - 1) / 4 * 4 == n / 4 * 4
    ensures n < 4 ==> n / 4 * 4 == 0
  {
    var k, r := n / 4, n % 4;
    Counted(n);
    if r != 0 {
      QuotientIs(3 * (n + (4 - r)), 4, 3 * (k + 1), 0);
      QuotientIs(n - 1, 4, k, r - 1);
    } else {
      QuotientIs(3 * n, 4, 3 * k, 0);
    }
  }

  /** For any text, the result has all whole bytes of the bits of its symbols. */
  lemma AnyText(s: seq<char>)
    ensures var c := Kept(s);
      && Base64ToBytes(s).Ok?
      && var b := Base64ToBytes(s).value;
      && |b| == 6 * |c| / 8
      && forall j :: 0 <= j < 8 * |b| ==> j / 6 < |c| && Bit(b, j) == SymbolBit(c, j)
  {
    hide Kept, Base64ToBytes, ToBytes, PadTo4, Held, Bit, SymbolBit;
    var c := Kept(s);
    OnlyKept(s);
    if |c| < 2 {
      NoBytes();
    } else {
      KeptNoPad(s);
      PaddedHolds(c);
      forall j | 0 <= j < 8 * |Held(c)| ensures j / 6 < |c| && Bit(Held(c), j) == SymbolBit(c, j) {
        HeldBit(c, j);
      }
    }
  }

  lemma NoBytes()
    ensures ToBytes([]) == Ok([])
  {
  }

  lemma KeptNoPad(s: seq<char>)
    ensures FirstPad(Kept(s)) == |Kept(s)|
  {
    hide Clean, FirstPad;
    CleanNoPad(s[..FirstPad(s)]);
  }

  lemma {:induction false} CleanNoPad(s: seq<char>)
    ensures FirstPad(Clean(s)) == |Clean(s)|
  {
    if s != [] {
      CleanNoPad(s[1..]);
      if Allowed(s[0]) {
        Front(s[0], Clean(s[1..]));
      }
    }
  }

  /** The symbol that holds bit `j`, and the bit. */
  lemma HeldBit(c: seq<char>, j: nat)
    requires j < 8 * |Held(c)|
    ensures j / 6 < |c| && Bit(Held(c), j) == SymbolBit(c, j)
  {
    hide Bit, SixBits, Held, Rev;
    var b, i := Held(c), j / 6;
    HeldIndex(|c|, j);
    BitOfSix(b, j);
    SixOfHeld(c, i);
    MaskedBits(Rev(c[i]), j % 6);
    hide Pow2;
  }

  lemma HeldIndex(n: nat, j: nat)
    requires j < 8 * (6 * n / 8)
    ensures j / 6 < n
    ensures n % 4 == 2 && j / 6 == n - 1 ==> j % 6 < 2
    ensures n % 4 == 3 && j / 6 == n - 1 ==> j % 6 < 4
    ensures n % 4 == 1 ==> j / 6 < n - 1
  {
    var k, r := n / 4, n % 4;
    Counted(n);
    assert 8 * (6 * n / 8) == 24 * k + 8 * if r >= 2 then r - 1 else 0;
    assert j == 6 * (j / 6) + j % 6;
  }

  lemma BitOfSix(b: seq<Byte>, j: nat)
    ensures Bit(b, j) == SixBits(b, j / 6) / Pow2(5 - j % 6) % 2
  {
    hide Bit, SixBits;
    assert j == 6 * (j / 6) + j % 6;
    BitOfGroup(b, j / 6, j % 6);
  }

  lemma BitOfGroup(b: seq<Byte>, i: nat, k: nat)
    requires k < 6
    ensures Bit(b, 6 * i + k) == SixBits(b, i) / Pow2(5 - k) % 2
  {
    hide Bit;
    SmallPowers();
    hide Pow2;
    SixParts(Bit(b, 6 * i), Bit(b, 6 * i + 1), Bit(b, 6 * i + 2),
             Bit(b, 6 * i + 3), Bit(b, 6 * i + 4), Bit(b, 6 * i + 5));
    match k
    case 0 => case 1 => case 2 => case 3 => case 4 => case _ =>
  }

  lemma SixParts(f: nat, e: nat, d: nat, c: nat, b: nat, a: nat)
    requires f < 2 && e < 2 && d < 2 && c < 2 && b < 2 && a < 2
    ensures var v := 32 * f + 16 * e + 8 * d + 4 * c + 2 * b + a;
      && v / 32 % 2 == f && v / 16 % 2 == e && v / 8 % 2 == d && v / 4 % 2 == c && v / 2 % 2 == b && v / 1 % 2 == a
  {
    var v := 32 * f + 16 * e + 8 * d + 4 * c + 2 * b + a;
    QuotientIs(v, 32, f, 16 * e + 8 * d + 4 * c + 2 * b + a);
    QuotientIs(v, 16, 2 * f + e, 8 * d + 4 * c + 2 * b + a);
    QuotientIs(v, 8, 4 * f + 2 * e + d, 4 * c + 2 * b + a);
    QuotientIs(v, 4, 8 * f + 4 * e + 2 * d + c, 2 * b + a);
    QuotientIs(v, 2, 16 * f + 8 * e + 4 * d + 2 * c + b, a);
  }

  /** The high bits that the mask leaves. */
  lemma MaskedBits(y: Six, k: nat)
    requires k < 6
    ensures k < 2 ==> y / 16 * 16 / Pow2(5 - k) % 2 == y / Pow2(5 - k) % 2
    ensures k < 4 ==> y / 4 * 4 / Pow2(5 - k) % 2 == y / Pow2(5 - k) % 2
  {
    SmallPowers();
    hide Pow2;
    MaskedDiv(y, 16);
    MaskedDiv(y, 4);
  }

  lemma MaskedDiv(y: Six, m: nat)
    requires m == 16 || m == 4
    ensures y / m * m / 32 == y / 32 && y / m * m / 16 == y / 16
    ensures m == 4 ==> y / m * m / 8 == y / 8 && y / m * m / 4 == y / 4
  {
  }

  /** Groups of six bits of the result are the symbols; the last one loses the bits that
    * make no byte. */
  lemma SixOfHeld(c: seq<char>, i: nat)
    requires i < |c| && (|c| % 4 == 1 ==> i < |c| - 1)
    ensures var v: int := Rev(c[i]);
      SixBits(Held(c), i) ==
      if i < |c| - 1 || |c| % 4 == 0 then v else if |c| % 4 == 2 then v / 16 * 16 else v / 4 * 4
  {
    hide SixBits, Rev, Held;
    var g := i / 4;
    assert i == 4 * g + i % 4;
    if 4 * g + 4 <= |c| {
      SixOfGroup(c, g, i % 4);
    } else {
      SixOfRest(c);
    }
  }

  lemma SixOfGroup(c: seq<char>, g: nat, r: nat)
    requires 4 * g + 4 <= |c| && r < 4
    ensures SixBits(Held(c), 4 * g + r) == Rev(c[4 * g + r])
  {
    hide SixBits, Rev, Held, At;
    SixOfBytes(Held(c), g);
    HeldGroup(c, g);
    SixBack(Rev(c[4 * g]), Rev(c[4 * g + 1]), Rev(c[4 * g + 2]), Rev(c[4 * g + 3]));
  }

  lemma SixOfRest(c: seq<char>)
    requires |c| % 4 >= 2
    ensures var g, b := |c| / 4, Held(c);
      && SixBits(b, 4 * g) == Rev(c[4 * g])
      && SixBits(b, 4 * g + 1) == (if |c| % 4 == 2 then Rev(c[4 * g + 1]) / 16 * 16 else Rev(c[4 * g + 1]))
      && (|c| % 4 == 3 ==> SixBits(b, 4 * g + 2) == Rev(c[4 * g + 2]) / 4 * 4)
  {
    hide SixBits, Rev, Held, At;
    var g := |c| / 4;
    SixOfBytes(Held(c), g);
    HeldRest(c);
    SixBackRest(Rev(c[4 * g]), Rev(c[4 * g + 1]), if |c| % 4 == 3 then Rev(c[4 * g + 2]) else 0);
  }

  lemma {:induction false} UngroupIndex(c: seq<char>, g: nat)
    requires |c| % 4 == 0 && 4 * g < |c|
    ensures 4 * g + 4 <= |c| && Ungroup(c)[3 * g..3 * g + 3] == Bytes3(c[4 * g..4 * g + 4])
    decreases g
  {
    hide Bytes3;
    UngroupUnfold(c);
    if g > 0 {
      UngroupIndex(c[4..], g - 1);
      assert Ungroup(c)[3 * g..3 * g + 3] == Ungroup(c[4..])[3 * (g - 1)..3 * (g - 1) + 3];
      assert c[4..][4 * (g - 1)..4 * (g - 1) + 4] == c[4 * g..4 * g + 4];
    }
  }

  lemma HeldGroup(c: seq<char>, g: nat)
    requires 4 * g + 4 <= |c|
    ensures var p: int, q: int := Rev(c[4 * g]), Rev(c[4 * g + 1]);
      var r: int, s: int := Rev(c[4 * g + 2]), Rev(c[4 * g + 3]);
      var b := Held(c);
      At(b, 3 * g) == p * 4 + q / 16 && At(b, 3 * g + 1) == q % 16 * 16 + r / 4 && At(b, 3 * g + 2) == r % 4 * 64 + s
  {
    hide Rev, Ungroup, Unrest;
    Counted(|c|);
    var d := c[..|c| / 4 * 4];
    UngroupIndex(d, g);
    assert d[4 * g..4 * g + 4] == [c[4 * g], c[4 * g + 1], c[4 * g + 2], c[4 * g + 3]];
    var u := Ungroup(d)[3 * g..3 * g + 3];
    assert u[0] == Held(c)[3 * g] && u[1] == Held(c)[3 * g + 1] && u[2] == Held(c)[3 * g + 2];
  }

  lemma HeldRest(c: seq<char>)
    requires |c| % 4 >= 2
    ensures var g := |c| / 4;
      var p: int, q: int := Rev(c[4 * g]), Rev(c[4 * g + 1]);
      var b := Held(c);
      && At(b, 3 * g) == p * 4 + q / 16 && At(b, 3 * g + 2) == 0
      && At(b, 3 * g + 1) == if |c| % 4 == 2 then 0 else q % 16 * 16 + Rev(c[4 * g + 2]) / 4
  {
    hide Rev, Ungroup;
    Counted(|c|);
    var g := |c| / 4;
    assert c[g * 4..][0] == c[4 * g] && c[g * 4..][1] == c[4 * g + 1];
    assert |c| % 4 == 3 ==> c[g * 4..][2] == c[4 * g + 2];
  }

  lemma SixBack(p: Six, q: Six, r: Six, s: Six)
    ensures var x: int, y: int, z: int := p * 4 + q / 16, q % 16 * 16 + r / 4, r % 4 * 64 + s;
      x / 4 == p && x % 4 * 16 + y / 16 == q && y % 16 * 4 + z / 64 == r && z % 64 == s
  {
  }

  lemma SixBackRest(p: Six, q: Six, r: Six)
    ensures var x: int, y: int := p * 4 + q / 16, q % 16 * 16 + r / 4;
      x / 4 == p && x % 4 * 16 + 0 / 16 == q / 16 * 16 && x % 4 * 16 + y / 16 == q && y % 16 * 4 + 0 / 64 == r / 4 * 4
  {
  }

  // ---------------------------------------------- `toByteArray` on odd input

  /** The length must be a multiple of four. */
  lemma LengthError(s: seq<char>)
    ensures ToBytes(s) == Err(BadLength) <==> |s| % 4 != 0
  {
    hide Ungroup, Unrest, FirstPad, Fill;
    FourFloor(FirstPad(s));
  }

  /** Four pads after whole groups: no array has the size then computed when there is no
    * group, and otherwise two zeros stand for the last one. */
  lemma FourPads(c: seq<char>)
    requires FirstPad(c) == |c| && |c| % 4 == 0
    ensures ToBytes(c + "====") == if c == [] then Err(BadSize) else Ok(Ungroup(c[..|c| - 4]) + [0, 0])
  {
    hide Ungroup, Unrest, FirstPad, Fill, ToBytes;
    var s, k := c + "====", |c| / 4;
    FirstPadConcat(c, "====");
    PadFirst();
    QuotientIs(3 * (|c| + 4), 4, 3 * (k + 1), 0);
    if k > 0 {
      QuotientIs(|c| - 1, 4, k - 1, 3);
      assert s[..|c| - 4] == c[..|c| - 4];
      TwoZeros(Ungroup(c[..|c| - 4]));
    }
    ToBytesFour(s, |c|);
  }

  lemma ToBytesFour(s: seq<char>, v: nat)
    requires |s| == v + 4 && v % 4 == 0 && FirstPad(s) == v && 3 * (v + 4) / 4 == v / 4 * 3 + 3
    requires v > 0 ==> (v - 1) / 4 * 4 == v - 4
    ensures ToBytes(s) ==
      if v == 0 then Err(BadSize) else Ok(Fill(Ungroup(s[..v - 4]) + [], v / 4 * 3 - 1))
  {
    hide Ungroup, Unrest, FirstPad, Fill;
  }

  lemma TwoZeros(b: seq<Byte>)
    ensures Fill(b + [], |b| + 2) == b + [0, 0]
  {
    assert b + [] == b && seq(2, _ => 0 as Byte) == [0, 0];
  }

  lemma PadFirst()
    ensures FirstPad("====") == 0
  {
  }
}
