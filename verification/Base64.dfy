/** Base64 (RFC 4648, sections 4 and 5) as `base64-js` and `Buffer` code it, and
  * the URL-safe form without padding. */
module Base64 {
  import opened Basics
  import opened Wrappers
  import opened Utf8

  type Six = x: nat | x < 64

  /** The alphabet: `lookup[x]`. */
  function Sym(x: Six): (c: char)
    ensures c != '='
  {
    if x < 26 then ('A' as int + x) as char
    else if x < 52 then ('a' as int + x - 26) as char
    else if x < 62 then ('0' as int + x - 52) as char
    else if x == 62 then '+' else '/'
  }

  /** `revLookup`, in which a missing code counts as 0 under the bit operators;
    * `-` and `_` are entries of their own. */
  function Rev(c: char): Six {
    if 'A' <= c <= 'Z' then c as int - 'A' as int
    else if 'a' <= c <= 'z' then c as int - 'a' as int + 26
    else if '0' <= c <= '9' then c as int - '0' as int + 52
    else if c == '+' || c == '-' then 62
    else if c == '/' || c == '_' then 63
    else 0
  }

  /** Four symbols of three bytes. */
  function Quad(x: Byte, y: Byte, z: Byte): (q: seq<char>)
    ensures |q| == 4
  {
    var a: int, b: int, c: int := x, y, z;
    [Sym(a / 4), Sym(a % 4 * 16 + b / 16), Sym(b % 16 * 4 + c / 64), Sym(c % 64)]
  }

  /** `encodeChunk` over whole groups of three bytes. */
  function Groups(b: seq<Byte>): (s: seq<char>)
    requires |b| % 3 == 0
    ensures |s| == |b| / 3 * 4
    ensures forall i :: 0 <= i < |s| ==> s[i] != '='
    decreases |b|
  {
    if b == [] then [] else Quad(b[0], b[1], b[2]) + Groups(b[3..])
  }

  /** The last one or two bytes, without their padding. */
  function Rest(b: seq<Byte>): (s: seq<char>)
    requires |b| < 3
    ensures |s| == if b == [] then 0 else |b| + 1
    ensures forall i :: 0 <= i < |s| ==> s[i] != '='
  {
    if b == [] then []
    else
      var x: int := b[0];
      if |b| == 1 then [Sym(x / 4), Sym(x % 4 * 16)]
      else
        var y: int := b[1];
        [Sym(x / 4), Sym(x % 4 * 16 + y / 16), Sym(y % 16 * 4)]
  }

  function Pads(n: nat): seq<char> {
    if n % 3 == 1 then "==" else if n % 3 == 2 then "=" else ""
  }

  function Whole(b: seq<Byte>): nat {
    |b| - |b| % 3
  }

  /** The symbols of a byte string, without padding. */
  function Symbols(b: seq<Byte>): seq<char> {
    Groups(b[..Whole(b)]) + Rest(b[Whole(b)..])
  }

  /** `fromByteArray` */
  function FromBytes(b: seq<Byte>): seq<char> {
    Symbols(b) + Pads(|b|)
  }

  const CHUNK: nat := 16383

  /** `fromByteArray` with its loop over chunks. */
  method FromByteArray(b: seq<Byte>) returns (s: seq<char>)
    ensures s == FromBytes(b)
  {
    hide Groups, Rest, Pads, Whole, Symbols, FromBytes;
    s := [];
    FromBytesIs(b);
    var n := Whole(b);
    var i := 0;
    while i < n
      invariant 0 <= i && i % 3 == 0 && (i <= n || s == Groups(b[..n]))
      invariant i <= n ==> Groups(b[..n]) == s + Groups(b[i..n])
    {
      var j := if i + CHUNK > n then n else i + CHUNK;
      Thirds(i, n);
      GroupsSplit(b, i, j, n);
      Assoc(s, Groups(b[i..j]), Groups(b[j..n]));
      var chunk := EncodeChunk(b, i, j);
      s := s + chunk;
      i := i + CHUNK;
    }
    GroupsNone(b[n..n]);
    s := s + Rest(b[n..]) + Pads(|b|);
  }

  lemma Thirds(i: nat, n: nat)
    requires i % 3 == 0 && n % 3 == 0
    ensures (n - i) % 3 == 0 && (i + CHUNK) % 3 == 0 && (n - (i + CHUNK)) % 3 == 0
  {
  }

  lemma FromBytesIs(b: seq<Byte>)
    ensures Whole(b) <= |b| < Whole(b) + 3 && Whole(b) % 3 == 0
    ensures FromBytes(b) == Groups(b[..Whole(b)]) + Rest(b[Whole(b)..]) + Pads(|b|)
  {
    hide Groups, Rest, Pads;
  }

  method EncodeChunk(b: seq<Byte>, start: nat, end: nat) returns (s: seq<char>)
    requires start <= end <= |b| && (end - start) % 3 == 0
    ensures s == Groups(b[start..end])
  {
    hide Groups, Quad;
    s := [];
    var i := start;
    while i < end
      invariant start <= i <= end && (end - i) % 3 == 0
      invariant Groups(b[start..end]) == s + Groups(b[i..end])
    {
      GroupsStep(b, i, end, s);
      s := s + Quad(b[i], b[i + 1], b[i + 2]);
      i := i + 3;
    }
    GroupsNone(b[end..end]);
  }

  lemma GroupsStep(b: seq<Byte>, i: nat, end: nat, s: seq<char>)
    requires i < end <= |b| && (end - i) % 3 == 0
    ensures i + 3 <= end && s + Groups(b[i..end]) == s + Quad(b[i], b[i + 1], b[i + 2]) + Groups(b[i + 3..end])
  {
    hide Quad;
    assert b[i..end][3..] == b[i + 3..end];
    Assoc(s, Quad(b[i], b[i + 1], b[i + 2]), Groups(b[i + 3..end]));
  }

  lemma GroupsNone(b: seq<Byte>)
    requires b == []
    ensures Groups(b) == []
  {
  }

  lemma Threes(m: nat, n: nat)
    requires m % 3 == 0 && n % 3 == 0
    ensures (m + n) % 3 == 0 && (m > 0 ==> m >= 3 && (m - 3) % 3 == 0)
  {
  }

  lemma {:induction false} GroupsConcat(a: seq<Byte>, b: seq<Byte>)
    requires |a| % 3 == 0 && |b| % 3 == 0
    ensures |a + b| % 3 == 0 && Groups(a + b) == Groups(a) + Groups(b)
    decreases |a|
  {
    hide Quad, Groups;
    Threes(|a|, |b|);
    if a == [] {
      GroupsNone(a);
      assert a + b == b && [] + Groups(b) == Groups(b);
    } else {
      Threes(|a| + |b|, 0);
      GroupsUnfold(a);
      GroupsUnfold(a + b);
      assert (a + b)[3..] == a[3..] + b;
      GroupsConcat(a[3..], b);
      Assoc(Quad(a[0], a[1], a[2]), Groups(a[3..]), Groups(b));
    }
  }

  lemma GroupsUnfold(c: seq<Byte>)
    requires |c| >= 3 && |c| % 3 == 0 && (|c| - 3) % 3 == 0
    ensures Groups(c) == Quad(c[0], c[1], c[2]) + Groups(c[3..])
  {
  }

  lemma GroupsSplit(b: seq<Byte>, i: nat, j: nat, n: nat)
    requires i <= j <= n <= |b| && (j - i) % 3 == 0 && (n - j) % 3 == 0
    ensures (n - i) % 3 == 0 && Groups(b[i..n]) == Groups(b[i..j]) + Groups(b[j..n])
  {
    hide Groups;
    GroupsConcat(b[i..j], b[j..n]);
    assert b[i..j] + b[j..n] == b[i..n];
  }

  /** Text of a whole number of groups comes apart from what follows. */
  lemma FromBytesConcat(a: seq<Byte>, b: seq<Byte>)
    requires |a| % 3 == 0
    ensures FromBytes(a + b) == FromBytes(a) + FromBytes(b)
  {
    hide Groups, Rest, Whole, Pads;
    var w := Whole(b);
    WholeSum(a, b);
    assert (a + b)[..Whole(a + b)] == a + b[..w] && (a + b)[Whole(a + b)..] == b[w..];
    assert a[..|a|] == a && a[|a|..] == [];
    GroupsConcat(a, b[..w]);
    RestNone(a[|a|..]);
    assert FromBytes(a) == Groups(a);
    Assoc(Groups(a), Groups(b[..w]), Rest(b[w..]));
    Assoc(Groups(a), Symbols(b), Pads(|b|));
  }

  lemma WholeSum(a: seq<Byte>, b: seq<Byte>)
    requires |a| % 3 == 0
    ensures Whole(a) == |a| && Whole(a + b) == |a| + Whole(b) && Pads(|a|) == [] && Pads(|a + b|) == Pads(|b|)
    ensures Whole(b) <= |b| && Whole(b) % 3 == 0 && |b| - Whole(b) < 3
  {
  }

  lemma RestNone(b: seq<Byte>)
    requires b == []
    ensures Rest(b) == []
  {
  }

  // ------------------------------------------------------------- toByteArray

  datatype Error = BadLength | BadSize

  /** Index of the first `=`, or the length. */
  function FirstPad(s: seq<char>): (i: nat)
    ensures i <= |s|
  {
    if s == [] || s[0] == '=' then 0 else 1 + FirstPad(s[1..])
  }

  /** Three bytes of four symbols. */
  function Bytes3(s: seq<char>): seq<Byte>
    requires |s| == 4
  {
    var a: int, b: int, c: int, d: int := Rev(s[0]), Rev(s[1]), Rev(s[2]), Rev(s[3]);
    [a * 4 + b / 16, b % 16 * 16 + c / 4, c % 4 * 64 + d]
  }

  /** The loop of `toByteArray` over whole groups of four symbols. */
  function Ungroup(s: seq<char>): (b: seq<Byte>)
    requires |s| % 4 == 0
    ensures |b| == |s| / 4 * 3
    decreases |s|
  {
    if s == [] then [] else Bytes3(s[..4]) + Ungroup(s[4..])
  }

  /** The last two or three symbols. */
  function Unrest(s: seq<char>): (b: seq<Byte>)
    requires |s| == 2 || |s| == 3
    ensures |b| == |s| - 1
  {
    var x: int, y: int := Rev(s[0]), Rev(s[1]);
    if |s| == 2 then [x * 4 + y / 16]
    else
      var z: int := Rev(s[2]);
      [x * 4 + y / 16, y % 16 * 16 + z / 4]
  }

  /** A typed array of `n` zeros after writing `b` from its start. */
  function Fill(b: seq<Byte>, n: nat): seq<Byte> {
    if |b| >= n then b[..n] else b + seq(n - |b|, _ => 0)
  }

  lemma FourFloor(v: nat)
    ensures v >= 4 ==> 0 <= (v - 1) / 4 * 4 <= v && (v - 1) / 4 * 4 % 4 == 0
    ensures v >= 4 && v % 4 != 0 ==> (v - 1) / 4 * 4 == v - v % 4
    ensures v % 4 == 0 || v - v % 4 >= 0
  {
  }

  /** `toByteArray` */
  function ToBytes(s: seq<char>): Result<seq<Byte>, Error> {
    if |s| % 4 > 0 then Err(BadLength)
    else
      var v := FirstPad(s);
      var p := if v == |s| then 0 else 4 - v % 4;
      var size := 3 * (v + p) / 4 - p;
      var groups := if p == 0 then v else if v < 4 then 0 else (v - 1) / 4 * 4;
      FourFloor(v);
      if size < 0 then Err(BadSize)
      else
        var tail := if p == 2 || p == 1 then Unrest(s[groups..v]) else [];
        Ok(Fill(Ungroup(s[..groups]) + tail, size))
  }

  lemma RevSym(x: Six)
    ensures Rev(Sym(x)) == x
  {
  }

  lemma QuadBytes(x: Byte, y: Byte, z: Byte)
    ensures Bytes3(Quad(x, y, z)) == [x, y, z]
  {
    hide Rev, Sym;
    var a: int, b: int, c: int := x, y, z;
    RevSym(a / 4);
    RevSym(a % 4 * 16 + b / 16);
    RevSym(b % 16 * 4 + c / 64);
    RevSym(c % 64);
    FirstByte(a, b);
    SecondByte(a, b, c);
    ThirdByte(b, c);
  }

  lemma FirstByte(a: nat, b: nat)
    requires b < 256
    ensures a / 4 * 4 + (a % 4 * 16 + b / 16) / 16 == a
  {
  }

  lemma SecondByte(a: nat, b: nat, c: nat)
    requires b < 256 && c < 256
    ensures (a % 4 * 16 + b / 16) % 16 * 16 + (b % 16 * 4 + c / 64) / 4 == b
  {
  }

  lemma ThirdByte(b: nat, c: nat)
    requires c < 256
    ensures (b % 16 * 4 + c / 64) % 4 * 64 + c % 64 == c
  {
  }

  lemma RestBytes(b: seq<Byte>)
    requires |b| == 1 || |b| == 2
    ensures Unrest(Rest(b)) == b
  {
    var x: int := b[0];
    RevSym(x / 4);
    RevSym(x % 4 * 16);
    if |b| == 2 {
      var y: int := b[1];
      RevSym(x % 4 * 16 + y / 16);
      RevSym(y % 16 * 4);
    }
  }

  /** A different spelling of the same symbols, such as the URL-safe one. */
  ghost predicate Same(s: seq<char>, t: seq<char>) {
    |s| == |t| && forall i :: 0 <= i < |s| ==> Rev(s[i]) == Rev(t[i]) && t[i] != '='
  }

  lemma {:induction false} UngroupGroups(b: seq<Byte>, t: seq<char>)
    requires |b| % 3 == 0 && Same(Groups(b), t)
    ensures |t| % 4 == 0 && Ungroup(t) == b
    decreases |b|
  {
    hide Quad, Bytes3, Rev, Groups, Ungroup, Same;
    Threes(|b|, 0);
    SameLength(b, t);
    if b == [] {
      UngroupNone(t);
    } else {
      var q := Quad(b[0], b[1], b[2]);
      GroupsUnfold(b);
      SameSplit(q, Groups(b[3..]), t);
      Bytes3Same(q, t[..4]);
      QuadBytes(b[0], b[1], b[2]);
      UngroupGroups(b[3..], t[4..]);
      UngroupUnfold(t);
      assert b == [b[0], b[1], b[2]] + b[3..];
    }
  }

  lemma SameLength(b: seq<Byte>, t: seq<char>)
    requires |b| % 3 == 0 && Same(Groups(b), t)
    ensures |t| == |b| / 3 * 4
  {
    hide Groups, Rev;
  }

  lemma UngroupNone(t: seq<char>)
    requires t == []
    ensures Ungroup(t) == []
  {
  }

  lemma UngroupUnfold(t: seq<char>)
    requires |t| >= 4 && |t[4..]| % 4 == 0
    ensures |t| % 4 == 0 && Ungroup(t) == Bytes3(t[..4]) + Ungroup(t[4..])
  {
    hide Bytes3;
  }

  lemma SameSplit(s: seq<char>, s': seq<char>, t: seq<char>)
    requires Same(s + s', t)
    ensures |s| <= |t| && Same(s, t[..|s|]) && Same(s', t[|s|..])
  {
    hide Rev;
    assert forall i :: 0 <= i < |s| ==> (s + s')[i] == s[i] && t[..|s|][i] == t[i];
    assert forall i :: 0 <= i < |s'| ==> (s + s')[|s| + i] == s'[i] && t[|s|..][i] == t[|s| + i];
  }

  lemma Bytes3Same(s: seq<char>, t: seq<char>)
    requires |s| == 4 && Same(s, t)
    ensures Bytes3(s) == Bytes3(t)
  {
    hide Rev;
  }

  lemma {:induction false} FirstPadAt(s: seq<char>, n: nat)
    requires n <= |s| && (forall i :: 0 <= i < n ==> s[i] != '=') && (n < |s| ==> s[n] == '=')
    ensures FirstPad(s) == n
  {
    if n > 0 { FirstPadAt(s[1..], n - 1); }
  }

  /** Lengths of the text of `n` bytes: all symbols, and those of whole groups. */
  function TextLength(n: nat): nat {
    GroupsLength(n) + if n % 3 == 0 then 0 else n % 3 + 1
  }

  function GroupsLength(n: nat): nat {
    n / 3 * 4
  }

  lemma Lengths(n: nat)
    ensures (n - n % 3) / 3 == n / 3 && GroupsLength(n) % 4 == 0 && GroupsLength(n) <= TextLength(n)
    ensures n % 3 == 0 ==> TextLength(n) == GroupsLength(n) && 3 * TextLength(n) / 4 == n
    ensures n % 3 != 0 ==> TextLength(n) % 4 == n % 3 + 1
    ensures n % 3 != 0 && TextLength(n) >= 4 ==> (TextLength(n) - 1) / 4 * 4 == GroupsLength(n)
    ensures n % 3 != 0 && TextLength(n) < 4 ==> GroupsLength(n) == 0
    ensures n % 3 == 1 ==> 3 * (TextLength(n) + 2) / 4 - 2 == n
    ensures n % 3 == 2 ==> 3 * (TextLength(n) + 1) / 4 - 1 == n
    ensures (TextLength(n) + |Pads(n)|) % 4 == 0
  {
    var k, r := n / 3, n % 3;
    assert GroupsLength(n) == 4 * k;
    assert TextLength(n) == if r == 0 then 4 * k else 4 * k + r + 1;
    Fours(k, if r == 0 then 0 else r + 1);
    if r != 0 {
      Fours(k, r);
    }
    hide TextLength, GroupsLength;
  }

  lemma Fours(k: nat, d: nat)
    requires d < 4
    ensures (4 * k + d) % 4 == d && (4 * k + d) / 4 == k
  {
  }

  lemma ToBytesIs(s: seq<char>, n: nat)
    requires FirstPad(s) == TextLength(n) && |s| == TextLength(n) + |Pads(n)|
    ensures GroupsLength(n) % 4 == 0 && GroupsLength(n) <= TextLength(n) <= |s|
    ensures ToBytes(s)
         == Ok(Fill(Ungroup(s[..GroupsLength(n)])
              + if n % 3 == 0 then [] else Unrest(s[GroupsLength(n)..TextLength(n)]), n))
  {
    hide TextLength, GroupsLength, Ungroup, Unrest, FirstPad, Fill;
    Lengths(n);
    UnrestLength(n);
  }

  lemma UnrestLength(n: nat)
    ensures n % 3 != 0 ==> 2 <= TextLength(n) - GroupsLength(n) <= 3
  {
  }

  /** Padded text in any spelling of the symbols of `b` is read as `b`. */
  lemma ToBytesOf(b: seq<Byte>, t: seq<char>)
    requires Same(Symbols(b), t)
    ensures ToBytes(t + Pads(|b|)) == Ok(b)
  {
    hide Groups, Rest, Ungroup, Unrest, Rev, FirstPad, ToBytes;
    var n, w := |b|, Whole(b);
    var s := t + Pads(n);
    Lengths(n);
    var g, r := Groups(b[..w]), Rest(b[w..]);
    SameSplit(g, r, t);
    FirstPadAt(s, |t|);
    UngroupGroups(b[..w], t[..|g|]);
    assert s[..|g|] == t[..|g|] && s[|g|..|t|] == t[|g|..];
    assert b == b[..w] + b[w..];
    ToBytesIs(s, n);
    if n % 3 != 0 {
      UnrestSame(r, t[|g|..]);
      RestBytes(b[w..]);
    }
    assert b[..n] == b && b[..w] + [] == b[..w];
  }

  lemma UnrestSame(s: seq<char>, t: seq<char>)
    requires Same(s, t) && (|s| == 2 || |s| == 3)
    ensures Unrest(s) == Unrest(t)
  {
  }

  /** Encoding and decoding again is the identity. */
  lemma RoundTrip(b: seq<Byte>)
    ensures ToBytes(FromBytes(b)) == Ok(b)
  {
    ToBytesOf(b, Symbols(b));
  }

  // --------------------------------------------------------------- URL-safe

  function UrlChar(c: char): char {
    if c == '+' then '-' else if c == '/' then '_' else c
  }

  /** `b64toB64UrlEncoded` */
  function UrlEncoded(s: seq<char>): seq<char> {
    if s == [] then []
    else if s[0] == '=' then UrlEncoded(s[1..])
    else [UrlChar(s[0])] + UrlEncoded(s[1..])
  }

  predicate Allowed(c: char) {
    c == '+' || c == '/' || '0' <= c <= '9' || 'A' <= c <= 'Z' || 'a' <= c <= 'z' || c == '-' || c == '_'
  }

  function Clean(s: seq<char>): seq<char> {
    if s == [] then []
    else if Allowed(s[0]) then [s[0]] + Clean(s[1..]) else Clean(s[1..])
  }

  function PadTo4(s: seq<char>): seq<char> {
    if |s| % 4 == 0 then s else if |s| % 4 == 1 then s + "===" else if |s| % 4 == 2 then s + "==" else s + "="
  }

  /** `base64clean`; the characters `trim` removes are not allowed ones. */
  function Base64Clean(s: seq<char>): seq<char> {
    var c := Clean(s[..FirstPad(s)]);
    if |c| < 2 then [] else PadTo4(c)
  }

  /** `base64ToBytes` */
  function Base64ToBytes(s: seq<char>): Result<seq<Byte>, Error> {
    ToBytes(Base64Clean(s))
  }

  lemma {:induction false} UrlEncodedOf(s: seq<char>, n: nat)
    requires n <= |s| && (forall i :: 0 <= i < n ==> s[i] != '=') && (forall i :: n <= i < |s| ==> s[i] == '=')
    ensures |UrlEncoded(s)| == n && forall i :: 0 <= i < n ==> UrlEncoded(s)[i] == UrlChar(s[i])
  {
    if s != [] {
      UrlEncodedOf(s[1..], if n > 0 then n - 1 else 0);
    }
  }

  lemma {:induction false} CleanAllowed(s: seq<char>)
    requires forall i :: 0 <= i < |s| ==> Allowed(s[i])
    ensures Clean(s) == s
  {
    if s != [] { CleanAllowed(s[1..]); }
  }

  lemma SymbolsAllowed(b: seq<Byte>, i: nat)
    requires i < |Symbols(b)|
    ensures Allowed(Symbols(b)[i]) && Symbols(b)[i] != '='
    ensures Rev(UrlChar(Symbols(b)[i])) == Rev(Symbols(b)[i]) && UrlChar(Symbols(b)[i]) != '='
    ensures Allowed(UrlChar(Symbols(b)[i]))
  {
    hide Groups, Rest, Allowed, Rev, UrlChar;
    var c := Symbols(b)[i];
    if i < |Groups(b[..Whole(b)])| {
      GroupsAllowed(b[..Whole(b)], i);
    } else {
      RestAllowed(b[Whole(b)..], i - |Groups(b[..Whole(b)])|);
    }
    AllowedUrl(c);
  }

  lemma RestAllowed(b: seq<Byte>, i: nat)
    requires |b| < 3 && i < |Rest(b)|
    ensures Allowed(Rest(b)[i])
  {
  }

  lemma AllowedUrl(c: char)
    requires Allowed(c)
    ensures c != '=' && Rev(UrlChar(c)) == Rev(c) && UrlChar(c) != '=' && Allowed(UrlChar(c))
  {
  }

  lemma {:induction false} GroupsAllowed(b: seq<Byte>, i: nat)
    requires |b| % 3 == 0 && i < |Groups(b)|
    ensures Allowed(Groups(b)[i])
    decreases |b|
  {
    if i >= 4 { GroupsAllowed(b[3..], i - 4); }
  }

  /** The unpadded URL-safe text is read back as the same bytes. */
  lemma UrlRoundTrip(b: seq<Byte>)
    ensures Base64ToBytes(UrlEncoded(FromBytes(b))) == Ok(b)
  {
    hide Groups, Rest, Symbols, Rev, ToBytes, FirstPad, Clean, UrlEncoded;
    hide FromBytes, Allowed, UrlChar, Pads, PadTo4, Whole;
    var t := UrlEncoded(FromBytes(b));
    UrlText(b);
    SymbolsSize(b);
    FirstPadAt(t, |t|);
    assert t[..|t|] == t;
    CleanAllowed(t);
    ToBytesOf(b, t);
    PadsBack(t, |b|, Whole(b) / 3);
  }

  /** Only the length of the text matters to put back the padding. */
  lemma PadsBack(t: seq<char>, n: nat, k: nat)
    requires |t| == k * 4 + (if n % 3 == 0 then 0 else n % 3 + 1)
    ensures t + Pads(n) == if |t| < 2 then [] else PadTo4(t)
  {
  }

  /** The URL-safe text spells the symbols of `b` in allowed characters. */
  lemma UrlText(b: seq<Byte>)
    ensures var t := UrlEncoded(FromBytes(b));
      Same(Symbols(b), t) && forall i :: 0 <= i < |t| ==> Allowed(t[i]) && t[i] != '='
  {
    hide Groups, Rest, Symbols, Rev, UrlEncoded, Allowed, UrlChar;
    var s, n := FromBytes(b), |Symbols(b)|;
    forall i | 0 <= i < n
      ensures s[i] == Symbols(b)[i] && s[i] != '=' && Allowed(UrlChar(s[i]))
      ensures Rev(UrlChar(s[i])) == Rev(s[i]) && UrlChar(s[i]) != '='
    {
      SymbolsAllowed(b, i);
    }
    UrlEncodedOf(s, n);
  }

  lemma SymbolsSize(b: seq<Byte>)
    ensures |Symbols(b)| == Whole(b) / 3 * 4 + if |b| % 3 == 0 then 0 else |b| % 3 + 1
  {
    hide Groups, Rest;
  }
}
