/** Double-quoted YAML scalars: the dumper's `escapeString` and the text that
  * the loader's `readDoubleQuotedScalar` gives for a scalar (sections 5.7 and
  * 7.3.1 of YAML 1.2.2). Text is a sequence of 16-bit units; the loader's input
  * ends in the unit 0. */
module YamlQuoted {
  import opened Basics
  import opened Wrappers
  import opened Utf8

  // ------------------------------------------------------------ the dumper

  /** `codePointAt`, and how many units it takes. */
  function CodePointAt(s: seq<Unit>, i: nat): (r: (nat, nat))
    requires i < |s|
    ensures 1 <= r.1 <= 2 && i + r.1 <= |s|
    ensures r.0 >= 0x1_0000 <==> r.1 == 2
  {
    if Lead(s[i]) && i + 1 < |s| && Trail(s[i + 1])
    then (Combine(s[i], s[i + 1]), 2)
    else (s[i], 1)
  }

  /** `isPrintable` */
  predicate Printable(c: nat) {
    || 0x20 <= c <= 0x7E
    || (0xA1 <= c <= 0xD7FF && c != 0x2028 && c != 0x2029)
    || (0xE000 <= c <= 0xFFFD && c != 0xFEFF)
    || 0x1_0000 <= c <= 0x10_FFFF
  }

  /** The table of short escapes: the unit after the backslash. */
  function ShortEscape(c: nat): Option<Unit> {
    match c
    case 0x00 => Some('0' as int)
    case 0x07 => Some('a' as int)
    case 0x08 => Some('b' as int)
    case 0x09 => Some('t' as int)
    case 0x0A => Some('n' as int)
    case 0x0B => Some('v' as int)
    case 0x0C => Some('f' as int)
    case 0x0D => Some('r' as int)
    case 0x1B => Some('e' as int)
    case 0x22 => Some(Quote)
    case 0x5C => Some(Backslash)
    case 0x85 => Some('N' as int)
    case 0xA0 => Some('_' as int)
    case 0x2028 => Some('L' as int)
    case 0x2029 => Some('P' as int)
    case _ => None
  }

  const Quote: Unit := 0x22
  const Backslash: Unit := 0x5C

  /** `toString(16).toUpperCase()` */
  function Hex(x: nat): (d: seq<Unit>)
    ensures |d| >= 1
  {
    if x < 16 then [HexDigit(x)] else Hex(x / 16) + [HexDigit(x % 16)]
  }

  function HexDigit(d: nat): Unit
    requires d < 16
  {
    if d < 10 then 48 + d else 65 + d - 10
  }

  /** `encodeHex`, for the code points it is given. */
  function EncodeHex(c: nat): seq<Unit>
    requires c <= 0x10_FFFF
  {
    var h := Hex(c);
    if c <= 0xFF then [Backslash, 'x' as int] + Pad(2, h)
    else if c <= 0xFFFF then [Backslash, 'u' as int] + Pad(4, h)
    else [Backslash, 'U' as int] + Pad(8, h)
  }

  function Pad(width: nat, h: seq<Unit>): seq<Unit>
    decreases width - |h|
  {
    if |h| >= width then h else Pad(width, [48] + h)
  }

  /** What `escapeString` writes for the code point `c` at `s[i]`. */
  function EscapeOne(s: seq<Unit>, i: nat): seq<Unit>
    requires i < |s|
  {
    var (c, n) := CodePointAt(s, i);
    match ShortEscape(c)
    case Some(e) => [Backslash, e]
    case None => if Printable(c) then s[i..i + n] else EncodeHex(c)
  }

  /** What it writes from `s[i]` on. */
  function Escape(s: seq<Unit>, i: nat): seq<Unit>
    requires i <= |s|
    decreases |s| - i
  {
    if i == |s| then [] else EscapeOne(s, i) + Escape(s, i + CodePointAt(s, i).1)
  }

  /** `escapeString` */
  method EscapeString(s: seq<Unit>) returns (e: seq<Unit>)
    ensures e == Escape(s, 0)
  {
    hide ShortEscape, Printable, EncodeHex;
    e := [];
    var i := 0;
    while i < |s|
      invariant 0 <= i <= |s| && Escape(s, 0) == e + Escape(s, i)
      decreases |s| - i
    {
      var (c, n) := CodePointAt(s, i);
      Assoc(e, EscapeOne(s, i), Escape(s, i + n));
      match ShortEscape(c) {
        case Some(o) => e := e + [Backslash, o];
        case None =>
          if Printable(c) {
            e := e + s[i..i + n];
          } else {
            e := e + EncodeHex(c);
          }
      }
      i := i + n;
    }
  }

  // ------------------------------------------------------------ the loader

  predicate Eol(u: Unit) { u == 0x0A || u == 0x0D }
  predicate Blank(u: Unit) { u == 0x09 || u == 0x20 }

  /** Text that ends in the unit 0. */
  type Input = s: seq<Unit> | |s| >= 1 && s[|s| - 1] == 0 witness [0]

  /** `fromHexCode`; `32 | u` is in `a` to `f` exactly for these letters. */
  function FromHexCode(u: Unit): int {
    if 48 <= u <= 57 then u - 48
    else if 65 <= u <= 70 then u - 55
    else if 97 <= u <= 102 then u - 87
    else -1
  }

  /** `simpleEscapeSequence`; the empty string for anything else. */
  function SimpleEscape(u: Unit): seq<Unit> {
    match u
    case 0x30 => [0x00]
    case 0x61 => [0x07]
    case 0x62 => [0x08]
    case 0x74 => [0x09]
    case 0x09 => [0x09]
    case 0x6E => [0x0A]
    case 0x76 => [0x0B]
    case 0x66 => [0x0C]
    case 0x72 => [0x0D]
    case 0x65 => [0x1B]
    case 0x20 => [0x20]
    case 0x22 => [0x22]
    case 0x2F => [0x2F]
    case 0x5C => [0x5C]
    case 0x4E => [0x85]
    case 0x5F => [0xA0]
    case 0x4C => [0x2028]
    case 0x50 => [0x2029]
    case _ => []
  }

  /** How many hexadecimal digits follow `\x`, `\u` and `\U`. */
  function HexLength(u: Unit): nat {
    if u == 120 then 2 else if u == 117 then 4 else if u == 85 then 8 else 0
  }

  /** `n` hexadecimal digits from `p` on, after `r`. */
  function HexValue(t: Input, p: nat, n: nat, r: int): Option<int>
    requires p < |t|
    decreases n
  {
    if n == 0 then Some(r)
    else if FromHexCode(t[p]) < 0 then None
    else HexValue(t, p + 1, n - 1, ToInt32(16 * r) + FromHexCode(t[p]))
  }

  /** `charFromCodepoint`; `fromCharCode` keeps 16 bits. */
  function CharFromCodepoint(c: int): seq<Unit> {
    if c <= 0xFFFF then [c % 0x1_0000]
    else [(0xD800 + (c - 0x1_0000) / 1024) % 0x1_0000, 0xDC00 + (c - 0x1_0000) % 1024]
  }

  /** Where the blanks, or only the spaces, from `p` on end. */
  function BlankEnd(t: Input, p: nat): (q: nat)
    requires p < |t|
    ensures p <= q < |t| && !Blank(t[q])
    decreases |t| - p
  {
    if Blank(t[p]) then BlankEnd(t, p + 1) else p
  }

  function SpaceEnd(t: Input, p: nat): (q: nat)
    requires p < |t|
    ensures p <= q < |t| && t[q] != 0x20
    decreases |t| - p
  {
    if t[p] == 0x20 then SpaceEnd(t, p + 1) else p
  }

  /** `readLineBreak` */
  function BreakEnd(t: Input, p: nat): (q: nat)
    requires p < |t| && Eol(t[p])
    ensures p < q < |t|
  {
    if t[p] == 0x0D && t[p + 1] == 0x0A then p + 2 else p + 1
  }

  /** `lineStart`, `lineIndent` and `firstTabInLine` (-1 for none). */
  datatype Line = Line(start: nat, indent: nat, firstTab: int)

  /** The first tab of `t[p..q]`, or -1. */
  function FirstTab(t: Input, p: nat, q: nat): int
    requires p <= q < |t|
    decreases q - p
  {
    if p == q then -1 else if t[p] == 0x09 then p else FirstTab(t, p + 1, q)
  }

  function AfterBlanks(t: Input, p: nat, line: Line): Line
    requires p < |t|
  {
    if line.firstTab == -1 then line.(firstTab := FirstTab(t, p, BlankEnd(t, p))) else line
  }

  /** The end of a comment: a line break or the null unit. */
  function CommentEnd(t: Input, p: nat): (q: nat)
    requires p < |t|
    ensures p <= q < |t| && (t[q] == 0 || Eol(t[q]))
    decreases |t| - p
  {
    if t[p] == 0 || Eol(t[p]) then p else CommentEnd(t, p + 1)
  }

  const NumberSign: Unit := 0x23

  /** Past blanks, and a comment where it is allowed. */
  function TextEnd(t: Input, p: nat, comments: bool): (q: nat)
    requires p < |t|
    ensures p <= q < |t| && !Blank(t[q]) && (comments ==> t[q] != NumberSign)
  {
    var b := BlankEnd(t, p);
    if comments && t[b] == NumberSign then CommentEnd(t, b) else b
  }

  /** `skipSeparationSpace`, with or without comments: the end, the number of line
    * breaks and the last line. */
  function Skip(t: Input, p: nat, line: Line, comments: bool): (r: (nat, nat, Line))
    requires p < |t|
    ensures p <= r.0 < |t| && (Eol(t[p]) ==> p < r.0)
    decreases |t| - p
  {
    var c := TextEnd(t, p, comments);
    if !Eol(t[c]) then (c, 0, AfterBlanks(t, p, line))
    else
      var n := BreakEnd(t, c);
      var s := SpaceEnd(t, n);
      var r := Skip(t, s, Line(n, s - n, -1), comments);
      (r.0, r.1 + 1, r.2)
  }

  /** `writeFoldedLines`: one line break is a space, `n` are `n - 1` breaks. */
  function Folded(n: nat): seq<Unit> {
    if n == 0 then [] else if n == 1 then [0x20] else seq(n - 1, _ => 0x0A)
  }

  /** `testDocumentSeparator` */
  predicate Separator(t: Input, p: nat)
    requires p < |t|
  {
    && (t[p] == 0x2D || t[p] == 0x2E)
    && t[p + 1] == t[p] && t[p + 2] == t[p]
    && (t[p + 3] == 0 || Blank(t[p + 3]) || Eol(t[p + 3]))
  }

  predicate Json(s: seq<Unit>) {
    forall i :: 0 <= i < |s| ==> s[i] == 0x09 || s[i] >= 0x20
  }

  datatype ScalarError = EndOfStream | EndOfDocument | BadCharacter | BadHexDigit | UnknownEscape

  datatype Quoted = Quoted(text: seq<Unit>, end: nat, line: Line)

  /** An escape whose backslash stands before `p`: where it ends, the line there
    * and the text. */
  function AfterBackslash(t: Input, p: nat, line: Line): (r: Result<(nat, Line, seq<Unit>), ScalarError>)
    requires p < |t|
    ensures r.Ok? ==> p <= r.value.0 < |t|
  {
    var c := t[p];
    if Eol(c) then
      var r := Skip(t, p, line, false);
      Ok((r.0, r.2, []))
    else if c < 256 && SimpleEscape(c) != [] then Ok((p + 1, line, SimpleEscape(c)))
    else if HexLength(c) > 0 then
      var n := HexLength(c);
      match HexValue(t, p + 1, n, 0)
      case None => Err(BadHexDigit)
      case Some(x) =>
        HexStays(t, p + 1, n, 0);
        Ok((p + 1 + n, line, CharFromCodepoint(x)))
    else Err(UnknownEscape)
  }

  /** The rest of a scalar from `p` on. `out` is done; `seg` and the blanks after
    * it, `white`, are the text of the line so far since the last escape; only a
    * line break drops the blanks. */
  function Scan(t: Input, p: nat, line: Line, out: seq<Unit>, seg: seq<Unit>, white: seq<Unit>)
    : Result<Quoted, ScalarError>
    requires p < |t|
    decreases |t| - p
  {
    var c := t[p];
    if c == 0 then Err(EndOfStream)
    else if c == Quote then
      if Json(seg) then Ok(Quoted(out + seg + white, p + 1, line)) else Err(BadCharacter)
    else if c == Backslash then
      if !Json(seg) then Err(BadCharacter)
      else
        match AfterBackslash(t, p + 1, line)
        case Err(e) => Err(e)
        case Ok(r) => Scan(t, r.0, r.1, out + seg + white + r.2, [], [])
    else if Eol(c) then
      if !Json(seg) then Err(BadCharacter)
      else
        var r := Skip(t, p, line, false);
        Scan(t, r.0, r.2, out + seg + Folded(r.1), [], [])
    else if p == line.start && Separator(t, p) then Err(EndOfDocument)
    else if Blank(c) then Scan(t, p + 1, line, out, seg, white + [c])
    else Scan(t, p + 1, line, out, seg + white + [c], [])
  }

  lemma {:induction false} HexStays(t: Input, p: nat, n: nat, r: int)
    requires p < |t| && HexValue(t, p, n, r).Some?
    ensures p + n < |t|
    decreases n
  {
    if n > 0 {
      HexStays(t, p + 1, n - 1, ToInt32(16 * r) + FromHexCode(t[p]));
    }
  }

  // ------------------------------------------------------------ line folding

  /** Line breaks in `t[p..q]`: CR LF is one. */
  function LineBreaks(t: seq<Unit>, p: nat, q: nat): nat
    requires q <= |t|
    decreases q - p
  {
    if p >= q then 0
    else if t[p] == 0x0D && p + 1 < q && t[p + 1] == 0x0A then 1 + LineBreaks(t, p + 2, q)
    else if Eol(t[p]) then 1 + LineBreaks(t, p + 1, q)
    else LineBreaks(t, p + 1, q)
  }

  lemma {:induction false} NoBreaks(t: seq<Unit>, p: nat, m: nat, q: nat)
    requires p <= m <= q <= |t| && forall i :: p <= i < m ==> !Eol(t[i])
    ensures LineBreaks(t, p, q) == LineBreaks(t, m, q)
    decreases m - p
  {
    if p < m {
      NoBreaks(t, p + 1, m, q);
    }
  }

  lemma {:induction false} BlankRun(t: Input, p: nat)
    requires p < |t|
    ensures forall i :: p <= i < BlankEnd(t, p) ==> Blank(t[i])
    decreases |t| - p
  {
    if Blank(t[p]) {
      BlankRun(t, p + 1);
    }
  }

  lemma {:induction false} SpaceRun(t: Input, p: nat)
    requires p < |t|
    ensures forall i :: p <= i < SpaceEnd(t, p) ==> t[i] == 0x20
    decreases |t| - p
  {
    if t[p] == 0x20 {
      SpaceRun(t, p + 1);
    }
  }

  lemma SkipNull(t: Input, p: nat, line: Line, comments: bool)
    requires p < |t| && t[p] == 0
    ensures Skip(t, p, line, comments) == (p, 0, line)
  {
  }

  /** Unit `i` belongs to a comment that starts at `p` or later. */
  ghost predicate Commented(t: seq<Unit>, p: nat, i: nat) {
    exists h :: p <= h <= i < |t| && t[h] == NumberSign && forall j :: h <= j <= i ==> !Eol(t[j])
  }

  /** Blanks, and comments where they are allowed. */
  ghost predicate Spaced(t: seq<Unit>, p: nat, i: nat, comments: bool)
    requires i < |t|
  {
    Blank(t[i]) || (comments && Commented(t, p, i))
  }

  /** `Skip` takes all blanks, line breaks and allowed comments that follow, counts
    * the line breaks and finds the start of the last line. */
  lemma {:induction false} SkipTakesAll(t: Input, p: nat, line: Line, comments: bool)
    requires p < |t|
    ensures var r := Skip(t, p, line, comments);
      && (forall i :: p <= i < r.0 ==> Eol(t[i]) || Spaced(t, p, i, comments))
      && !Blank(t[r.0]) && !Eol(t[r.0]) && (comments ==> t[r.0] != NumberSign)
      && r.1 == LineBreaks(t, p, r.0)
      && (r.1 == 0 ==> r.2.start == line.start && forall i :: p <= i < r.0 ==> Spaced(t, p, i, comments))
      && (r.1 > 0 ==> p < r.2.start <= r.0 && Eol(t[r.2.start - 1]))
      && (r.1 > 0 ==> forall i :: r.2.start <= i < r.0 ==> Spaced(t, p, i, comments))
    decreases |t| - p
  {
    hide BlankEnd, SpaceEnd, FirstTab, TextEnd, Spaced, LineBreaks;
    var c := TextEnd(t, p, comments);
    LineSpaced(t, p, comments);
    if Eol(t[c]) {
      var n := BreakEnd(t, c);
      var s := SpaceEnd(t, n);
      IndentSpaced(t, p, n, comments);
      SkipTakesAll(t, s, Line(n, s - n, -1), comments);
      var q := Skip(t, s, Line(n, s - n, -1), comments).0;
      SpacedFrom(t, p, s, q, comments);
      NoBreaks(t, p, c, q);
      OneBreak(t, c, q);
      NoBreaks(t, n, s, q);
    } else {
      NoBreaks(t, p, c, c);
      OneBreak(t, c, c);
    }
  }

  lemma OneBreak(t: Input, c: nat, q: nat)
    requires c <= q < |t|
    ensures LineBreaks(t, q, q) == 0
    ensures Eol(t[c]) && BreakEnd(t, c) <= q ==> LineBreaks(t, c, q) == 1 + LineBreaks(t, BreakEnd(t, c), q)
  {
  }

  lemma IndentSpaced(t: Input, p: nat, n: nat, comments: bool)
    requires n < |t|
    ensures forall i :: n <= i < SpaceEnd(t, n) ==> !Eol(t[i]) && Spaced(t, p, i, comments)
  {
    SpaceRun(t, n);
  }

  lemma SpacedFrom(t: seq<Unit>, p: nat, s: nat, q: nat, comments: bool)
    requires p <= s <= q <= |t|
    ensures forall i :: s <= i < q && Spaced(t, s, i, comments) ==> Spaced(t, p, i, comments)
  {
    forall i | s <= i < q && Spaced(t, s, i, comments) ensures Spaced(t, p, i, comments) {
      if comments && Commented(t, s, i) {
        CommentedFrom(t, p, s, i);
      }
    }
  }

  /** Blanks and a comment up to the end of the line. */
  lemma LineSpaced(t: Input, p: nat, comments: bool)
    requires p < |t|
    ensures forall i :: p <= i < TextEnd(t, p, comments) ==> !Eol(t[i]) && Spaced(t, p, i, comments)
  {
    var b := BlankEnd(t, p);
    BlankRun(t, p);
    if comments && t[b] == NumberSign {
      var c := CommentEnd(t, b);
      CommentRun(t, b);
      forall i | b <= i < c ensures Commented(t, p, i) {
        assert p <= b <= i && forall j :: b <= j <= i ==> !Eol(t[j]);
      }
    }
  }

  lemma {:induction false} CommentRun(t: Input, p: nat)
    requires p < |t|
    ensures forall i :: p <= i < CommentEnd(t, p) ==> !Eol(t[i])
    decreases |t| - p
  {
    if t[p] != 0 && !Eol(t[p]) {
      CommentRun(t, p + 1);
    }
  }

  lemma CommentedFrom(t: seq<Unit>, p: nat, s: nat, i: nat)
    requires p <= s && Commented(t, s, i)
    ensures Commented(t, p, i)
  {
  }

  /** `x` is the first tab of `t[p..q]`, or -1. */
  ghost predicate IsFirstTab(t: seq<Unit>, p: nat, q: nat, x: int)
    requires q <= |t|
  {
    if x == -1 then forall i :: p <= i < q ==> t[i] != 0x09
    else p <= x < q && t[x] == 0x09 && forall i :: p <= i < x ==> t[i] != 0x09
  }

  lemma {:induction false} FirstTabLaw(t: Input, p: nat, q: nat)
    requires p <= q < |t|
    ensures IsFirstTab(t, p, q, FirstTab(t, p, q))
    decreases q - p
  {
    if p < q && t[p] != 0x09 {
      FirstTabLaw(t, p + 1, q);
    }
  }

  /** What `skipSeparationSpace` says of the line it ends in: the spaces at its start and
    * its first tab. */
  lemma {:induction false} SkipLine(t: Input, p: nat, line: Line)
    requires p < |t|
    ensures var r := Skip(t, p, line, false);
      && (r.1 == 0 && line.firstTab == -1 ==> r.2.indent == line.indent && IsFirstTab(t, p, r.0, r.2.firstTab))
      && (r.1 == 0 && line.firstTab != -1 ==> r.2 == line)
      && (r.1 > 0 ==>
           && r.2.start + r.2.indent <= r.0 && t[r.2.start + r.2.indent] != 0x20
           && (forall i :: r.2.start <= i < r.2.start + r.2.indent ==> t[i] == 0x20)
           && IsFirstTab(t, r.2.start, r.0, r.2.firstTab))
    decreases |t| - p
  {
    hide BlankEnd, SpaceEnd, FirstTab;
    var c := BlankEnd(t, p);
    if Eol(t[c]) {
      var n := BreakEnd(t, c);
      var s := SpaceEnd(t, n);
      SpaceRun(t, n);
      SkipLine(t, s, Line(n, s - n, -1));
      SkipStart(t, s, Line(n, s - n, -1));
    } else {
      FirstTabLaw(t, p, c);
    }
  }

  lemma SkipStart(t: Input, p: nat, line: Line)
    requires p < |t|
    ensures var r := Skip(t, p, line, false); r.1 == 0 ==> r.2.start == line.start && r.2.indent == line.indent
  {
  }

  // ----------------------------------------------------- one unit of the scan

  lemma ScanEnd(t: Input, p: nat, line: Line, out: seq<Unit>, seg: seq<Unit>, white: seq<Unit>)
    requires p < |t| && t[p] == 0
    ensures Scan(t, p, line, out, seg, white) == Err(EndOfStream)
  {}

  lemma ScanQuote(t: Input, p: nat, line: Line, out: seq<Unit>, seg: seq<Unit>, white: seq<Unit>)
    requires p < |t| && t[p] == Quote
    ensures Scan(t, p, line, out, seg, white)
         == if Json(seg) then Ok(Quoted(out + (seg + white), p + 1, line)) else Err(BadCharacter)
  {
    Assoc(out, seg, white);
  }

  lemma ScanBackslash(t: Input, p: nat, line: Line, out: seq<Unit>, seg: seq<Unit>, white: seq<Unit>)
    requires p < |t| && t[p] == Backslash
    ensures !Json(seg) ==> Scan(t, p, line, out, seg, white) == Err(BadCharacter)
    ensures Json(seg) ==> p + 1 < |t|
    ensures Json(seg) ==>
      Scan(t, p, line, out, seg, white) ==
      match AfterBackslash(t, p + 1, line)
      case Err(e) => Err(e)
      case Ok(r) => Scan(t, r.0, r.1, out + (seg + white) + r.2, [], [])
  {
    Assoc(out, seg, white);
  }

  lemma ScanBreak(t: Input, p: nat, line: Line, out: seq<Unit>, seg: seq<Unit>, white: seq<Unit>)
    requires p < |t| && Eol(t[p])
    ensures Scan(t, p, line, out, seg, white)
         == if !Json(seg) then Err(BadCharacter)
            else var r := Skip(t, p, line, false); Scan(t, r.0, r.2, out + seg + Folded(r.1), [], [])
  {}

  lemma ScanOther(t: Input, p: nat, line: Line, out: seq<Unit>, seg: seq<Unit>, white: seq<Unit>)
    requires p < |t| && t[p] != 0 && t[p] != Quote && t[p] != Backslash && !Eol(t[p])
    ensures p + 1 < |t|
    ensures Scan(t, p, line, out, seg, white)
         == if p == line.start && Separator(t, p) then Err(EndOfDocument)
            else if Blank(t[p]) then Scan(t, p + 1, line, out, seg, white + [t[p]])
            else Scan(t, p + 1, line, out, seg + white + [t[p]], [])
  {}

  // -------------------------------------------------------------- round trip

  /** `x` stands at `p`, with more text after it. */
  predicate At(t: seq<Unit>, p: nat, x: seq<Unit>) {
    p + |x| < |t| && t[p..p + |x|] == x
  }

  lemma AtBoth(t: seq<Unit>, p: nat, a: seq<Unit>, b: seq<Unit>)
    requires At(t, p, a + b)
    ensures At(t, p, a) && At(t, p + |a|, b)
  {
    var m := p + |a| + |b|;
    assert t[p..p + |a|] == t[p..m][..|a|] == a;
    assert t[p + |a|..m] == t[p..m][|a|..] == b;
  }

  lemma AtIndex(t: seq<Unit>, p: nat, x: seq<Unit>)
    requires At(t, p, x)
    ensures p + |x| < |t| && forall i :: p <= i < p + |x| ==> t[i] == x[i - p]
  {
    forall i | p <= i < p + |x| ensures t[i] == x[i - p] {
      assert t[i] == t[p..p + |x|][i - p];
    }
  }

  lemma AtTail(t: seq<Unit>, p: nat, x: seq<Unit>, k: nat)
    requires At(t, p, x) && k <= |x|
    ensures At(t, p + k, x[k..])
  {
    assert x == x[..k] + x[k..];
    AtBoth(t, p, x[..k], x[k..]);
  }

  lemma AtUnit(t: seq<Unit>, p: nat, u: Unit)
    requires At(t, p, [u])
    ensures t[p] == u
  {
    assert t[p] == t[p..p + 1][0];
  }

  lemma AtMiddle(before: seq<Unit>, x: seq<Unit>, after: seq<Unit>)
    requires after != []
    ensures At(before + x + after, |before|, x) && (before + x + after)[|before| + |x|] == after[0]
  {}

  /** A unit that stands for itself inside the quotes. */
  lemma PlainUnit(t: Input, p: nat, line: Line, out: seq<Unit>, seg: seq<Unit>, white: seq<Unit>)
    returns (seg': seq<Unit>, white': seq<Unit>)
    requires p < |t| && line.start < p && Json(seg) && Json(white)
    requires t[p] >= 0x20 && t[p] != Quote && t[p] != Backslash
    ensures p + 1 < |t| && Scan(t, p, line, out, seg, white) == Scan(t, p + 1, line, out, seg', white')
    ensures Json(seg') && Json(white') && out + seg' + white' == out + seg + white + [t[p]]
  {
    if Blank(t[p]) {
      seg', white' := seg, white + [t[p]];
      assert out + seg + (white + [t[p]]) == out + seg + white + [t[p]];
    } else {
      seg', white' := seg + white + [t[p]], [];
      assert out + (seg + white + [t[p]]) + [] == out + seg + white + [t[p]];
    }
  }

  lemma ShortEscapeBack(c: nat)
    requires ShortEscape(c).Some?
    ensures var e := ShortEscape(c).value; e < 256 && !Eol(e) && c < 0x1_0000 && SimpleEscape(e) == [c]
  {}

  lemma {:induction false} HexMore(t: Input, p: nat, n: nat, r: int)
    requires p + n < |t| && HexValue(t, p, n, r).Some? && FromHexCode(t[p + n]) >= 0
    ensures HexValue(t, p, n + 1, r) == Some(ToInt32(16 * HexValue(t, p, n, r).value) + FromHexCode(t[p + n]))
    decreases n
  {
    if n > 0 {
      HexMore(t, p + 1, n - 1, ToInt32(16 * r) + FromHexCode(t[p]));
    }
  }

  lemma {:induction false} HexZeros(t: Input, p: nat, k: nat)
    requires p + k < |t| && forall i :: p <= i < p + k ==> t[i] == 48
    ensures HexValue(t, p, k, 0) == Some(0)
    decreases k
  {
    if k > 0 {
      HexZeros(t, p + 1, k - 1);
    }
  }

  /** Digits after `k` zeros give the number back. */
  lemma {:induction false} HexBack(t: Input, p: nat, k: nat, x: nat)
    requires x < 0x100_0000 && p + k + |Hex(x)| < |t|
    requires forall i :: p <= i < p + k ==> t[i] == 48
    requires At(t, p + k, Hex(x))
    ensures HexValue(t, p, k + |Hex(x)|, 0) == Some(x)
    decreases x
  {
    hide HexValue, At;
    if x < 16 {
      HexZeros(t, p, k);
      AtUnit(t, p + k, HexDigit(x));
      HexMore(t, p, k, 0);
    } else {
      var h := Hex(x / 16);
      AtBoth(t, p + k, h, [HexDigit(x % 16)]);
      AtUnit(t, p + k + |h|, HexDigit(x % 16));
      HexBack(t, p, k, x / 16);
      HexMore(t, p, k + |h|, 0);
    }
  }

  lemma {:induction false} PadIs(width: nat, h: seq<Unit>)
    ensures var k := if |h| < width then width - |h| else 0;
      && |Pad(width, h)| == k + |h|
      && Pad(width, h)[k..] == h
      && forall i :: 0 <= i < k ==> Pad(width, h)[i] == 48
    decreases width - |h|
  {
    if |h| < width {
      PadIs(width, [48] + h);
      var q := Pad(width, h);
      var k := width - |h|;
      assert q[k..] == q[k - 1..][1..];
      assert q[k - 1] == q[k - 1..][0] == 48;
    }
  }

  lemma HexLengths(x: nat)
    ensures x < 0x100 ==> |Hex(x)| <= 2
    ensures x < 0x1_0000 ==> |Hex(x)| <= 4
  {
    assert |Hex(x)| == 1 || |Hex(x)| == 1 + |Hex(x / 16)|;
    assert |Hex(x / 16)| == 1 || |Hex(x / 16)| == 1 + |Hex(x / 16 / 16)|;
    assert x < 0x100 ==> x / 16 < 16;
    assert x < 0x1_0000 ==> x / 16 / 16 / 16 < 16;
  }

  /** `\x` or `\u` and the digits of one unit. */
  lemma HexDigits(t: Input, p: nat, c: nat)
    requires c < 0x1_0000 && At(t, p, EncodeHex(c))
    ensures t[p] == Backslash && t[p + 1] == if c <= 0xFF then 120 else 117
    ensures |EncodeHex(c)| == 2 + HexLength(t[p + 1])
    ensures HexValue(t, p + 2, HexLength(t[p + 1]), 0) == Some(c)
  {
    hide HexValue, Hex, Pad, At;
    HexLengths(c);
    var e, width := EncodeHex(c), if c <= 0xFF then 2 else 4;
    PadIs(width, Hex(c));
    var k := width - |Hex(c)|;
    assert e == [Backslash, if c <= 0xFF then 120 else 117] + Pad(width, Hex(c));
    AtBoth(t, p, [Backslash, if c <= 0xFF then 120 else 117], Pad(width, Hex(c)));
    AtIndex(t, p + 2, Pad(width, Hex(c)));
    AtTail(t, p + 2, Pad(width, Hex(c)), k);
    AtIndex(t, p, [Backslash, if c <= 0xFF then 120 else 117]);
    HexBack(t, p + 2, k, c);
  }

  lemma HexEscape(t: Input, p: nat, line: Line, out: seq<Unit>, seg: seq<Unit>, white: seq<Unit>, c: nat)
    requires Json(seg) && c < 0x1_0000
    requires At(t, p, EncodeHex(c))
    ensures Scan(t, p, line, out, seg, white)
         == Scan(t, p + |EncodeHex(c)|, line, out + seg + white + [c], [], [])
  {
    hide EncodeHex, HexValue;
    HexDigits(t, p, c);
    assert SimpleEscape(t[p + 1]) == [];
    assert CharFromCodepoint(c) == [c];
  }

  lemma ShortStep(t: Input, p: nat, line: Line, out: seq<Unit>, seg: seq<Unit>, white: seq<Unit>, c: nat)
    requires Json(seg) && p + 2 < |t| && ShortEscape(c).Some?
    requires t[p] == Backslash && t[p + 1] == ShortEscape(c).value
    ensures c < 0x1_0000
    ensures Scan(t, p, line, out, seg, white) == Scan(t, p + 2, line, out + seg + white + [c], [], [])
  {
    ShortEscapeBack(c);
    hide ShortEscape, SimpleEscape;
  }

  /** One escaped code point is read back. */
  lemma ReadsOne(s: seq<Unit>, i: nat, t: Input, p: nat, line: Line, out: seq<Unit>, seg: seq<Unit>, white: seq<Unit>)
    returns (out': seq<Unit>, seg': seq<Unit>, white': seq<Unit>)
    requires i < |s| && line.start < p && Json(seg) && Json(white)
    requires At(t, p, EscapeOne(s, i))
    ensures Json(seg') && Json(white')
    ensures out' + seg' + white' == out + seg + white + s[i..i + CodePointAt(s, i).1]
    ensures Scan(t, p, line, out, seg, white) == Scan(t, p + |EscapeOne(s, i)|, line, out', seg', white')
  {
    hide ShortEscape, Scan, EncodeHex;
    var e := EscapeOne(s, i);
    var (c, n) := CodePointAt(s, i);
    if ShortEscape(c).Some? {
      assert t[p] == e[0] && t[p + 1] == e[1];
      ShortStep(t, p, line, out, seg, white, c);
      out', seg', white' := out + seg + white + [c], [], [];
      assert s[i..i + n] == [c];
    } else if Printable(c) {
      PrintedUnits(s, i);
      assert t[p] == e[0] == s[i];
      out' := out;
      seg', white' := PlainUnit(t, p, line, out, seg, white);
      if n == 2 {
        assert t[p + 1] == e[1] == s[i + 1];
        seg', white' := PlainUnit(t, p + 1, line, out, seg', white');
        assert s[i..i + n] == [s[i]] + [s[i + 1]];
        Assoc(out + seg + white, [s[i]], [s[i + 1]]);
      } else {
        assert s[i..i + n] == [s[i]];
      }
    } else {
      HexEscape(t, p, line, out, seg, white, c);
      out', seg', white' := out + seg + white + [c], [], [];
      assert s[i..i + n] == [c];
    }
  }

  lemma PrintedUnits(s: seq<Unit>, i: nat)
    requires i < |s| && Printable(CodePointAt(s, i).0) && ShortEscape(CodePointAt(s, i).0).None?
    ensures s[i] >= 0x20 && s[i] != Quote && s[i] != Backslash
    ensures CodePointAt(s, i).1 == 2 ==> s[i + 1] >= 0x20 && s[i + 1] != Quote && s[i + 1] != Backslash
  {}

  lemma ReadsEnd(t: Input, p: nat, line: Line, out: seq<Unit>, seg: seq<Unit>, white: seq<Unit>)
    requires p < |t| && t[p] == Quote && Json(seg)
    ensures Scan(t, p, line, out, seg, white) == Ok(Quoted(out + seg + white, p + 1, line))
  {}

  lemma Rest(s: seq<Unit>, i: nat, n: nat)
    requires i + n <= |s|
    ensures s[i..] == s[i..i + n] + s[i + n..]
  {}

  lemma {:induction false} ReadsAll(s: seq<Unit>, i: nat, t: Input, p: nat, line: Line,
                                    out: seq<Unit>, seg: seq<Unit>, white: seq<Unit>)
    requires i <= |s| && line.start < p && Json(seg) && Json(white)
    requires At(t, p, Escape(s, i))
    requires t[p + |Escape(s, i)|] == Quote
    ensures Scan(t, p, line, out, seg, white)
         == Ok(Quoted(out + seg + white + s[i..], p + |Escape(s, i)| + 1, line))
    decreases |s| - i
  {
    hide Scan, EscapeOne, CodePointAt;
    if i == |s| {
      ReadsEnd(t, p, line, out, seg, white);
      assert out + seg + white + s[i..] == out + seg + white;
    } else {
      var a, n := EscapeOne(s, i), CodePointAt(s, i).1;
      var b := Escape(s, i + n);
      assert Escape(s, i) == a + b;
      AtBoth(t, p, a, b);
      var out', seg', white' := ReadsOne(s, i, t, p, line, out, seg, white);
      ReadsAll(s, i + n, t, p + |a|, line, out', seg', white');
      Assoc(out + seg + white, s[i..i + n], s[i + n..]);
      Rest(s, i, n);
    }
  }

  /** For every text, quoted anywhere after the start of a line: the scalar read
    * is the text, and it ends just past the closing quote. */
  lemma QuotedRoundTrip(s: seq<Unit>, before: seq<Unit>, after: seq<Unit>, line: Line)
    requires after != [] && after[|after| - 1] == 0 && line.start <= |before|
    ensures var t := before + [Quote] + Escape(s, 0) + [Quote] + after;
      Scan(t, |before| + 1, line, [], [], []) == Ok(Quoted(s, |before| + |Escape(s, 0)| + 2, line))
  {
    hide Scan, Escape, At;
    var e := Escape(s, 0);
    AtMiddle(before + [Quote], e, [Quote] + after);
    Assoc(before + [Quote] + e, [Quote], after);
    ReadsAll(s, 0, before + [Quote] + e + [Quote] + after, |before| + 1, line, [], [], []);
    assert [] + [] + [] + s[0..] == s;
  }

  /** The quoted text has no control character, so neither the loader's search
    * for a null byte nor a line break can cut it. */
  lemma {:induction false} NoControls(s: seq<Unit>, i: nat)
    requires i <= |s|
    ensures forall k :: 0 <= k < |Escape(s, i)| ==> Escape(s, i)[k] >= 0x20
    decreases |s| - i
  {
    hide EscapeOne, CodePointAt;
    if i < |s| {
      NoControlsIn(s, i);
      NoControls(s, i + CodePointAt(s, i).1);
      NoneInBoth(EscapeOne(s, i), Escape(s, i + CodePointAt(s, i).1));
    }
  }

  lemma NoneInBoth(a: seq<Unit>, b: seq<Unit>)
    requires forall k :: 0 <= k < |a| ==> a[k] >= 0x20
    requires forall k :: 0 <= k < |b| ==> b[k] >= 0x20
    ensures forall k :: 0 <= k < |a + b| ==> (a + b)[k] >= 0x20
  {}

  lemma NoControlsIn(s: seq<Unit>, i: nat)
    requires i < |s|
    ensures forall k :: 0 <= k < |EscapeOne(s, i)| ==> EscapeOne(s, i)[k] >= 0x20
  {
    hide Pad, Hex, CodePointAt;
    var (c, n) := CodePointAt(s, i);
    if ShortEscape(c).None? {
      if Printable(c) {
        PrintedUnits(s, i);
      } else {
        HexUnits(c);
        PadIs(if c <= 0xFF then 2 else if c <= 0xFFFF then 4 else 8, Hex(c));
      }
    }
  }

  lemma {:induction false} HexUnits(x: nat)
    ensures forall k :: 0 <= k < |Hex(x)| ==> Hex(x)[k] >= 0x20
  {
    if x >= 16 {
      HexUnits(x / 16);
    }
  }
}
