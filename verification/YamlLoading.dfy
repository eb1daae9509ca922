/** What a double-quoted scalar means, item by item, as sections 5.7, 7.3.1 and 6.5 of
  * YAML 1.2.2 say it, and that the loader reads just that. */
module YamlLoading {
  import opened Basics
  import opened Wrappers
  import opened Utf8
  import opened YamlQuoted
  import opened YamlScanner

  /** The escapes of one unit: what stands after the backslash, and what it means. */
  const ESCAPES: seq<(Unit, Unit)> := [
    (0x30, 0x00), (0x61, 0x07), (0x62, 0x08), (0x74, 0x09), (0x09, 0x09), (0x6E, 0x0A),
    (0x76, 0x0B), (0x66, 0x0C), (0x72, 0x0D), (0x65, 0x1B), (0x20, 0x20), (0x22, 0x22),
    (0x2F, 0x2F), (0x5C, 0x5C), (0x4E, 0x85), (0x5F, 0xA0), (0x4C, 0x2028), (0x50, 0x2029)]

  /** Hexadecimal digits, in either case. */
  const LOWER_HEX: string := "0123456789abcdef"
  const UPPER_HEX: string := "0123456789ABCDEF"

  datatype Digit = Digit(value: nat, upper: bool)

  datatype Item =
    | Self(u: Unit)
    | Space(u: Unit)
    | Short(e: Unit, u: Unit)
    | Code(digits: seq<Digit>)
    | Fold(gap: seq<Unit>)
    | Glue(gap: seq<Unit>)

  // ------------------------------------------------------------ how it looks

  function DigitUnit(d: Digit): Unit
    requires d.value < 16
  {
    (if d.upper then UPPER_HEX[d.value] else LOWER_HEX[d.value]) as int % 0x1_0000
  }

  function DigitUnits(ds: seq<Digit>): (r: seq<Unit>)
    requires forall i :: 0 <= i < |ds| ==> ds[i].value < 16
    ensures |r| == |ds|
  {
    seq(|ds|, i requires 0 <= i < |ds| => DigitUnit(ds[i]))
  }

  /** `\x`, `\u` and `\U` take two, four and eight digits. */
  function CodeMark(n: nat): Unit {
    if n == 2 then 0x78 else if n == 4 then 0x75 else 0x55
  }

  function Source1(x: Item): seq<Unit>
    requires Good(x)
  {
    match x
    case Self(u) => [u]
    case Space(u) => [u]
    case Short(e, _) => [Backslash, e]
    case Code(ds) => [Backslash, CodeMark(|ds|)] + DigitUnits(ds)
    case Fold(gap) => gap
    case Glue(gap) => [Backslash] + gap
  }

  function Source(items: seq<Item>): seq<Unit>
    requires AllGood(items)
  {
    if items == [] then [] else Source1(items[0]) + Source(items[1..])
  }

  // ----------------------------------------------------------- what it means

  function Number(ds: seq<Digit>): nat {
    if ds == [] then 0 else 16 * Number(ds[..|ds| - 1]) + ds[|ds| - 1].value
  }

  /** One line break is a space; of several, all but one stay. */
  function Meaning1(x: Item): seq<Unit>
    requires Good(x)
  {
    match x
    case Self(u) => [u]
    case Space(u) => [u]
    case Short(_, u) => [u]
    case Code(ds) => if Number(ds) < 0x1_0000 then [Number(ds)] else Units(Number(ds))
    case Fold(gap) =>
      var n := LineBreaks(gap, 0, |gap|);
      if n == 1 then [0x20] else seq(n - 1, _ => 0x0A)
    case Glue(_) => []
  }

  function Meaning(items: seq<Item>): seq<Unit>
    requires AllGood(items)
  {
    if items == [] then [] else Meaning1(items[0]) + Meaning(items[1..])
  }

  // ------------------------------------------------------------ what is good

  /** Blanks and at least one line break. */
  predicate Gap(gap: seq<Unit>) {
    (forall i :: 0 <= i < |gap| ==> Blank(gap[i]) || Eol(gap[i])) && LineBreaks(gap, 0, |gap|) >= 1
  }

  predicate Good(x: Item) {
    match x
    case Self(u) => u > 0x20 && u != Quote && u != Backslash
    case Space(u) => u == 0x20 || u == 0x09
    case Short(e, u) => (e, u) in ESCAPES
    case Code(ds) =>
      && (|ds| == 2 || |ds| == 4 || |ds| == 8) && Number(ds) < 0x11_0000
      && forall i :: 0 <= i < |ds| ==> ds[i].value < 16
    case Fold(gap) => Gap(gap)
    case Glue(gap) => Gap(gap) && Eol(gap[0])
  }

  predicate AllGood(items: seq<Item>) {
    forall i :: 0 <= i < |items| ==> Good(items[i])
  }

  /** A gap has all the blanks around it. */
  predicate Joined(x: Item, y: Item) {
    (y.Fold? ==> !x.Space?) && (x.Fold? || x.Glue? ==> !y.Space? && !y.Fold?)
  }

  predicate AllJoined(items: seq<Item>) {
    forall i :: 0 < i < |items| ==> Joined(items[i - 1], items[i])
  }

  /** No line starts with a document marker: three dashes or dots and then a blank, a
    * line break or the end. */
  predicate Marker(t: Input, p: nat) {
    && p + 3 < |t| && (t[p..p + 3] == [0x2D, 0x2D, 0x2D] || t[p..p + 3] == [0x2E, 0x2E, 0x2E])
    && t[p + 3] in {0, 0x20, 0x09, 0x0A, 0x0D}
  }

  ghost predicate NoMarker(t: Input, p: nat, q: nat) {
    forall i :: p < i < q <= |t| && Eol(t[i - 1]) ==> !Marker(t, i)
  }

  lemma MarkerIs(t: Input, p: nat)
    requires p < |t|
    ensures Separator(t, p) <==> Marker(t, p)
  {
    if p + 3 < |t| {
      assert t[p..p + 3] == [t[p], t[p + 1], t[p + 2]];
    }
  }

  lemma EscapesTable(e: Unit, u: Unit)
    requires (e, u) in ESCAPES
    ensures e < 256 && !Eol(e) && SimpleEscape(e) == [u]
  {
  }

  predicate InTable(e: Unit) {
    exists i :: 0 <= i < |ESCAPES| && ESCAPES[i].0 == e
  }

  /** There are no others. */
  lemma EscapesOnly(e: Unit)
    ensures SimpleEscape(e) != [] <==> InTable(e)
  {
    if SimpleEscape(e) != [] {
      var u := SimpleEscape(e)[0];
      assert (e, u) in ESCAPES;
    }
    if InTable(e) {
      var i :| 0 <= i < |ESCAPES| && ESCAPES[i].0 == e;
      assert (e, ESCAPES[i].1) in ESCAPES;
      EscapesTable(e, ESCAPES[i].1);
    }
  }

  lemma DigitsTable(d: Digit)
    requires d.value < 16
    ensures FromHexCode(DigitUnit(d)) == d.value && (d.upper ==> HexDigit(d.value) == DigitUnit(d))
  {
    match d.value
    case 0 => case 1 => case 2 => case 3 => case 4 => case 5 => case 6 => case 7 =>
    case 8 => case 9 => case 10 => case 11 => case 12 => case 13 => case 14 => case _ =>
  }

  // ---------------------------------------------------------------- one item

  /** The loader inside a line: what it has done, the text since, and blanks at its end. */
  datatype Point = Point(at: nat, line: Line, out: seq<Unit>, seg: seq<Unit>, white: seq<Unit>)

  function Done(x: Point): seq<Unit> {
    x.out + x.seg + x.white
  }

  function ScanAt(t: Input, x: Point): Result<Quoted, ScalarError>
    requires x.at < |t|
  {
    Scan(t, x.at, x.line, x.out, x.seg, x.white)
  }

  /** The loader is past the start of the scalar, at `p0`, and knows its line. */
  ghost predicate Reads(t: Input, p0: nat, x: Point) {
    && p0 <= x.at < |t| && Json(x.seg) && Json(x.white)
    && x.line.start <= x.at && (x.line.start < p0 || (p0 < x.line.start && Eol(t[x.line.start - 1])))
  }

  /** What one item leads to. */
  ghost predicate Leads(t: Input, p0: nat, x: Point, y: Point, i: Item)
    requires Good(i)
  {
    && Reads(t, p0, y) && y.at == x.at + |Source1(i)| && (x.at < |t| ==> ScanAt(t, x) == ScanAt(t, y))
    && Done(y) == Done(x) + Meaning1(i) && (!i.Space? ==> y.white == [])
  }

  /** A unit that stands for itself, or a blank. */
  lemma ReadsUnit(t: Input, p0: nat, x: Point, i: Item) returns (y: Point)
    requires Reads(t, p0, x) && (i.Self? || i.Space?) && Good(i) && At(t, x.at, [i.u])
    requires x.at == x.line.start ==> !Marker(t, x.at)
    ensures Leads(t, p0, x, y, i)
  {
    AtUnit(t, x.at, i.u);
    MarkerIs(t, x.at);
    hide Separator, Scan;
    ScanOther(t, x.at, x.line, x.out, x.seg, x.white);
    if i.Space? {
      y := x.(at := x.at + 1, white := x.white + [i.u]);
      assert Done(y) == Done(x) + [i.u];
    } else {
      y := x.(at := x.at + 1, seg := x.seg + x.white + [i.u], white := []);
      assert Done(y) == Done(x) + [i.u];
    }
  }

  lemma ReadsShort(t: Input, p0: nat, x: Point, i: Item) returns (y: Point)
    requires Reads(t, p0, x) && i.Short? && Good(i) && At(t, x.at, Source1(i))
    ensures Leads(t, p0, x, y, i)
  {
    AtIndex(t, x.at, Source1(i));
    EscapesTable(i.e, i.u);
    hide Scan, SimpleEscape;
    assert t[x.at] == Backslash && t[x.at + 1] == i.e;
    ScanBackslash(t, x.at, x.line, x.out, x.seg, x.white);
    y := Point(x.at + 2, x.line, x.out + (x.seg + x.white) + [i.u], [], []);
    assert Done(y) == Done(x) + [i.u];
  }

  /** The digits of a code, after the value `r` of those before. */
  lemma {:induction false} ReadsDigits(t: Input, p: nat, ds: seq<Digit>, k: nat)
    requires k <= |ds| && Number(ds) < 0x11_0000 && forall i :: 0 <= i < |ds| ==> ds[i].value < 16
    requires p + |ds| < |t| && forall i :: 0 <= i < |ds| ==> t[p + i] == DigitUnit(ds[i])
    ensures HexValue(t, p + k, |ds| - k, Number(ds[..k])) == Some(Number(ds))
    decreases |ds| - k
  {
    if k == |ds| {
      assert ds[..k] == ds;
    } else {
      hide HexValue;
      DigitsMore(t, p, ds, k);
      ReadsDigits(t, p, ds, k + 1);
    }
  }

  lemma DigitsMore(t: Input, p: nat, ds: seq<Digit>, k: nat)
    requires k < |ds| && Number(ds) < 0x11_0000 && forall i :: 0 <= i < |ds| ==> ds[i].value < 16
    requires p + |ds| < |t| && forall i :: 0 <= i < |ds| ==> t[p + i] == DigitUnit(ds[i])
    ensures HexValue(t, p + k, |ds| - k, Number(ds[..k])) == HexValue(t, p + k + 1, |ds| - k - 1, Number(ds[..k + 1]))
  {
    NumberMore(ds, k);
    DigitsTable(ds[k]);
    NumberGrows(ds, k + 1);
    assert t[p + k] == DigitUnit(ds[k]);
    hide Number, DigitUnit, FromHexCode;
    SmallDigits(Number(ds[..k]));
  }

  lemma NumberMore(ds: seq<Digit>, k: nat)
    requires k < |ds|
    ensures Number(ds[..k + 1]) == 16 * Number(ds[..k]) + ds[k].value
  {
    assert ds[..k + 1][..k] == ds[..k];
  }

  lemma SmallDigits(r: nat)
    requires 16 * r < 0x11_0000
    ensures ToInt32(16 * r) == 16 * r
  {
  }

  lemma {:induction false} NumberGrows(ds: seq<Digit>, k: nat)
    requires k <= |ds|
    ensures Number(ds[..k]) <= Number(ds)
    decreases |ds| - k
  {
    if k == |ds| {
      assert ds[..k] == ds;
    } else {
      NumberGrows(ds, k + 1);
      assert ds[..k + 1][..k] == ds[..k];
    }
  }

  /** Above FFFF, the surrogate pair of the code point. */
  lemma CodeUnits(c: nat)
    requires c < 0x11_0000
    ensures CharFromCodepoint(c) == if c < 0x1_0000 then [c] else Units(c)
    ensures c >= 0x1_0000 ==>
      |Units(c)| == 2 && Lead(Units(c)[0]) && Trail(Units(c)[1]) && Combine(Units(c)[0], Units(c)[1]) == c
  {
  }

  lemma ReadsCode(t: Input, p0: nat, x: Point, i: Item) returns (y: Point)
    requires Reads(t, p0, x) && i.Code? && Good(i) && At(t, x.at, Source1(i))
    ensures Leads(t, p0, x, y, i)
  {
    hide Scan, Number, AfterBackslash, DigitUnits, At;
    CodeAfter(t, x.at, x.line, i);
    AtIndex(t, x.at, Source1(i));
    assert t[x.at] == Backslash;
    ScanBackslash(t, x.at, x.line, x.out, x.seg, x.white);
    y := Point(x.at + 2 + |i.digits|, x.line, x.out + (x.seg + x.white) + Meaning1(i), [], []);
    hide Meaning1;
    assert Done(y) == Done(x) + Meaning1(i);
  }

  lemma CodeAfter(t: Input, p: nat, line: Line, i: Item)
    requires i.Code? && Good(i) && At(t, p, Source1(i))
    ensures AfterBackslash(t, p + 1, line) == Ok((p + 2 + |i.digits|, line, Meaning1(i)))
  {
    hide HexValue, Number, DigitUnit, At, Source1, AfterBackslash, CharFromCodepoint, CodeMark, Meaning1;
    var ds := i.digits;
    CodeThere(t, p, i);
    ReadsDigits(t, p + 2, ds, 0);
    assert ds[..0] == [];
    CodeMarks(|ds|);
    CodeMeans(i);
    hide *;
    AfterCode(t, p + 1, line, |ds|, Number(ds));
  }

  lemma CodeMeans(i: Item)
    requires i.Code? && Good(i)
    ensures CharFromCodepoint(Number(i.digits)) == Meaning1(i) && Number([]) == 0
  {
    CodeUnits(Number(i.digits));
    hide Number;
  }

  lemma CodeThere(t: Input, p: nat, i: Item)
    requires i.Code? && Good(i) && At(t, p, Source1(i))
    ensures p + 2 + |i.digits| < |t| && t[p + 1] == CodeMark(|i.digits|)
    ensures forall k :: 0 <= k < |i.digits| ==> t[p + 2 + k] == DigitUnit(i.digits[k])
  {
    hide DigitUnit;
    var ds := i.digits;
    AtIndex(t, p, Source1(i));
    forall k | 0 <= k < |ds| ensures t[p + 2 + k] == DigitUnit(ds[k]) {
      assert Source1(i)[2 + k] == DigitUnits(ds)[k];
    }
  }

  /** An escape with `n` digits of value `c`. */
  lemma AfterCode(t: Input, p: nat, line: Line, n: nat, c: nat)
    requires n > 0 && p + 1 + n < |t| && HexValue(t, p + 1, n, 0) == Some(c)
    requires t[p] < 256 && !Eol(t[p]) && SimpleEscape(t[p]) == [] && HexLength(t[p]) == n
    ensures AfterBackslash(t, p, line) == Ok((p + 1 + n, line, CharFromCodepoint(c)))
  {
    hide HexValue, CharFromCodepoint, Eol, SimpleEscape, HexLength;
  }

  lemma CodeMarks(n: nat)
    requires n == 2 || n == 4 || n == 8
    ensures var m := CodeMark(n); m < 256 && !Eol(m) && SimpleEscape(m) == [] && HexLength(m) == n
  {
  }

  /** The blanks in front of a line break. */
  lemma {:induction false} ReadsBlanks(t: Input, x: Point, k: nat)
    requires x.at + k < |t| && forall i :: x.at <= i < x.at + k ==> Blank(t[i])
    ensures ScanAt(t, x) == ScanAt(t, x.(at := x.at + k, white := x.white + t[x.at..x.at + k]))
    decreases k
  {
    hide Scan;
    if k == 0 {
      assert x.white + t[x.at..x.at] == x.white;
    } else {
      ScanOther(t, x.at, x.line, x.out, x.seg, x.white);
      var y := x.(at := x.at + 1, white := x.white + [t[x.at]]);
      ReadsBlanks(t, y, k - 1);
      assert y.white + t[y.at..x.at + k] == x.white + t[x.at..x.at + k];
    }
  }

  /** The line breaks of a part of the text. */
  lemma {:induction false} LineBreaksIn(t: seq<Unit>, p: nat, q: nat, i: nat)
    requires p <= q <= |t| && i <= q - p
    ensures LineBreaks(t[p..q], i, q - p) == LineBreaks(t, p + i, q)
    decreases q - p - i
  {
    var g := t[p..q];
    if i < q - p {
      assert g[i] == t[p + i] && (i + 1 < q - p ==> g[i + 1] == t[p + i + 1]);
      LineBreaksIn(t, p, q, i + 1);
      if i + 2 <= q - p {
        LineBreaksIn(t, p, q, i + 2);
      }
    }
  }

  /** `skipSeparationSpace` from a line break inside a gap takes the rest of the gap. */
  lemma SkipsGap(t: Input, e: nat, q: nat, line: Line)
    requires e < q < |t| && Eol(t[e]) && !Blank(t[q]) && !Eol(t[q])
    requires forall i :: e <= i < q ==> Blank(t[i]) || Eol(t[i])
    ensures var r := Skip(t, e, line, false);
      && r.0 == q && r.1 == LineBreaks(t, e, q) && r.1 >= 1
      && e < r.2.start <= q && Eol(t[r.2.start - 1]) && forall i :: r.2.start <= i < q ==> Blank(t[i])
  {
    hide Skip, LineBreaks;
    SkipTakesAll(t, e, line, false);
    var r := Skip(t, e, line, false);
    forall i | r.2.start <= i < r.0 && r.1 > 0 ensures Blank(t[i]) {
      assert Spaced(t, e, i, false);
    }
    BreaksOne(t, e, q);
  }

  lemma BreaksOne(t: seq<Unit>, e: nat, q: nat)
    requires e < q <= |t| && Eol(t[e])
    ensures LineBreaks(t, e, q) >= 1
  {
  }

  /** The first line break of a gap. */
  lemma {:induction false} FirstBreak(gap: seq<Unit>, i: nat) returns (k: nat)
    requires i <= |gap| && LineBreaks(gap, i, |gap|) >= 1
    requires forall j :: 0 <= j < |gap| ==> Blank(gap[j]) || Eol(gap[j])
    ensures i <= k < |gap| && Eol(gap[k]) && LineBreaks(gap, k, |gap|) == LineBreaks(gap, i, |gap|)
    ensures forall j :: i <= j < k ==> Blank(gap[j])
    decreases |gap| - i
  {
    if Eol(gap[i]) {
      k := i;
    } else {
      k := FirstBreak(gap, i + 1);
    }
  }

  lemma ReadsFold(t: Input, p0: nat, x: Point, i: Item) returns (y: Point)
    requires Reads(t, p0, x) && i.Fold? && Good(i) && At(t, x.at, i.gap) && x.white == []
    requires !Blank(t[x.at + |i.gap|]) && !Eol(t[x.at + |i.gap|])
    ensures Leads(t, p0, x, y, i)
  {
    hide Scan, LineBreaks, Blank, Eol, Json;
    var line := FoldScan(t, x, i.gap);
    y := Point(x.at + |i.gap|, line, x.out + x.seg + Meaning1(i), [], []);
    hide Meaning1;
    JsonNone();
    assert Done(y) == Done(x) + Meaning1(i);
  }

  lemma JsonNone()
    ensures Json([])
  {
  }

  lemma FoldScan(t: Input, x: Point, gap: seq<Unit>) returns (line: Line)
    requires x.at + |gap| < |t| && Gap(gap) && At(t, x.at, gap) && x.white == [] && Json(x.seg)
    requires !Blank(t[x.at + |gap|]) && !Eol(t[x.at + |gap|])
    ensures x.at < line.start <= x.at + |gap| && Eol(t[line.start - 1])
    ensures forall i :: line.start <= i < x.at + |gap| ==> Blank(t[i])
    ensures ScanAt(t, x) == Scan(t, x.at + |gap|, line, x.out + x.seg + Meaning1(Fold(gap)), [], [])
  {
    hide Scan, Skip, Json, LineBreaks;
    var p := x.at;
    var q := p + |gap|;
    AtIndex(t, p, gap);
    var k := FirstBreak(gap, 0);
    ReadsBlanks(t, x, k);
    var e := p + k;
    SkipsGap(t, e, q, x.line);
    LineBreaksIn(t, p, q, k);
    assert t[p..q] == gap;
    hide Gap, Blank, Eol, At;
    ScanBreak(t, e, x.line, x.out, x.seg, x.white + t[p..e]);
    var r := Skip(t, e, x.line, false);
    line := r.2;
    FoldMeans(gap, r.1);
  }

  lemma FoldMeans(gap: seq<Unit>, n: nat)
    requires Gap(gap) && n == LineBreaks(gap, 0, |gap|)
    ensures Folded(n) == Meaning1(Fold(gap))
  {
    FoldedIs(n);
  }

  lemma FoldedIs(n: nat)
    requires n >= 1
    ensures Folded(n) == if n == 1 then [0x20] else seq(n - 1, _ => 0x0A)
  {
  }

  lemma ReadsGlue(t: Input, p0: nat, x: Point, i: Item) returns (y: Point)
    requires Reads(t, p0, x) && i.Glue? && Good(i) && At(t, x.at, Source1(i))
    requires !Blank(t[x.at + 1 + |i.gap|]) && !Eol(t[x.at + 1 + |i.gap|])
    ensures Leads(t, p0, x, y, i)
  {
    hide *;
    GlueIs(p0, t, x, i);
    var line := GlueScan(t, x, i.gap);
    y := Point(x.at + 1 + |i.gap|, line, x.out + (x.seg + x.white), [], []);
    PointIs(t, y);
    GlueLeads(t, p0, x, y, i);
  }

  lemma GlueIs(p0: nat, t: Input, x: Point, i: Item)
    requires Reads(t, p0, x) && i.Glue? && Good(i) && At(t, x.at, Source1(i))
    ensures Json(x.seg) && i == Glue(i.gap) && Source1(i) == [Backslash] + i.gap && x.at + 1 + |i.gap| < |t|
  {
    hide Gap, Json;
  }

  lemma PointIs(t: Input, y: Point)
    requires y.at < |t|
    ensures ScanAt(t, y) == Scan(t, y.at, y.line, y.out, y.seg, y.white)
  {
  }

  lemma GlueLeads(t: Input, p0: nat, x: Point, y: Point, i: Item)
    requires Reads(t, p0, x) && i.Glue? && Good(i) && y.at == x.at + 1 + |i.gap| < |t|
    requires x.at < y.line.start <= y.at && Eol(t[y.line.start - 1])
    requires y == Point(y.at, y.line, x.out + (x.seg + x.white), [], []) && ScanAt(t, x) == ScanAt(t, y)
    ensures Leads(t, p0, x, y, i)
  {
    hide Scan, ScanAt, LineBreaks, Gap, Blank, Eol;
    assert Done(y) == Done(x) + [];
  }

  lemma GlueScan(t: Input, x: Point, gap: seq<Unit>) returns (line: Line)
    requires Json(x.seg) && Good(Glue(gap)) && At(t, x.at, [Backslash] + gap)
    requires !Blank(t[x.at + 1 + |gap|]) && !Eol(t[x.at + 1 + |gap|])
    ensures x.at < line.start <= x.at + 1 + |gap| && Eol(t[line.start - 1])
    ensures ScanAt(t, x) == Scan(t, x.at + 1 + |gap|, line, x.out + (x.seg + x.white), [], [])
  {
    hide Scan, Good, Blank, Eol, AfterBackslash, Json, LineBreaks;
    line := GlueAfter(t, x.at, x.line, gap);
    AtIndex(t, x.at, [Backslash] + gap);
    ScanBackslash(t, x.at, x.line, x.out, x.seg, x.white);
    var out := x.out + (x.seg + x.white);
    assert out + [] == out;
  }

  lemma GlueAfter(t: Input, p: nat, line0: Line, gap: seq<Unit>) returns (line: Line)
    requires Good(Glue(gap)) && At(t, p, [Backslash] + gap)
    requires !Blank(t[p + 1 + |gap|]) && !Eol(t[p + 1 + |gap|])
    ensures p + 1 < line.start <= p + 1 + |gap| && Eol(t[line.start - 1])
    ensures AfterBackslash(t, p + 1, line0) == Ok((p + 1 + |gap|, line, []))
  {
    GapLong(gap);
    hide Skip, LineBreaks;
    var e, q := p + 1, p + 1 + |gap|;
    AtIndex(t, p, [Backslash] + gap);
    assert forall j :: e <= j < q ==> t[j] == gap[j - e];
    SkipsGap(t, e, q, line0);
    line := Skip(t, e, line0, false).2;
  }

  lemma GapLong(gap: seq<Unit>)
    requires Gap(gap)
    ensures gap != []
  {
  }

  // --------------------------------------------------------------- all items

  /** Nothing more belongs to a gap at the end. */
  predicate Stops(items: seq<Item>, u: Unit) {
    items != [] && (items[|items| - 1].Fold? || items[|items| - 1].Glue?) ==> !Blank(u) && !Eol(u)
  }

  /** After a fold or a glued break comes something else. */
  lemma FirstUnit(x: Item)
    requires Good(x) && !x.Space? && !x.Fold?
    ensures Source1(x) != [] && !Blank(Source1(x)[0]) && !Eol(Source1(x)[0])
  {
  }

  lemma ReadsItem(t: Input, p0: nat, x: Point, i: Item) returns (y: Point)
    requires Reads(t, p0, x) && Good(i) && At(t, x.at, Source1(i)) && NoMarker(t, p0, x.at + |Source1(i)| + 1)
    requires i.Fold? ==> x.white == []
    requires i.Fold? || i.Glue? ==> !Blank(t[x.at + |Source1(i)|]) && !Eol(t[x.at + |Source1(i)|])
    ensures Leads(t, p0, x, y, i)
  {
    hide Scan, Leads, Json, Blank, Eol, LineBreaks, Marker, Meaning1, Gap;
    match i
    case Self(_) => y := ReadsUnit(t, p0, x, i);
    case Space(_) => y := ReadsUnit(t, p0, x, i);
    case Short(_, _) => y := ReadsShort(t, p0, x, i);
    case Code(_) => y := ReadsCode(t, p0, x, i);
    case Fold(_) => y := ReadsFold(t, p0, x, i);
    case Glue(_) => y := ReadsGlue(t, p0, x, i);
  }

  /** The loader reads items one after the other. */
  lemma {:induction false} ReadsItems(t: Input, p0: nat, x: Point, items: seq<Item>) returns (y: Point)
    requires Reads(t, p0, x) && AllGood(items) && AllJoined(items) && At(t, x.at, Source(items))
    requires NoMarker(t, p0, x.at + |Source(items)| + 1)
    requires items != [] && items[0].Fold? ==> x.white == []
    requires Stops(items, t[x.at + |Source(items)|])
    ensures Reads(t, p0, y) && y.at == x.at + |Source(items)| && ScanAt(t, x) == ScanAt(t, y)
    ensures Done(y) == Done(x) + Meaning(items)
    ensures if items == [] then y == x else !items[|items| - 1].Space? ==> y.white == []
    decreases |items|
  {
    hide Scan, Good, Source1, Meaning1, Blank, Eol, At, Json, Marker;
    if items == [] {
      y := x;
    } else {
      var i, rest := items[0], items[1..];
      AtBoth(t, x.at, Source1(i), Source(rest));
      NextUnit(t, x.at, items);
      NoMarkerPart(t, p0, x.at + |Source1(i)| + 1, x.at + |Source(items)| + 1);
      var z := ReadsItem(t, p0, x, i);
      assert rest != [] ==> Joined(i, rest[0]);
      y := ReadsItems(t, p0, z, rest);
      Assoc(Done(x), Meaning1(i), Meaning(rest));
    }
  }

  lemma NoMarkerPart(t: Input, p: nat, q: nat, r: nat)
    requires NoMarker(t, p, r) && q <= r <= |t|
    ensures NoMarker(t, p, q)
  {
  }

  /** What stands after the first item. */
  lemma NextUnit(t: Input, p: nat, items: seq<Item>)
    requires items != [] && AllGood(items) && AllJoined(items) && At(t, p, Source(items))
    requires Stops(items, t[p + |Source(items)|])
    ensures p + |Source1(items[0])| < |t|
    ensures items[0].Fold? || items[0].Glue? ==>
      !Blank(t[p + |Source1(items[0])|]) && !Eol(t[p + |Source1(items[0])|])
  {
    hide Good, Source1, Blank, Eol;
    var i, rest := items[0], items[1..];
    if rest != [] {
      assert Joined(i, rest[0]);
      AtIndex(t, p, Source(items));
      if i.Fold? || i.Glue? {
        FirstUnit(rest[0]);
        assert Source(items)[|Source1(i)|] == Source1(rest[0])[0];
      }
    }
  }

  // ------------------------------------------------------------ whole scalars

  /** Where the loader stands after the opening quote. */
  function Opened(before: seq<Unit>, line: Line): Point {
    Point(|before| + 1, line, [], [], [])
  }

  /** For every sequence of items, quoted anywhere: the scalar is what they mean, and it
    * ends just past the closing quote. */
  lemma LoadsItems(items: seq<Item>, before: seq<Unit>, after: seq<Unit>, line: Line)
    requires AllGood(items) && AllJoined(items)
    requires after != [] && after[|after| - 1] == 0 && line.start <= |before|
    requires NoMarker(before + [Quote] + Source(items) + [Quote] + after, |before| + 1, |before| + |Source(items)| + 2)
    ensures var t := before + [Quote] + Source(items) + [Quote] + after;
      match Scan(t, |before| + 1, line, [], [], [])
      case Ok(q) => q.text == Meaning(items) && q.end == |before| + |Source(items)| + 2
      case Err(_) => false
  {
    hide Scan, At, Source, Meaning, AllGood, AllJoined, Marker, Json, Stops, Blank, Eol, NoMarker;
    var e := Source(items);
    var t := before + [Quote] + e + [Quote] + after;
    AtMiddle(before + [Quote], e, [Quote] + after);
    Assoc(before + [Quote] + e, [Quote], after);
    var x := Opened(before, line);
    JsonNone();
    QuoteStops(items);
    var y := ReadsItems(t, |before| + 1, x, items);
    ScanQuote(t, y.at, y.line, y.out, y.seg, y.white);
    Assoc(y.out, y.seg, y.white);
    assert [] + [] + [] + Meaning(items) == Meaning(items);
  }

  lemma QuoteStops(items: seq<Item>)
    ensures Stops(items, Quote)
  {
  }

  /** `readDoubleQuotedScalar` on a text of items. */
  method LoadItems(items: seq<Item>, before: seq<Unit>, after: seq<Unit>, nodeIndent: int)
    returns (text: seq<Unit>, end: nat)
    requires AllGood(items) && AllJoined(items) && after != [] && after[|after| - 1] == 0
    requires NoMarker(before + [Quote] + Source(items) + [Quote] + after, |before| + 1, |before| + |Source(items)| + 2)
    ensures text == Meaning(items) && end == |before| + |Source(items)| + 2
  {
    hide Scan, Source, Meaning, AllGood, AllJoined, NoMarker;
    LoadsItems(items, before, after, Line(0, 0, -1));
    var state := new Scanner(before + [Quote] + Source(items) + [Quote] + after);
    state.position := |before|;
    assert state.input[|before|] == Quote;
    var r := state.ReadDoubleQuotedScalar(nodeIndent);
    text, end := state.result, state.position;
  }

  // ------------------------------------------------------------------ errors

  /** What may follow the items of a scalar and is an error. */
  datatype Fault = Unclosed | BadEscape | BadDigit(k: nat) | Control

  ghost predicate Faulty(t: Input, p: nat, f: Fault)
    requires p < |t|
  {
    match f
    case Unclosed => t[p] == 0
    case BadEscape =>
      && t[p] == Backslash && t[p + 1] !in {0x0A, 0x0D, 0x78, 0x75, 0x55}
      && !InTable(t[p + 1])
    case BadDigit(k) =>
      && t[p] == Backslash && t[p + 1] in {0x78, 0x75, 0x55}
      && k < (if t[p + 1] == 0x78 then 2 else if t[p + 1] == 0x75 then 4 else 8) && p + 2 + k < |t|
      && (forall i :: p + 2 <= i < p + 2 + k ==> IsDigit(t[i])) && !IsDigit(t[p + 2 + k])
    case Control => 0 < t[p] < 0x20 && t[p] !in {0x09, 0x0A, 0x0D} && p + 1 < |t| && t[p + 1] == Quote
  }

  predicate IsDigit(u: Unit) {
    '0' as int <= u <= '9' as int || 'a' as int <= u <= 'f' as int || 'A' as int <= u <= 'F' as int
  }

  function ErrorOf(f: Fault): ScalarError {
    match f
    case Unclosed => EndOfStream
    case BadEscape => UnknownEscape
    case BadDigit(_) => BadHexDigit
    case Control => BadCharacter
  }

  /** After any items: no closing quote, an unknown escape, a bad digit or a control
    * character gives its own error. */
  lemma Faults(t: Input, p0: nat, x: Point, items: seq<Item>, f: Fault)
    requires Reads(t, p0, x) && AllGood(items) && AllJoined(items) && At(t, x.at, Source(items))
    requires NoMarker(t, p0, x.at + |Source(items)| + 1)
    requires items != [] && items[0].Fold? ==> x.white == []
    requires Stops(items, t[x.at + |Source(items)|])
    requires Faulty(t, x.at + |Source(items)|, f)
    ensures ScanAt(t, x) == Err(ErrorOf(f))
  {
    hide Scan, At, Source, Meaning, AllGood, AllJoined, Marker, Faulty, Json;
    var y := ReadsItems(t, p0, x, items);
    FaultAt(t, p0, y, f);
  }

  lemma FaultAt(t: Input, p0: nat, y: Point, f: Fault)
    requires Reads(t, p0, y) && Faulty(t, y.at, f)
    ensures ScanAt(t, y) == Err(ErrorOf(f))
  {
    var p := y.at;
    match f
    case Unclosed => ScanEnd(t, p, y.line, y.out, y.seg, y.white);
    case BadEscape =>
      EscapesOnly(t[p + 1]);
      hide Scan;
      ScanBackslash(t, p, y.line, y.out, y.seg, y.white);
    case BadDigit(k) =>
      BadDigits(t, p + 2, HexLength(t[p + 1]), k, 0);
      assert SimpleEscape(t[p + 1]) == [];
      hide Scan, HexValue;
      ScanBackslash(t, p, y.line, y.out, y.seg, y.white);
    case Control =>
      MarkerIs(t, p);
      ScanOther(t, p, y.line, y.out, y.seg, y.white);
      ScanQuote(t, p + 1, y.line, y.out, y.seg + y.white + [t[p]], []);
      assert (y.seg + y.white + [t[p]])[|y.seg + y.white|] == t[p];
  }

  lemma {:induction false} BadDigits(t: Input, p: nat, n: nat, k: nat, r: int)
    requires k < n && p + k < |t| && !IsDigit(t[p + k]) && forall i :: p <= i < p + k ==> IsDigit(t[i])
    ensures HexValue(t, p, n, r) == None
    decreases k
  {
    if k > 0 {
      BadDigits(t, p + 1, n - 1, k - 1, ToInt32(16 * r) + FromHexCode(t[p]));
    }
  }

  /** A document marker at the start of a line inside the scalar is an error. */
  lemma MarkerFault(t: Input, p0: nat, x: Point, items: seq<Item>, gap: seq<Unit>)
    requires Reads(t, p0, x) && AllGood(items) && AllJoined(items + [Fold(gap)]) && Gap(gap)
    requires At(t, x.at, Source(items)) && At(t, x.at + |Source(items)|, gap)
    requires x.white == [] && NoMarker(t, p0, x.at + |Source(items)| + |gap|)
    requires Eol(gap[|gap| - 1]) && Marker(t, x.at + |Source(items)| + |gap|)
    ensures ScanAt(t, x) == Err(EndOfDocument)
  {
    hide Scan, Source, Meaning, Marker, Json, Blank, LineBreaks, AllGood, At;
    var q := x.at + |Source(items)| + |gap|;
    MarkerUnit(t, q);
    GapLong(gap);
    JoinedBefore(items, gap);
    NoMarkerPart(t, p0, x.at + |Source(items)| + 1, q);
    var y := ReadsItems(t, p0, x, items);
    var line := FoldScan(t, y, gap);
    AtIndex(t, y.at, gap);
    assert t[q - 1] == gap[|gap| - 1];
    BlankOrEol(t[q - 1]);
    MarkerIs(t, q);
    ScanOther(t, q, line, y.out + y.seg + Meaning1(Fold(gap)), [], []);
  }

  lemma MarkerUnit(t: Input, q: nat)
    requires Marker(t, q)
    ensures q < |t| && t[q] != 0 && t[q] != Quote && t[q] != Backslash && !Eol(t[q]) && !Blank(t[q])
  {
    assert t[q] == t[q..q + 3][0];
  }

  lemma BlankOrEol(u: Unit)
    ensures !(Blank(u) && Eol(u))
  {
  }

  lemma JoinedBefore(items: seq<Item>, gap: seq<Unit>)
    requires AllJoined(items + [Fold(gap)])
    ensures AllJoined(items)
    ensures items != [] ==> Joined(items[|items| - 1], Fold(gap))
  {
    var all := items + [Fold(gap)];
    assert items != [] ==> Joined(all[|items| - 1], all[|items|]);
    forall i | 0 < i < |items| ensures Joined(items[i - 1], items[i]) {
      assert all[i - 1] == items[i - 1] && all[i] == items[i];
      assert Joined(all[i - 1], all[i]);
    }
  }

  // -------------------------------------------------------------- the dumper

  /** The printable characters of section 5.1. */
  predicate CPrintable(c: nat) {
    || c == 0x09 || c == 0x0A || c == 0x0D || 0x20 <= c <= 0x7E || c == 0x85
    || 0xA0 <= c <= 0xD7FF || 0xE000 <= c <= 0xFFFD || 0x1_0000 <= c <= 0x10_FFFF
  }

  /** The escape of one unit that the dumper takes for `c`: a letter, a digit or a mark
    * that is not `c` itself written after a backslash for nothing. */
  predicate Dumps(e: Unit, c: nat) {
    c < 0x1_0000 && (e, c) in ESCAPES && e !in {0x09, 0x20, 0x2F}
  }

  lemma ShortTable(c: nat, e: Unit)
    ensures ShortEscape(c) == Some(e) <==> Dumps(e, c)
  {
  }

  /** The dumper writes a code point as it is exactly when it is printable, no byte order
    * mark, and has no escape of one unit. */
  lemma WritesRaw(s: seq<Unit>, i: nat)
    requires i < |s|
    ensures var (c, n) := CodePointAt(s, i);
      EscapeOne(s, i) == s[i..i + n] <==>
      CPrintable(c) && c != 0xFEFF && forall e: Unit :: !Dumps(e, c)
  {
    var (c, n) := CodePointAt(s, i);
    hide CodePointAt;
    if ShortEscape(c).Some? {
      ShortTable(c, ShortEscape(c).value);
      ShortSmall(c);
      assert |EscapeOne(s, i)| == 2 && |s[i..i + n]| == 1;
    } else {
      forall e: Unit ensures !Dumps(e, c) {
        ShortTable(c, e);
      }
      if !Printable(c) {
        HexStarts(c);
        OneUnit(s, i);
      }
      NoShort(c);
    }
  }

  /** Otherwise it writes that escape, or the number. */
  lemma WritesEscape(s: seq<Unit>, i: nat)
    requires i < |s|
    ensures var c := CodePointAt(s, i).0;
      && (forall e: Unit :: Dumps(e, c) ==> EscapeOne(s, i) == [Backslash, e])
      && ((forall e: Unit :: !Dumps(e, c)) && !(CPrintable(c) && c != 0xFEFF) ==> EscapeOne(s, i) == EncodeHex(c))
  {
    var c := CodePointAt(s, i).0;
    hide CodePointAt, ShortEscape;
    forall e: Unit ensures ShortEscape(c) == Some(e) <==> Dumps(e, c) {
      ShortTable(c, e);
    }
    if ShortEscape(c).None? {
      NoShort(c);
    }
  }

  lemma ShortSmall(c: nat)
    requires ShortEscape(c).Some?
    ensures c < 0x1_0000
  {
  }

  lemma NoShort(c: nat)
    requires ShortEscape(c).None?
    ensures Printable(c) <==> CPrintable(c) && c != 0xFEFF
  {
  }

  lemma HexStarts(c: nat)
    requires c <= 0x10_FFFF
    ensures |EncodeHex(c)| >= 3
  {
    PadIs(2, Hex(c));
    PadIs(4, Hex(c));
    PadIs(8, Hex(c));
  }

  lemma OneUnit(s: seq<Unit>, i: nat)
    requires i < |s|
    ensures var (c, n) := CodePointAt(s, i); |s[i..i + n]| <= 2 && c <= 0x10_FFFF
  {
  }

  /** Anything else is written as its number, in as few upper-case digits as the marks
    * allow. */
  lemma WritesNumber(c: nat) returns (ds: seq<Digit>)
    requires c <= 0x10_FFFF
    ensures Good(Code(ds)) && EncodeHex(c) == Source1(Code(ds)) && Number(ds) == c
    ensures |ds| == if c <= 0xFF then 2 else if c <= 0xFFFF then 4 else 8
    ensures forall i :: 0 <= i < |ds| ==> ds[i].upper
  {
    var w := if c <= 0xFF then 2 else if c <= 0xFFFF then 4 else 8;
    HexWidths(c);
    ds := Digits(c, w);
    hide Hex, Pad, Digits, DigitUnits, Number, EncodeHex, CodeMark;
    DigitsAre(c, w);
    PadIsZeros(w, Hex(c));
    EncodeHexIs(c, w);
  }

  lemma EncodeHexIs(c: nat, w: nat)
    requires c <= 0x10_FFFF && w == if c <= 0xFF then 2 else if c <= 0xFFFF then 4 else 8
    ensures EncodeHex(c) == [Backslash, CodeMark(w)] + Pad(w, Hex(c))
  {
    hide Hex, Pad;
  }

  lemma PadIsZeros(w: nat, h: seq<Unit>)
    requires |h| <= w
    ensures Pad(w, h) == seq(w - |h|, _ => 48) + h
  {
    PadIs(w, h);
    hide Pad;
  }

  lemma HexWidths(x: nat)
    requires x <= 0x10_FFFF
    ensures |Hex(x)| <= if x <= 0xFF then 2 else if x <= 0xFFFF then 4 else 8
  {
    HexLengths(x);
    HexLengths(x / 0x1_0000);
    var a, b, c := x / 16, x / 16 / 16, x / 16 / 16 / 16;
    assert c / 16 == x / 0x1_0000;
    assert |Hex(x)| <= 1 + |Hex(a)| && |Hex(a)| <= 1 + |Hex(b)|;
    assert |Hex(b)| <= 1 + |Hex(c)| && |Hex(c)| <= 1 + |Hex(c / 16)|;
  }

  /** The last `w` upper-case digits of `c`. */
  function Digits(c: nat, w: nat): (ds: seq<Digit>)
    ensures |ds| == w && forall i :: 0 <= i < w ==> ds[i].value < 16 && ds[i].upper
  {
    if w == 0 then [] else Digits(c / 16, w - 1) + [Digit(c % 16, true)]
  }

  lemma {:induction false} DigitsAre(c: nat, w: nat)
    requires |Hex(c)| <= w
    ensures Number(Digits(c, w)) == c
    ensures DigitUnits(Digits(c, w)) == seq(w - |Hex(c)|, _ => 48) + Hex(c)
    decreases w
  {
    hide DigitUnit, HexDigit, Hex, DigitUnits, Digits, Number;
    HexStep(c);
    DigitsStep(c, w);
    if c >= 16 {
      DigitsAre(c / 16, w - 1);
    } else if w > 1 {
      HexOfZero();
      DigitsAre(0, w - 1);
      ZerosAgain(w - 2);
    } else {
      NoDigits();
    }
  }

  lemma ZerosAgain(n: nat)
    ensures seq(n, _ => 48 as Unit) + [48] == seq(n + 1, _ => 48)
  {
  }

  lemma NoDigits()
    ensures Number([]) == 0 && DigitUnits([]) == [] && Digits(0, 0) == []
  {
  }

  lemma HexStep(c: nat)
    ensures c < 16 ==> Hex(c) == [HexDigit(c)] && c / 16 == 0 && c % 16 == c
    ensures c >= 16 ==> Hex(c) == Hex(c / 16) + [HexDigit(c % 16)]
    ensures |Hex(c)| >= 1
  {
  }

  lemma DigitsStep(c: nat, w: nat)
    requires w > 0
    ensures var before := Digits(c / 16, w - 1);
      && DigitUnits(Digits(c, w)) == DigitUnits(before) + [HexDigit(c % 16)]
      && Number(Digits(c, w)) == 16 * Number(before) + c % 16
  {
    var d := Digit(c % 16, true);
    DigitsTable(d);
    hide DigitUnit, HexDigit;
    var before := Digits(c / 16, w - 1);
    assert Digits(c, w)[..w - 1] == before;
    assert DigitUnits(Digits(c, w)) == DigitUnits(before) + [DigitUnit(d)];
  }

  lemma HexOfZero()
    ensures Hex(0) == [48]
  {
  }
}
