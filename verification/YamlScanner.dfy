/** The loader's `State` while it reads a double-quoted scalar: positions in the
  * input, the segment of it not yet copied, and the result so far. */
module YamlScanner {
  import opened Basics
  import opened Wrappers
  import opened Utf8
  import opened YamlQuoted

  class Scanner {
    const input: Input
    var position: nat
    var line: nat
    /** How often the loader has warned about deficient indentation. */
    var warnings: nat
    var lineStart: nat
    var lineIndent: nat
    var firstTabInLine: int
    var result: seq<Unit>
    /** `kind === "scalar"` */
    var scalar: bool

    ghost function LineNow(): Line
      reads this
    {
      Line(lineStart, lineIndent, firstTabInLine)
    }

    constructor (input: Input)
      ensures this.input == input && position == 0 && LineNow() == Line(0, 0, -1)
    {
      this.input := input;
      position, line, lineStart, lineIndent, firstTabInLine, warnings := 0, 0, 0, 0, -1, 0;
      result, scalar := [], false;
    }

    /** `readLineBreak`, at a line break. */
    method ReadLineBreak()
      requires position < |input| && Eol(input[position])
      modifies this`position, this`line, this`lineStart, this`firstTabInLine
      ensures position == lineStart == BreakEnd(input, old(position)) && firstTabInLine == -1
      ensures line == old(line) + 1
    {
      if input[position] == 0x0A {
        position := position + 1;
      } else {
        position := position + 1;
        if input[position] == 0x0A {
          position := position + 1;
        }
      }
      line := line + 1;
      lineStart := position;
      firstTabInLine := -1;
    }

    /** `skipSeparationSpace`; a `checkIndent` of -1 asks for no indentation. */
    method SkipSeparationSpace(allowComments: bool, checkIndent: int) returns (n: nat)
      requires position < |input|
      modifies this`position, this`line, this`lineStart, this`lineIndent, this`firstTabInLine, this`warnings
      ensures Skip(input, old(position), old(LineNow()), allowComments) == (position, n, LineNow())
      ensures position < |input| && (Eol(input[old(position)]) ==> old(position) < position)
      ensures line == old(line) + n
      ensures warnings == old(warnings) + if checkIndent != -1 && n > 0 && lineIndent < checkIndent then 1 else 0
    {
      hide BlankEnd, SpaceEnd, BreakEnd, TextEnd, AfterBlanks;
      n := 0;
      ghost var whole := Skip(input, position, LineNow(), allowComments);
      var done := false;
      while !done && input[position] != 0
        invariant position < |input| && line == old(line) + n && warnings == old(warnings)
        invariant !done ==> var r := Skip(input, position, LineNow(), allowComments); whole == (r.0, n + r.1, r.2)
        invariant done ==> whole == (position, n, LineNow())
        decreases !done, |input| - position
      {
        SkipText(allowComments);
        if !Eol(input[position]) {
          done := true;
        } else {
          ReadLineBreak();
          n := n + 1;
          lineIndent := 0;
          SkipSpaces();
        }
      }
      if !done {
        SkipNull(input, position, LineNow(), allowComments);
      }
      if checkIndent != -1 && n != 0 && lineIndent < checkIndent {
        warnings := warnings + 1;
      }
    }

    /** Blanks, and a comment where it is allowed. */
    method SkipText(allowComments: bool)
      requires position < |input|
      modifies this`position, this`firstTabInLine
      ensures position == TextEnd(input, old(position), allowComments) < |input|
      ensures LineNow() == AfterBlanks(input, old(position), old(LineNow()))
    {
      SkipBlanks();
      if allowComments && input[position] == NumberSign {
        SkipComment();
      }
    }

    /** The loop over a comment, whose first unit it does not look at. */
    method SkipComment()
      requires position < |input| && input[position] == NumberSign
      modifies this`position
      ensures position == CommentEnd(input, old(position)) < |input|
    {
      position := position + 1;
      while !Eol(input[position]) && input[position] != 0
        invariant position < |input| && CommentEnd(input, position) == CommentEnd(input, old(position))
        decreases |input| - position
      {
        position := position + 1;
      }
    }

    /** The loop over blanks. */
    method SkipBlanks()
      requires position < |input|
      modifies this`position, this`firstTabInLine
      ensures position == BlankEnd(input, old(position)) < |input|
      ensures LineNow() == AfterBlanks(input, old(position), old(LineNow()))
    {
      while Blank(input[position])
        invariant position < |input|
        invariant BlankEnd(input, position) == BlankEnd(input, old(position))
        invariant AfterBlanks(input, position, LineNow()) == AfterBlanks(input, old(position), old(LineNow()))
        decreases |input| - position
      {
        if input[position] == 0x09 && firstTabInLine == -1 {
          firstTabInLine := position;
        }
        position := position + 1;
      }
    }

    /** The loop over the spaces that indent a line. */
    method SkipSpaces()
      requires position < |input|
      modifies this`position, this`lineIndent
      ensures position == SpaceEnd(input, old(position)) < |input|
      ensures lineIndent == old(lineIndent) + position - old(position)
    {
      while input[position] == 0x20
        invariant old(position) <= position < |input|
        invariant SpaceEnd(input, position) == SpaceEnd(input, old(position))
        invariant lineIndent == old(lineIndent) + position - old(position)
        decreases |input| - position
      {
        lineIndent := lineIndent + 1;
        position := position + 1;
      }
    }

    /** `captureSegment` with its check for JSON characters. */
    method CaptureSegment(start: nat, end: nat) returns (ok: bool)
      requires end <= |input|
      modifies this`result
      ensures start > end ==> ok && result == old(result)
      ensures start <= end ==> ok == Json(input[start..end])
      ensures start <= end && ok ==> result == old(result) + input[start..end]
    {
      if start < end {
        var s := input[start..end];
        for e := 0 to |s|
          invariant Json(s[..e])
        {
          if !(s[e] == 0x09 || s[e] >= 0x20) {
            return false;
          }
          assert s[..e + 1] == s[..e] + [s[e]];
        }
        assert s[..|s|] == s;
        result := result + s;
      }
      return true;
    }

    /** The digits after `\x`, `\u` or `\U`, which stands at `position`. */
    method ReadHex(n: nat) returns (r: Option<int>)
      requires position + 1 < |input|
      modifies this`position
      ensures r == HexValue(input, old(position) + 1, n, 0)
      ensures r.Some? ==> position == old(position) + n && position + 1 < |input|
    {
      var x: int := 0;
      for e := n downto 0
        invariant position == old(position) + n - e && position + 1 < |input|
        invariant HexValue(input, position + 1, e, x) == HexValue(input, old(position) + 1, n, 0)
      {
        position := position + 1;
        var d := FromHexCode(input[position]);
        if d < 0 {
          return None;
        }
        x := ToInt32(16 * x) + d;
      }
      return Some(x);
    }

    /** `readDoubleQuotedScalar` */
    method ReadDoubleQuotedScalar(nodeIndent: int) returns (r: Result<bool, ScalarError>)
      requires position < |input|
      modifies this
      ensures input[old(position)] != Quote ==> r == Ok(false)
      ensures input[old(position)] != Quote ==> position == old(position) && LineNow() == old(LineNow())
      ensures input[old(position)] != Quote ==> result == old(result) && scalar == old(scalar)
      ensures input[old(position)] == Quote ==>
        match Scan(input, old(position) + 1, old(LineNow()), [], [], [])
        case Ok(q) => r == Ok(true) && scalar && Quoted(result, position, LineNow()) == q
        case Err(e) => r == Err(e)
    {
      hide Scan, AfterBackslash, Skip, Separator, Json, SimpleEscape, Folded, Eol, Blank;
      if input[position] != Quote {
        return Ok(false);
      }
      scalar, result := true, [];
      position := position + 1;
      var start, end := position, position;
      ghost var whole := Scan(input, position, LineNow(), [], [], []);
      assert input[start..end] == [] && input[end..position] == [];
      while input[position] != 0
        invariant start <= end <= position < |input|
        invariant forall i :: end <= i < position ==> Blank(input[i])
        invariant scalar
        invariant whole == Scan(input, position, LineNow(), result, input[start..end], input[end..position])
        decreases |input| - position
      {
        var c := input[position];
        ghost var seg, white := input[start..end], input[end..position];
        OneMore(input, start, end, position);
        if c == Quote {
          ScanQuote(input, position, LineNow(), result, seg, white);
          var ok := CaptureSegment(start, position);
          BlanksAreJson(seg, white);
          if !ok {
            return Err(BadCharacter);
          }
          position := position + 1;
          return Ok(true);
        }
        if c == Backslash {
          ScanBackslash(input, position, LineNow(), result, seg, white);
          BlanksAreJson(seg, white);
          var ok := CaptureSegment(start, position);
          if !ok {
            return Err(BadCharacter);
          }
          position := position + 1;
          var error := ReadEscape(nodeIndent);
          if error.Some? {
            return Err(error.value);
          }
          start, end := position, position;
          assert input[start..end] == [] && input[end..position] == [];
        } else if Eol(c) {
          ScanBreak(input, position, LineNow(), result, seg, white);
          var ok := FoldLines(start, end, nodeIndent);
          if !ok {
            return Err(BadCharacter);
          }
          start, end := position, position;
          assert input[start..end] == [] && input[end..position] == [];
        } else {
          ScanOther(input, position, LineNow(), result, seg, white);
          if position == lineStart && Separator(input, position) {
            return Err(EndOfDocument);
          }
          position := position + 1;
          if !Blank(c) {
            end := position;
          }
        }
      }
      ScanEnd(input, position, LineNow(), result, input[start..end], input[end..position]);
      return Err(EndOfStream);
    }

    /** A line break in the scalar: the segment before it, and what the lines fold to. */
    method FoldLines(start: nat, end: nat, nodeIndent: int) returns (ok: bool)
      requires start <= end <= |input| && position < |input| && Eol(input[position])
      modifies this`position, this`line, this`lineStart, this`lineIndent, this`firstTabInLine, this`warnings
      modifies this`result
      ensures ok == Json(input[start..end])
      ensures ok ==> old(position) < position < |input|
      ensures ok ==>
        var skipped := Skip(input, old(position), old(LineNow()), false);
        (position, LineNow()) == (skipped.0, skipped.2)
        && result == old(result) + input[start..end] + Folded(skipped.1)
    {
      hide Skip, Json, Folded, Eol;
      ok := CaptureSegment(start, end);
      if ok {
        var n := SkipSeparationSpace(false, nodeIndent);
        result := result + Folded(n);
      }
    }

    /** The escape whose backslash was just passed. */
    method ReadEscape(nodeIndent: int) returns (error: Option<ScalarError>)
      requires position < |input|
      modifies this`position, this`line, this`lineStart, this`lineIndent, this`firstTabInLine, this`warnings
      modifies this`result
      ensures error.None? ==> position < |input|
      ensures match AfterBackslash(input, old(position), old(LineNow()))
        case Err(e) => error == Some(e)
        case Ok(r) => error == None && (position, LineNow()) == (r.0, r.1) && result == old(result) + r.2
    {
      var c := input[position];
      if Eol(c) {
        var _ := SkipSeparationSpace(false, nodeIndent);
      } else if c < 256 && SimpleEscape(c) != [] {
        result := result + SimpleEscape(c);
        position := position + 1;
      } else if HexLength(c) > 0 {
        var x := ReadHex(HexLength(c));
        if x.None? {
          return Some(BadHexDigit);
        }
        result := result + CharFromCodepoint(x.value);
        position := position + 1;
      } else {
        return Some(UnknownEscape);
      }
      return None;
    }
  }

  lemma OneMore(t: seq<Unit>, start: nat, end: nat, p: nat)
    requires start <= end <= p < |t|
    ensures t[start..p] == t[start..end] + t[end..p]
    ensures t[end..p + 1] == t[end..p] + [t[p]]
    ensures t[start..p + 1] == t[start..end] + t[end..p] + [t[p]]
    ensures t[p..p] == t[p + 1..p + 1] == []
  {}

  lemma BlanksAreJson(seg: seq<Unit>, white: seq<Unit>)
    requires forall i :: 0 <= i < |white| ==> Blank(white[i])
    ensures Json(seg + white) <==> Json(seg)
  {
    if Json(seg + white) {
      assert forall i :: 0 <= i < |seg| ==> seg[i] == (seg + white)[i];
    }
  }

  /** `escapeString` in quotes, loaded from where it stands in a line: the text
    * comes back and the position is just past the closing quote. */
  method DumpAndLoad(s: seq<Unit>, before: seq<Unit>, after: seq<Unit>, nodeIndent: int)
    returns (quoted: seq<Unit>, text: seq<Unit>, end: nat)
    requires after != [] && after[|after| - 1] == 0
    ensures quoted == [Quote] + Escape(s, 0) + [Quote]
    ensures text == s && end == |before| + |quoted|
  {
    hide Escape, Scan;
    var e := EscapeString(s);
    QuotedRoundTrip(s, before, after, Line(0, 0, -1));
    quoted := [Quote] + e + [Quote];
    assert before + quoted + after == before + [Quote] + e + [Quote] + after;
    var state := new Scanner(before + quoted + after);
    state.position := |before|;
    var r := state.ReadDoubleQuotedScalar(nodeIndent);
    text, end := state.result, state.position;
  }
}
