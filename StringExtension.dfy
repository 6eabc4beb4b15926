/**
 * StringExtension: a cursor-based line reader that accepts CR, LF and CRLF
 * as line terminators, the splitter that runs it to the end of a text, and a
 * split-and-trim on a separator character. A C# `string` that may be null is
 * an `Option<string>`.
 */
module StringExtension {
  import opened Results

  /** A line terminator character: CR or LF. */
  predicate IsBreak(c: char)
  {
    c == '\r' || c == '\n'
  }

  /** The position of the first terminator at or after `from`, or the end of the text. */
  function LineEnd(t: string, from: nat): (e: nat)
    requires from <= |t|
    ensures from <= e <= |t|
    ensures forall i :: from <= i < e ==> !IsBreak(t[i])
    ensures e < |t| ==> IsBreak(t[e])
    decreases |t| - from
  {
    if from == |t| || IsBreak(t[from]) then from else LineEnd(t, from + 1)
  }

  /** Where reading resumes after the terminator at `e`: past it, and past an LF that follows a CR. */
  function Resume(t: string, e: nat): (next: nat)
    requires e < |t| && IsBreak(t[e])
    ensures e < next <= |t|
    ensures next == e + 2 <==> t[e] == '\r' && e + 1 < |t| && t[e + 1] == '\n'
  {
    if t[e] == '\r' && e + 1 < |t| && t[e + 1] == '\n' then e + 2 else e + 1
  }

  /**
   * The line ReadLine returns at `pos` and the position it moves to: none at
   * or past the end; otherwise the text up to the next terminator (or the end),
   * and the position after that terminator.
   */
  function NextLine(t: string, pos: nat): (r: Option<(string, nat)>)
    ensures r.None? <==> |t| <= pos
    ensures r.Some? ==> pos < r.value.1 <= |t|
  {
    if pos >= |t| then None
    else
      var e := LineEnd(t, pos);
      if e < |t| then Some((t[pos..e], Resume(t, e))) else Some((t[pos..], |t|))
  }

  /**
   * A line read at `pos` is the text from `pos` on, holds no terminator, and is
   * followed by exactly one terminator (CRLF counting as one) or by the end.
   */
  lemma NextLineShape(t: string, pos: nat)
    requires pos < |t|
    ensures NextLine(t, pos).Some?
    ensures var (line, next) := NextLine(t, pos).value;
      line == t[pos..pos + |line|] &&
      (forall i :: 0 <= i < |line| ==> !IsBreak(line[i])) &&
      (next == pos + |line| || next == pos + |line| + 1 || next == pos + |line| + 2) &&
      (next < |t| || pos + |line| < |t| ==> IsBreak(t[pos + |line|]))
  {
  }

  /**
   * ReadLine(text, ref position). A null text gives null and leaves `position`;
   * a negative `position` makes `text[offset]` throw; at or past the end it
   * gives null and leaves `position`; otherwise it returns the next line and
   * moves `position` past its terminator.
   */
  method ReadLine(text: Option<string>, position: int) returns (r: Result<Option<string>>, newPosition: int)
    ensures text.None? ==> r == Ok(None) && newPosition == position
    ensures text.Some? && position < 0 ==> r == Err(IndexOutOfRange) && newPosition == position
    ensures text.Some? && 0 <= position ==>
      match NextLine(text.value, position)
      case None => r == Ok(None) && newPosition == position
      case Some((line, next)) => r == Ok(Some(line)) && newPosition == next
  {
    newPosition := position;
    if text.None? {
      return Ok(None), newPosition;
    }
    var t := text.value;
    var length := |t|;
    var offset := position;
    if offset < 0 {
      // `offset < length` holds and `text[offset]` throws
      return Err(IndexOutOfRange), newPosition;
    }
    while offset < length
      invariant position <= offset <= length || length <= position == offset
      invariant forall i :: position <= i < offset ==> !IsBreak(t[i])
      decreases length - offset
    {
      var ch := t[offset];
      if ch == '\r' || ch == '\n' {
        assert LineEnd(t, position) == offset;
        var str := t[position..offset];
        newPosition := offset + 1;
        if ch == '\r' && newPosition < length && t[newPosition] == '\n' {
          newPosition := newPosition + 1;
        }
        return Ok(Some(str)), newPosition;
      }
      offset := offset + 1;
    }
    if offset > position {
      assert offset == length;
      assert LineEnd(t, position) == offset;
      assert t[position..offset] == t[position..];
      var str := t[position..offset];
      newPosition := offset;
      return Ok(Some(str)), newPosition;
    }
    return Ok(None), newPosition;
  }

  /** The lines of `t` from `pos` on, as repeated ReadLine calls return them. */
  function Lines(t: string, pos: nat): seq<string>
    decreases |t| - pos
  {
    match NextLine(t, pos)
    case None => []
    case Some((line, next)) => [line] + Lines(t, next)
  }

  /**
   * SplitToLines: ReadLine from position 0 until it returns null, collected in
   * order into a fresh array. A null text gives an empty array.
   */
  method SplitToLines(sText: Option<string>) returns (lines: array<string>)
    ensures fresh(lines)
    ensures sText.None? ==> lines[..] == []
    ensures sText.Some? ==> lines[..] == Lines(sText.value, 0)
  {
    var texts: seq<string> := [];
    var position: int := 0;
    while true
      invariant 0 <= position
      invariant sText.Some? ==> position <= |sText.value| || position == 0
      invariant sText.None? ==> texts == []
      invariant sText.Some? ==> texts + Lines(sText.value, position) == Lines(sText.value, 0)
      decreases if sText.Some? then |sText.value| - position else 0
    {
      var rowText;
      rowText, position := ReadLine(sText, position);
      if rowText.Ok? && rowText.value.Some? {
        texts := texts + [rowText.value.value];
      } else {
        break;
      }
    }
    lines := new string[|texts|](i requires 0 <= i < |texts| => texts[i]);
  }

  /** No line holds a terminator. */
  lemma {:induction false} LinesHaveNoBreaks(t: string, pos: nat)
    ensures forall k, i :: 0 <= k < |Lines(t, pos)| && 0 <= i < |Lines(t, pos)[k]| ==> !IsBreak(Lines(t, pos)[k][i])
    decreases |t| - pos
  {
    if pos < |t| {
      NextLineShape(t, pos);
      var (line, next) := NextLine(t, pos).value;
      LinesHaveNoBreaks(t, next);
      assert Lines(t, pos) == [line] + Lines(t, next);
    }
  }

  /** A line terminator as ReadLine accepts it: LF, a lone CR, or CRLF. */
  predicate IsNewline(nl: string)
  {
    nl == "\n" || nl == "\r" || nl == "\r\n"
  }

  /**
   * A terminator after a last line that has none adds no empty line: the
   * lines of `t + nl` are those of `t`, for LF, CR and CRLF alike.
   */
  lemma TrailingNewline(t: string, nl: string)
    requires t != [] && !IsBreak(t[|t| - 1]) && IsNewline(nl)
    ensures Lines(t + nl, 0) == Lines(t, 0)
  {
    TrailingNewlineFrom(t, nl, 0);
  }

  lemma {:induction false} TrailingNewlineFrom(t: string, nl: string, pos: nat)
    requires pos < |t| && !IsBreak(t[|t| - 1]) && IsNewline(nl)
    ensures Lines(t + nl, pos) == Lines(t, pos)
    decreases |t| - pos
  {
    var u := t + nl;
    var e := LineEnd(t, pos);
    assert LineEnd(u, pos) == e by {
      assert forall i :: pos <= i < e ==> u[i] == t[i];
      if e < |t| {
        assert u[e] == t[e];
      } else {
        assert u[e] == nl[0];
      }
    }
    if e < |t| {
      assert e < |t| - 1;
      var next := Resume(t, e);
      assert u[e] == t[e] && u[e + 1] == t[e + 1];
      assert Resume(u, e) == next;
      assert next < |t| by {
        if next == e + 2 {
          assert t[e + 1] == '\n';
        }
      }
      assert u[pos..e] == t[pos..e];
      TrailingNewlineFrom(t, nl, next);
    } else {
      assert Resume(u, e) == |u| by {
        if nl == "\r\n" {
          assert u[e] == '\r' && u[e + 1] == '\n';
        }
      }
      assert u[pos..e] == t[pos..];
      assert NextLine(u, |u|).None?;
    }
  }

  /** The lines joined with `sep` in between. */
  function Join(lines: seq<string>, sep: char): string
  {
    if lines == [] then ""
    else if |lines| == 1 then lines[0]
    else lines[0] + [sep] + Join(lines[1..], sep)
  }

  /**
   * Without CR and without a final LF, joining the lines with LF gives the
   * text back: the lines are exactly the pieces between the LFs.
   */
  lemma JoinLines(t: string)
    requires t != [] && t[|t| - 1] != '\n'
    requires forall i :: 0 <= i < |t| ==> t[i] != '\r'
    ensures Join(Lines(t, 0), '\n') == t
  {
    JoinLinesFrom(t, 0);
  }

  lemma {:induction false} JoinLinesFrom(t: string, pos: nat)
    requires pos < |t| && t[|t| - 1] != '\n'
    requires forall i :: 0 <= i < |t| ==> t[i] != '\r'
    ensures Join(Lines(t, pos), '\n') == t[pos..]
    decreases |t| - pos
  {
    var e := LineEnd(t, pos);
    if e < |t| {
      BreakIsInnerLF(t, e);
      JoinLinesFrom(t, e + 1);
      JoinStep(t, pos, e);
    } else {
      LinesLast(t, pos);
    }
  }

  /** Without CR and without a final LF, a terminator is an LF with text after it. */
  lemma BreakIsInnerLF(t: string, e: nat)
    requires e < |t| && IsBreak(t[e]) && t[|t| - 1] != '\n'
    requires forall i :: 0 <= i < |t| ==> t[i] != '\r'
    ensures t[e] == '\n' && e + 1 < |t|
  {
  }

  /** The step of JoinLinesFrom: the line before an LF, the LF, and the joined lines after it. */
  lemma JoinStep(t: string, pos: nat, e: nat)
    requires pos <= e && e + 1 < |t| && e == LineEnd(t, pos) && t[e] == '\n'
    requires Join(Lines(t, e + 1), '\n') == t[e + 1..]
    ensures Join(Lines(t, pos), '\n') == t[pos..]
  {
    LinesStep(t, pos, e);
    SliceAround(t, pos, e);
    JoinCons(t[pos..e], Lines(t, e + 1), t[e + 1..], t[pos..]);
  }

  /** A line ended by LF is followed by the lines after the LF, of which there is at least one. */
  lemma LinesStep(t: string, pos: nat, e: nat)
    requires pos <= e && e + 1 < |t| && e == LineEnd(t, pos) && t[e] == '\n'
    ensures Lines(t, pos) == [t[pos..e]] + Lines(t, e + 1) && Lines(t, e + 1) != []
  {
    assert Resume(t, e) == e + 1;
    assert NextLine(t, pos) == Some((t[pos..e], e + 1));
    assert NextLine(t, e + 1).Some?;
  }

  /** A text is the part before position `e`, the character at `e`, and the part after it. */
  lemma SliceAround(t: string, pos: nat, e: nat)
    requires pos <= e < |t|
    ensures t[pos..] == t[pos..e] + [t[e]] + t[e + 1..]
  {
  }

  /** A line that runs to the end of the text is the last one. */
  lemma LinesLast(t: string, pos: nat)
    requires pos < |t| && LineEnd(t, pos) == |t|
    ensures Lines(t, pos) == [t[pos..]]
  {
    assert NextLine(t, pos) == Some((t[pos..], |t|));
    assert Lines(t, pos) == [t[pos..]] + Lines(t, |t|);
  }

  /** Joining a first line in front of other lines puts one separator between. */
  lemma JoinCons(line: string, rest: seq<string>, tail: string, whole: string)
    requires rest != [] && Join(rest, '\n') == tail && whole == line + ['\n'] + tail
    ensures Join([line] + rest, '\n') == whole
  {
    assert ([line] + rest)[1..] == rest;
  }

  /** CRLF is one terminator, a lone CR or LF is one too, and an empty text has no lines. */
  lemma LinesExamples()
    ensures Lines("a\r\nb", 0) == ["a", "b"]
    ensures Lines("a\rb\nc\n", 0) == ["a", "b", "c"]
    ensures Lines("\n\n", 0) == ["", ""]
    ensures Lines("\r\r\n", 0) == ["", ""]
    ensures Lines("", 0) == []
  {
    CrLfExample();
    MixedBreaksExample();
    EmptyLinesExample();
    CrThenCrLfExample();
  }

  lemma CrLfExample()
    ensures Lines("a\r\nb", 0) == ["a", "b"]
  {
    var t := "a\r\nb";
    assert LineEnd(t, 0) == 1 && LineEnd(t, 3) == 4;
    assert t[0..1] == "a" && t[3..] == "b";
    assert NextLine(t, 0) == Some(("a", 3)) && NextLine(t, 3) == Some(("b", 4));
    assert Lines(t, 3) == ["b"];
  }

  lemma MixedBreaksExample()
    ensures Lines("a\rb\nc\n", 0) == ["a", "b", "c"]
  {
    var t := "a\rb\nc\n";
    assert LineEnd(t, 0) == 1 && LineEnd(t, 2) == 3 && LineEnd(t, 4) == 5;
    assert t[0..1] == "a" && t[2..3] == "b" && t[4..5] == "c";
    assert NextLine(t, 0) == Some(("a", 2)) && NextLine(t, 2) == Some(("b", 4));
    assert NextLine(t, 4) == Some(("c", 6));
    assert Lines(t, 4) == ["c"];
    assert Lines(t, 2) == ["b", "c"];
  }

  lemma EmptyLinesExample()
    ensures Lines("\n\n", 0) == ["", ""]
  {
    var t := "\n\n";
    assert LineEnd(t, 0) == 0 && LineEnd(t, 1) == 1;
    assert t[0..0] == "" && t[1..1] == "";
    assert NextLine(t, 1) == Some(("", 2));
    assert Lines(t, 1) == [""];
  }

  lemma CrThenCrLfExample()
    ensures Lines("\r\r\n", 0) == ["", ""]
  {
    var t := "\r\r\n";
    assert LineEnd(t, 0) == 0 && LineEnd(t, 1) == 1;
    assert t[0..0] == "" && t[1..1] == "" && t[1] == '\r' && t[2] == '\n';
    assert Resume(t, 1) == 3;
    assert NextLine(t, 0) == Some(("", 1)) && NextLine(t, 1) == Some(("", 3));
    assert Lines(t, 1) == [""];
  }

  // ---------------------------------------------------------------------------
  // SplitToArray
  // ---------------------------------------------------------------------------

  /** `string.Split(segment)`: the pieces between the separators, in order. */
  function Split(s: string, segment: char): (parts: seq<string>)
    ensures |parts| >= 1
  {
    if s == [] then [""]
    else
      var rest := Split(s[1..], segment);
      if s[0] == segment then [""] + rest else [[s[0]] + rest[0]] + rest[1..]
  }

  /** The number of occurrences of `c` in `s`. */
  function Count(s: string, c: char): nat
  {
    if s == [] then 0 else (if s[0] == c then 1 else 0) + Count(s[1..], c)
  }

  /**
   * There is one more piece than there are separators, no piece holds the
   * separator, and joining the pieces with it gives the string back.
   */
  lemma {:induction false} SplitPieces(s: string, segment: char)
    ensures |Split(s, segment)| == Count(s, segment) + 1
    ensures forall k, i :: 0 <= k < |Split(s, segment)| && 0 <= i < |Split(s, segment)[k]| ==> Split(s, segment)[k][i] != segment
    ensures Join(Split(s, segment), segment) == s
  {
    if s != [] {
      SplitPieces(s[1..], segment);
      SplitCountStep(s, segment);
      SplitFreeStep(s, segment);
      SplitJoinStep(s, segment);
    }
  }

  /** One character more adds a piece exactly when it is the separator. */
  lemma SplitCountStep(s: string, segment: char)
    requires s != [] && |Split(s[1..], segment)| == Count(s[1..], segment) + 1
    ensures |Split(s, segment)| == Count(s, segment) + 1
  {
  }

  /** A character in front of separator-free pieces leaves them separator-free. */
  lemma SplitFreeStep(s: string, segment: char)
    requires s != []
    requires forall k, i :: 0 <= k < |Split(s[1..], segment)| && 0 <= i < |Split(s[1..], segment)[k]| ==>
      Split(s[1..], segment)[k][i] != segment
    ensures forall k, i :: 0 <= k < |Split(s, segment)| && 0 <= i < |Split(s, segment)[k]| ==> Split(s, segment)[k][i] != segment
  {
    var rest := Split(s[1..], segment);
    var parts := Split(s, segment);
    if s[0] == segment {
      assert parts == [""] + rest;
    } else {
      assert parts[0] == [s[0]] + rest[0];
      assert parts[1..] == rest[1..];
      forall k, i | 0 <= k < |parts| && 0 <= i < |parts[k]|
        ensures parts[k][i] != segment
      {
        if k == 0 && i > 0 {
          assert parts[0][i] == rest[0][i - 1];
        } else if k > 0 {
          assert parts[k] == rest[k];
        }
      }
    }
  }

  /** A character in front of pieces that join back to the rest joins back to the whole. */
  lemma SplitJoinStep(s: string, segment: char)
    requires s != [] && Join(Split(s[1..], segment), segment) == s[1..]
    ensures Join(Split(s, segment), segment) == s
  {
    var rest := Split(s[1..], segment);
    assert s == [s[0]] + s[1..];
    if s[0] == segment {
      assert Split(s, segment) == [""] + rest;
      JoinEmptyFirst(rest, segment);
    } else {
      assert Split(s, segment) == [[s[0]] + rest[0]] + rest[1..];
      JoinGrowFirst(s[0], rest, segment);
    }
  }

  /** An empty first line contributes only its separator. */
  lemma JoinEmptyFirst(rest: seq<string>, sep: char)
    requires rest != []
    ensures Join([""] + rest, sep) == [sep] + Join(rest, sep)
  {
    assert ([""] + rest)[1..] == rest;
  }

  /** A character put in front of the first line comes first in the join. */
  lemma JoinGrowFirst(c: char, rest: seq<string>, sep: char)
    requires rest != []
    ensures Join([[c] + rest[0]] + rest[1..], sep) == [c] + Join(rest, sep)
  {
    var lines := [[c] + rest[0]] + rest[1..];
    assert lines[1..] == rest[1..];
    if |rest| > 1 {
      assert Join(lines, sep) == [c] + rest[0] + [sep] + Join(rest[1..], sep);
    }
  }

  /** `char.IsWhiteSpace`: the Unicode space separators, line and paragraph separators, and U+0009-U+000D, U+0085. */
  predicate IsWhiteSpace(c: char)
  {
    c == ' ' || '\U{0009}' <= c <= '\U{000D}' || c == '\U{0085}' || c == '\U{00A0}' || c == '\U{1680}' ||
    '\U{2000}' <= c <= '\U{200A}' || c == '\U{2028}' || c == '\U{2029}' || c == '\U{202F}' ||
    c == '\U{205F}' || c == '\U{3000}'
  }

  /** The first position at or after `from` that does not hold white space, or the end. */
  function SkipWhiteSpace(s: string, from: nat): (i: nat)
    requires from <= |s|
    ensures from <= i <= |s|
    ensures forall k :: from <= k < i ==> IsWhiteSpace(s[k])
    ensures i < |s| ==> !IsWhiteSpace(s[i])
    decreases |s| - from
  {
    if from == |s| || !IsWhiteSpace(s[from]) then from else SkipWhiteSpace(s, from + 1)
  }

  /** The end of `s[..to]` once its trailing white space is dropped. */
  function BackWhiteSpace(s: string, to: nat): (j: nat)
    requires to <= |s|
    ensures j <= to
    ensures forall k :: j <= k < to ==> IsWhiteSpace(s[k])
    ensures j > 0 ==> !IsWhiteSpace(s[j - 1])
  {
    if to == 0 || !IsWhiteSpace(s[to - 1]) then to else BackWhiteSpace(s, to - 1)
  }

  /** `TrimStart()`: `s` without its leading white space. */
  function TrimStart(s: string): string
  {
    s[SkipWhiteSpace(s, 0)..]
  }

  /** `TrimEnd()`: `s` without its trailing white space. */
  function TrimEnd(s: string): string
  {
    s[..BackWhiteSpace(s, |s|)]
  }

  /** `Trim()`: `s` without its leading and trailing white space. */
  function Trim(s: string): string
  {
    TrimEnd(TrimStart(s))
  }

  /**
   * The trimmed string is a slice of `s` that neither starts nor ends with
   * white space, and everything cut off is white space.
   */
  lemma TrimIsSlice(s: string)
    ensures var i := SkipWhiteSpace(s, 0);
      var t := Trim(s);
      i + |t| <= |s| && t == s[i..i + |t|] &&
      (forall k :: 0 <= k < i ==> IsWhiteSpace(s[k])) &&
      (forall k :: i + |t| <= k < |s| ==> IsWhiteSpace(s[k]))
    ensures Trim(s) != [] ==> !IsWhiteSpace(Trim(s)[0]) && !IsWhiteSpace(Trim(s)[|Trim(s)| - 1])
  {
    var i := SkipWhiteSpace(s, 0);
    var u := s[i..];
    var t := u[..BackWhiteSpace(u, |u|)];
    assert Trim(s) == t;
    TrimmedSlice(s, i, u, t);
  }

  /**
   * If `u` is `s` from `i` on with white space before `i`, and `t` is `u`
   * without white space after it, then `t` is a slice of `s` with white space
   * only around it, and it keeps the ends of `u` and of `s[i..]`.
   */
  lemma TrimmedSlice(s: string, i: nat, u: string, t: string)
    requires i <= |s| && u == s[i..] && |t| <= |u| && t == u[..|t|]
    requires forall k :: 0 <= k < i ==> IsWhiteSpace(s[k])
    requires u != [] ==> !IsWhiteSpace(u[0])
    requires forall k :: |t| <= k < |u| ==> IsWhiteSpace(u[k])
    requires t != [] ==> !IsWhiteSpace(t[|t| - 1])
    ensures i + |t| <= |s| && t == s[i..i + |t|]
    ensures forall k :: 0 <= k < i ==> IsWhiteSpace(s[k])
    ensures forall k :: i + |t| <= k < |s| ==> IsWhiteSpace(s[k])
    ensures t != [] ==> !IsWhiteSpace(t[0]) && !IsWhiteSpace(t[|t| - 1])
  {
    forall k | i + |t| <= k < |s|
      ensures IsWhiteSpace(s[k])
    {
      assert s[k] == u[k - i];
    }
    if t != [] {
      assert t[0] == u[0];
    }
  }

  /**
   * SplitToArray(s, segment): null for a null or empty `s`; otherwise the
   * pieces of `s` between the separators, each trimmed in place.
   */
  method SplitToArray(s: Option<string>, segment: char) returns (r: Option<array<string>>)
    ensures s.None? || s.value == [] ==> r.None?
    ensures s.Some? && s.value != [] ==> r.Some? && fresh(r.value)
    ensures r.Some? ==> |r.value[..]| == |Split(s.value, segment)|
    ensures r.Some? ==> forall i :: 0 <= i < r.value.Length ==> r.value[i] == Trim(Split(s.value, segment)[i])
  {
    if s.None? || s.value == [] {
      return None;
    }
    var parts := Split(s.value, segment);
    var pieces := new string[|parts|](i requires 0 <= i < |parts| => parts[i]);
    var len := pieces.Length;
    for i := 0 to len
      invariant forall j :: 0 <= j < i ==> pieces[j] == Trim(parts[j])
      invariant forall j :: i <= j < len ==> pieces[j] == parts[j]
    {
      pieces[i] := Trim(pieces[i]);
    }
    return Some(pieces);
  }

  /** "a| b |" splits into "a", " b " and an empty last piece. */
  lemma SplitExample()
    ensures Split("a| b |", '|') == ["a", " b ", ""]
  {
    assert "a| b |"[1..] == "| b |" && "| b |"[1..] == " b |" && " b |"[1..] == "b |";
    assert "b |"[1..] == " |" && " |"[1..] == "|" && "|"[1..] == "";
    assert Split("|", '|') == ["", ""];
    assert Split(" |", '|') == [" ", ""] by {
      assert [' '] + "" == " ";
    }
    assert Split("b |", '|') == ["b ", ""] by {
      assert ['b'] + " " == "b ";
    }
    assert Split(" b |", '|') == [" b ", ""] by {
      assert [' '] + "b " == " b ";
    }
    assert Split("| b |", '|') == ["", " b ", ""];
    assert ['a'] + "" == "a";
  }

  /** Trimming " b " gives "b". */
  lemma TrimExample()
    ensures Trim(" b ") == "b"
  {
    assert SkipWhiteSpace(" b ", 0) == 1 && " b "[1..] == "b ";
    assert BackWhiteSpace("b ", 2) == 1 && "b "[..1] == "b";
  }
}
