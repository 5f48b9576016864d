/** Text files as sequences of lines, the two ways Python 2 cuts them:
    `str.splitlines()` (terminators dropped) and `file.readlines()`
    (terminators kept), with the matching ways of writing lines back. */
module Lines {

  /** A character that ends a line for `str.splitlines()` on a byte string. */
  predicate IsBreak(c: char) {
    c == '\n' || c == '\r'
  }

  predicate NoBreaks(s: string) {
    forall k :: 0 <= k < |s| ==> !IsBreak(s[k])
  }

  /** The index of the first line break of `s`, or `|s|` when it has none. */
  function FirstBreak(s: string): (i: nat)
    ensures i <= |s|
    ensures i < |s| ==> IsBreak(s[i])
    ensures forall k :: 0 <= k < i ==> !IsBreak(s[k])
  {
    if s == [] || IsBreak(s[0]) then 0 else 1 + FirstBreak(s[1..])
  }

  /** `str.splitlines()`: the lines of `s` without their terminators, where a
      terminator is "\r\n", "\n" or "\r" and a final terminator does not open
      another line. No line it returns holds a break. */
  function SplitLines(s: string): (lines: seq<string>)
    ensures forall i :: 0 <= i < |lines| ==> NoBreaks(lines[i])
    decreases |s|
  {
    if s == [] then []
    else
      var i := FirstBreak(s);
      if i == |s| then [s]
      else
        var next := if s[i] == '\r' && i + 1 < |s| && s[i + 1] == '\n' then i + 2 else i + 1;
        [s[..i]] + SplitLines(s[next..])
  }

  /** The text left by writing `line + '\n'` for every line in turn. */
  function Render(lines: seq<string>): string
  {
    if lines == [] then "" else lines[0] + "\n" + Render(lines[1..])
  }

  /** The first break of a line without breaks followed by "\n" is that "\n". */
  lemma FirstBreakAfterLine(l: string, rest: string)
    requires NoBreaks(l)
    ensures FirstBreak(l + "\n" + rest) == |l|
  {
    var s := l + "\n" + rest;
    assert s[|l|] == '\n';
    forall k | 0 <= k < |l|
      ensures !IsBreak(s[k])
    {
      assert s[k] == l[k];
    }
  }

  /** `splitlines` cuts a line without breaks and its "\n" off the front. */
  lemma SplitLinesStep(l: string, rest: string)
    requires NoBreaks(l)
    ensures SplitLines(l + "\n" + rest) == [l] + SplitLines(rest)
  {
    var s := l + "\n" + rest;
    FirstBreakAfterLine(l, rest);
    assert s[..|l|] == l;
    assert s[|l| + 1..] == rest;
  }

  /** The first break of a line without breaks followed by a break is that break. */
  lemma FirstBreakAfter(l: string, b: char, rest: string)
    requires NoBreaks(l) && IsBreak(b)
    ensures FirstBreak(l + [b] + rest) == |l|
  {
    var s := l + [b] + rest;
    assert s[|l|] == b;
    forall k | 0 <= k < |l|
      ensures !IsBreak(s[k])
    {
      assert s[k] == l[k];
    }
  }

  /** `splitlines` cuts a line without breaks and its "\r\n" off the front. */
  lemma SplitLinesCrLf(l: string, rest: string)
    requires NoBreaks(l)
    ensures SplitLines(l + "\r\n" + rest) == [l] + SplitLines(rest)
  {
    var s := l + "\r\n" + rest;
    assert s == l + ['\r'] + ("\n" + rest);
    FirstBreakAfter(l, '\r', "\n" + rest);
    assert s[|l|] == '\r' && s[|l| + 1] == '\n';
    assert s[..|l|] == l;
    assert s[|l| + 2..] == rest;
  }

  /** `splitlines` cuts a line without breaks and a lone "\r" off the front,
      when no "\n" follows the "\r". */
  lemma SplitLinesCr(l: string, rest: string)
    requires NoBreaks(l)
    requires rest == [] || rest[0] != '\n'
    ensures SplitLines(l + "\r" + rest) == [l] + SplitLines(rest)
  {
    var s := l + "\r" + rest;
    FirstBreakAfter(l, '\r', rest);
    assert s[..|l|] == l;
    assert s[|l| + 1..] == rest;
  }

  /** For text without "\r", writing back the lines `splitlines` finds gives
      the text, with a "\n" added at the end when it does not end in one. */
  lemma {:induction false} RenderSplitLines(s: string)
    requires '\r' !in s
    ensures Render(SplitLines(s)) == if s == [] || EndsInNewline(s) then s else s + "\n"
    decreases |s|
  {
    if s != [] {
      var i := FirstBreak(s);
      if i == |s| {
        assert SplitLines(s) == [s];
        RenderOne(s);
      } else {
        var l, rest := s[..i], s[i + 1..];
        assert s == l + "\n" + rest;
        SplitLinesStep(l, rest);
        RenderSplitLines(rest);
        RenderCons(l, SplitLines(rest));
        LastOfNewlineJoin(l, rest);
      }
    }
  }

  lemma RenderOne(l: string)
    ensures Render([l]) == l + "\n"
  {
    assert [l][1..] == [];
  }

  lemma RenderCons(l: string, lines: seq<string>)
    ensures Render([l] + lines) == l + "\n" + Render(lines)
  {
    assert ([l] + lines)[1..] == lines;
  }

  /** `l + "\n" + rest` ends in "\n" when `rest` is empty or ends in one,
      and otherwise not. */
  lemma LastOfNewlineJoin(l: string, rest: string)
    ensures EndsInNewline(l + "\n" + rest) <==> rest == [] || EndsInNewline(rest)
  {
    var s := l + "\n" + rest;
    if rest != [] {
      assert s[|s| - 1] == rest[|rest| - 1];
    }
  }

  /** Text written line by line is read back by `splitlines` as the same
      lines, provided no line holds a break of its own. */
  lemma {:induction false} SplitLinesRender(lines: seq<string>)
    requires forall i :: 0 <= i < |lines| ==> NoBreaks(lines[i])
    ensures SplitLines(Render(lines)) == lines
    decreases |lines|
  {
    if lines != [] {
      var tail := lines[1..];
      forall i | 0 <= i < |tail|
        ensures NoBreaks(tail[i])
      {
        assert tail[i] == lines[i + 1];
      }
      SplitLinesRender(tail);
      SplitLinesStep(lines[0], Render(tail));
    }
  }

  lemma {:induction false} RenderAppend(a: seq<string>, b: seq<string>)
    ensures Render(a + b) == Render(a) + Render(b)
    decreases |a|
  {
    if a != [] {
      assert (a + b)[1..] == a[1..] + b;
      RenderAppend(a[1..], b);
    } else {
      assert a + b == b;
    }
  }

  /** The concatenation of pieces of text. */
  function Concat(pieces: seq<string>): string
  {
    if pieces == [] then "" else pieces[0] + Concat(pieces[1..])
  }

  lemma {:induction false} ConcatAppend(a: seq<string>, b: seq<string>)
    ensures Concat(a + b) == Concat(a) + Concat(b)
    decreases |a|
  {
    if a != [] {
      assert (a + b)[1..] == a[1..] + b;
      ConcatAppend(a[1..], b);
    } else {
      assert a + b == b;
    }
  }

  /** A piece `readlines` can return: non-empty, with no "\n" before its last character. */
  predicate IsLine(x: string) {
    x != [] && forall k :: 0 <= k < |x| - 1 ==> x[k] != '\n'
  }

  /** Text without "\n", with one appended, is one line ending in "\n". */
  lemma NewlineTerminated(t: string)
    requires '\n' !in t
    ensures IsLine(t + "\n") && EndsInNewline(t + "\n")
  {
    var x := t + "\n";
    assert forall k :: 0 <= k < |x| - 1 ==> x[k] == t[k];
  }

  predicate EndsInNewline(x: string) {
    x != [] && x[|x| - 1] == '\n'
  }

  /** Pieces shaped as `readlines` returns them: every piece is a line, and
      every piece but the last ends in "\n". */
  predicate WellSplit(pieces: seq<string>) {
    forall i :: 0 <= i < |pieces| ==>
      IsLine(pieces[i]) && (i < |pieces| - 1 ==> EndsInNewline(pieces[i]))
  }

  /** The index of the first "\n" of `s`, or `|s|` when it has none. */
  function FirstNewline(s: string): (i: nat)
    ensures i <= |s|
    ensures i < |s| ==> s[i] == '\n'
    ensures forall k :: 0 <= k < i ==> s[k] != '\n'
  {
    if s == [] || s[0] == '\n' then 0 else 1 + FirstNewline(s[1..])
  }

  /** `file.readlines()` on a file opened in text mode without newline
      translation: `s` cut just after every "\n". The pieces put back
      together give `s`, and they are well split. */
  function ReadLines(s: string): (pieces: seq<string>)
    ensures Concat(pieces) == s
    ensures WellSplit(pieces)
    decreases |s|
  {
    if s == [] then []
    else
      var i := FirstNewline(s);
      if i == |s| then [s]
      else
        var rest := ReadLines(s[i + 1..]);
        assert s == s[..i + 1] + s[i + 1..];
        [s[..i + 1]] + rest
  }

  /** Well-split pieces written one after the other are read back by
      `readlines` as the same pieces. */
  lemma {:induction false} ReadLinesConcat(pieces: seq<string>)
    requires WellSplit(pieces)
    ensures ReadLines(Concat(pieces)) == pieces
    decreases |pieces|
  {
    if pieces != [] {
      var x, rest := pieces[0], Concat(pieces[1..]);
      var s := Concat(pieces);
      assert IsLine(x);
      assert forall k :: 0 <= k < |x| ==> s[k] == x[k];
      var i := FirstNewline(s);
      assert WellSplit(pieces[1..]) by {
        forall j | 0 <= j < |pieces| - 1
          ensures IsLine(pieces[1..][j]) && (j < |pieces| - 2 ==> EndsInNewline(pieces[1..][j]))
        {
          assert pieces[1..][j] == pieces[j + 1];
        }
      }
      ReadLinesConcat(pieces[1..]);
      if EndsInNewline(x) {
        assert i == |x| - 1;
        assert s[..i + 1] == x;
        assert s[i + 1..] == rest;
      } else {
        assert |pieces| == 1;
        assert rest == "" && s == x;
        assert i == |s|;
      }
    }
  }

  /** Appending well-split pieces to well-split pieces that end in "\n"
      keeps them well split. */
  lemma WellSplitAppend(a: seq<string>, b: seq<string>)
    requires WellSplit(a) && WellSplit(b)
    requires a != [] && b != [] ==> EndsInNewline(a[|a| - 1])
    ensures WellSplit(a + b)
  {
    forall i | 0 <= i < |a + b|
      ensures IsLine((a + b)[i]) && (i < |a + b| - 1 ==> EndsInNewline((a + b)[i]))
    {
      if i < |a| {
        assert (a + b)[i] == a[i];
      } else {
        assert (a + b)[i] == b[i - |a|];
      }
    }
  }

  /** The last piece `readlines` cuts from text ending in a newline ends in one too. */
  lemma LastPieceEnds(s: string)
    requires EndsInNewline(s)
    ensures ReadLines(s) != [] && EndsInNewline(ReadLines(s)[|ReadLines(s)| - 1])
  {
    var p := ReadLines(s);
    var n := |p| - 1;
    var last := p[n];
    assert p == p[..n] + [last];
    ConcatAppend(p[..n], [last]);
    assert Concat([last]) == last;
    var head := Concat(p[..n]);
    assert s == head + last;
    assert IsLine(last);
    assert s[|s| - 1] == last[|last| - 1];
  }

  /** Text ending in a newline is read as its own lines followed by the
      lines of whatever comes after it. */
  lemma ReadLinesAppend(a: string, b: string)
    requires a == [] || EndsInNewline(a)
    ensures ReadLines(a + b) == ReadLines(a) + ReadLines(b)
  {
    if a == [] {
      assert a + b == b;
    } else {
      var pa, pb := ReadLines(a), ReadLines(b);
      LastPieceEnds(a);
      WellSplitAppend(pa, pb);
      ConcatAppend(pa, pb);
      assert Concat(pa + pb) == a + b;
      ReadLinesConcat(pa + pb);
    }
  }
}
