/**
  The vo-rolemap output plugin: it keeps one guarded block in the file,
  between a start guard line and an end guard line, and replaces the lines
  inside it with one `"<dn>" "" -` line per banned DN. A file without the
  block gets one at its top. The file is read with `readlines`, so every
  line keeps its "\n".
*/
module Vorm {
  import opened Wrappers
  import opened Text
  import opened Lines
  import Files

  /** The user name given to banned DNs. */
  const BANNED_USERNAME: string := "-"
  /** The two comment lines above a created block; one string with a "\n" inside. */
  const GUARD_TEXT: string := COMMENT_ADDED + "\n" + COMMENT_HANDS_OFF
  const GUARD_START: string := "### fetch-ban start"
  const GUARD_END: string := "### fetch-ban end"
  const UNMATCHED_END: string := "Unmatched end guard found?"
  const UNMATCHED_START: string := "Unmatched start guard found?"

  /** The two comment lines `GUARD_TEXT` holds. The first is the
      concatenation of two shorter literals, which keeps `'\n' !in` about it
      decidable piece by piece in `CommentAddedText`. */
  const COMMENT_ADDED: string := "### This block was automatically " + "added by fetch-ban."
  const COMMENT_HANDS_OFF: string := "### Please do not edit it by hand."

  /** The first comment holds no "\n" and differs from the guards at its
      fifth character. */
  lemma CommentAddedText()
    ensures '\n' !in COMMENT_ADDED && |COMMENT_ADDED| > 4 && COMMENT_ADDED[4] == 'T'
  {
  }

  lemma CommentHandsOffText()
    ensures '\n' !in COMMENT_HANDS_OFF && |COMMENT_HANDS_OFF| > 4 && COMMENT_HANDS_OFF[4] == 'P'
  {
  }

  /** The guards hold no "\n" and differ at their fifteenth character. */
  lemma GuardTexts()
    ensures '\n' !in GUARD_START && GUARD_START[4] == 'f' && GUARD_START[14] == 's'
    ensures '\n' !in GUARD_END && GUARD_END[4] == 'f' && GUARD_END[14] == 'e'
  {
  }

  /** `'"%s" "" %s\n' % (dn, BANNED_USERNAME)` */
  function BanLine(dn: string): string
  {
    "\"" + dn + "\" \"\" " + BANNED_USERNAME + "\n"
  }

  /** The line for each DN, in ban-list order. */
  function BanLines(banList: seq<string>): (lines: seq<string>)
    ensures |lines| == |banList|
    ensures forall i {:trigger lines[i]} :: 0 <= i < |banList| ==> lines[i] == BanLine(banList[i])
  {
    seq(|banList|, i requires 0 <= i < |banList| => BanLine(banList[i]))
  }

  /** What a file without a block gets on top: the two entries above the
      ban lines and the one below them. */
  const HEADER: seq<string> := [GUARD_TEXT + "\n", GUARD_START + "\n"]
  const END_LINE: string := GUARD_END + "\n\n"

  predicate IsStartGuard(line: string)
  {
    StartsWith(line, GUARD_START)
  }

  /** The scan tests for the start guard first, so an end guard is a line
      that starts with `GUARD_END` and not with `GUARD_START`. */
  predicate IsEndGuard(line: string)
  {
    !IsStartGuard(line) && StartsWith(line, GUARD_END)
  }

  /** The index of the first end guard, or `|lines|` when there is none. */
  function FirstEnd(lines: seq<string>): (e: nat)
    ensures e <= |lines|
    ensures e < |lines| ==> IsEndGuard(lines[e])
    ensures forall k :: 0 <= k < e ==> !IsEndGuard(lines[k])
  {
    if lines == [] then 0
    else if IsEndGuard(lines[0]) then 0
    else 1 + FirstEnd(lines[1..])
  }

  /** The index of the last start guard before index `e`, or -1 when there is none. */
  function LastStartBefore(lines: seq<string>, e: nat): (s: int)
    requires e <= |lines|
    ensures -1 <= s < e
    ensures s >= 0 ==> IsStartGuard(lines[s])
    ensures forall k :: s < k < e ==> !IsStartGuard(lines[k])
  {
    if e == 0 then -1
    else if IsStartGuard(lines[e - 1]) then e - 1
    else LastStartBefore(lines, e - 1)
  }

  /** What `process` makes of the lines it read: the error it returns, or
      the lines it writes. Without any guard a block is put on top; with a
      block, the lines strictly between its guards give way to the ban
      lines, which come out last DN first. */
  function Updated(lines: seq<string>, banList: seq<string>): Result<seq<string>, string>
  {
    var e := FirstEnd(lines);
    var s := LastStartBefore(lines, e);
    if s < 0 && e == |lines| then Ok(HEADER + Reverse(BanLines(banList)) + [END_LINE] + lines)
    else if s < 0 then Err(UNMATCHED_END)
    else if e == |lines| then Err(UNMATCHED_START)
    else Ok(lines[..s + 1] + Reverse(BanLines(banList)) + lines[e..])
  }

  /** "Unmatched end guard" exactly when there is an end guard and no start
      guard precedes the first one. */
  lemma UnmatchedEndIff(lines: seq<string>, banList: seq<string>)
    ensures Updated(lines, banList) == Err(UNMATCHED_END) <==>
      exists e :: 0 <= e < |lines| && IsEndGuard(lines[e])
        && (forall k :: 0 <= k < e ==> !IsEndGuard(lines[k]) && !IsStartGuard(lines[k]))
  {
    var e := FirstEnd(lines);
    if Updated(lines, banList) == Err(UNMATCHED_END) {
      assert 0 <= e < |lines| && IsEndGuard(lines[e]);
    }
  }

  /** "Unmatched start guard" exactly when there is a start guard and no end guard. */
  lemma UnmatchedStartIff(lines: seq<string>, banList: seq<string>)
    ensures Updated(lines, banList) == Err(UNMATCHED_START) <==>
      (exists s :: 0 <= s < |lines| && IsStartGuard(lines[s]))
      && (forall k :: 0 <= k < |lines| ==> !IsEndGuard(lines[k]))
  {
    var e := FirstEnd(lines);
    var s := LastStartBefore(lines, e);
    if (exists s :: 0 <= s < |lines| && IsStartGuard(lines[s]))
      && (forall k :: 0 <= k < |lines| ==> !IsEndGuard(lines[k]))
    {
      assert e == |lines|;
      var t :| 0 <= t < |lines| && IsStartGuard(lines[t]);
      assert s >= t;
    }
  }

  /** A file with no guard at all gets the header, the ban lines, the end
      guard and a blank line on top of all its lines, which are kept. */
  lemma CreateBlock(lines: seq<string>, banList: seq<string>)
    requires forall k :: 0 <= k < |lines| ==> !IsStartGuard(lines[k]) && !IsEndGuard(lines[k])
    ensures Updated(lines, banList) == Ok(HEADER + Reverse(BanLines(banList)) + [END_LINE] + lines)
  {
  }

  /** A file with a block, its start guard at `s` and its end guard at `e`,
      keeps every line up to the start guard and from the end guard on, and
      between them holds exactly the ban lines, last DN first. */
  lemma ReplaceBlock(lines: seq<string>, banList: seq<string>, s: nat, e: nat)
    requires s < e < |lines| && IsStartGuard(lines[s]) && IsEndGuard(lines[e])
    requires forall k :: 0 <= k < e ==> !IsEndGuard(lines[k])
    requires forall k :: s < k < e ==> !IsStartGuard(lines[k])
    ensures Updated(lines, banList) == Ok(lines[..s + 1] + Reverse(BanLines(banList)) + lines[e..])
  {
    assert FirstEnd(lines) == e;
    assert LastStartBefore(lines, e) == s;
  }

  /** A ban line is neither guard, since it starts with a double quote. */
  lemma BanLineNoGuard(dn: string)
    ensures !IsStartGuard(BanLine(dn)) && !IsEndGuard(BanLine(dn))
  {
    assert BanLine(dn)[0] == '"';
    NotStartsWith(BanLine(dn), GUARD_START, 0);
    NotStartsWith(BanLine(dn), GUARD_END, 0);
  }

  /** No ban line is a guard. */
  lemma BanLinesNoGuard(banList: seq<string>)
    ensures forall k :: 0 <= k < |Reverse(BanLines(banList))| ==>
      !IsStartGuard(Reverse(BanLines(banList))[k]) && !IsEndGuard(Reverse(BanLines(banList))[k])
  {
    forall k | 0 <= k < |banList|
      ensures !IsStartGuard(Reverse(BanLines(banList))[k]) && !IsEndGuard(Reverse(BanLines(banList))[k])
    {
      BanLineNoGuard(banList[|banList| - 1 - k]);
    }
  }

  /** Running again on lines it wrote after replacing a block finds the same
      block, so the new ban lines replace the old ones and nothing else changes. */
  lemma ReplaceAgain(lines: seq<string>, banList: seq<string>, banList': seq<string>, s: nat, e: nat)
    requires s < e < |lines| && IsStartGuard(lines[s]) && IsEndGuard(lines[e])
    requires forall k :: 0 <= k < e ==> !IsEndGuard(lines[k])
    requires forall k :: s < k < e ==> !IsStartGuard(lines[k])
    ensures Updated(lines[..s + 1] + Reverse(BanLines(banList)) + lines[e..], banList')
      == Updated(lines, banList')
  {
    var bans := Reverse(BanLines(banList));
    var out := lines[..s + 1] + bans + lines[e..];
    var e' := s + 1 + |bans|;
    BanLinesNoGuard(banList);
    assert out[s] == lines[s];
    assert out[e'] == lines[e];
    forall k | 0 <= k < e'
      ensures !IsEndGuard(out[k])
    {
      if k <= s {
        assert out[k] == lines[k];
      } else {
        assert out[k] == bans[k - s - 1];
      }
    }
    forall k | s < k < e'
      ensures !IsStartGuard(out[k])
    {
      assert out[k] == bans[k - s - 1];
    }
    ReplaceBlock(out, banList', s, e');
    ReplaceBlock(lines, banList', s, e);
    assert out[..s + 1] == lines[..s + 1];
    assert out[e'..] == lines[e..];
  }

  /** `list.reverse` of one more element. */
  lemma ReverseSnoc<T>(a: seq<T>, x: T)
    ensures Reverse(a + [x]) == [x] + Reverse(a)
  {
    var l, r := Reverse(a + [x]), [x] + Reverse(a);
    forall i | 0 <= i < |l|
      ensures l[i] == r[i]
    {
      if i > 0 {
        assert (a + [x])[|a| - i] == a[|a| - 1 - (i - 1)];
      }
    }
  }

  /** The scan of `process`: it stops at the first end guard, having
      recorded one past the last start guard seen before it; -1 stands for
      a guard not found. */
  method ScanGuards(vormLines: seq<string>) returns (guardStart: int, guardEnd: int)
    ensures var e := FirstEnd(vormLines);
      guardEnd == (if e < |vormLines| then e else -1)
    ensures var s := LastStartBefore(vormLines, FirstEnd(vormLines));
      guardStart == (if s >= 0 then s + 1 else -1)
  {
    guardStart := -1;
    guardEnd := -1;
    var i := 0;
    while i < |vormLines|
      invariant 0 <= i <= |vormLines|
      invariant forall k :: 0 <= k < i ==> !IsEndGuard(vormLines[k])
      invariant guardEnd == -1
      invariant var s := LastStartBefore(vormLines, i); guardStart == (if s >= 0 then s + 1 else -1)
    {
      var lineText := vormLines[i];
      if StartsWith(lineText, GUARD_START) {
        guardStart := i + 1;
      } else if StartsWith(lineText, GUARD_END) {
        guardEnd := i;
        assert FirstEnd(vormLines) == i;
        return;
      }
      i := i + 1;
    }
  }

  /** The lines `del vorm_lines[guardStart:guardEnd]` and the insertions at
      `guardStart` leave: the ban lines, last DN first, in place of the
      deleted ones. */
  method ReplaceRegion(vormLines: seq<string>, guardStart: nat, guardEnd: nat, banList: seq<string>)
    returns (out: seq<string>)
    requires guardStart <= guardEnd <= |vormLines|
    ensures out == vormLines[..guardStart] + Reverse(BanLines(banList)) + vormLines[guardEnd..]
  {
    out := vormLines[..guardStart] + vormLines[guardEnd..];
    ghost var base := out;
    assert base[..guardStart] == vormLines[..guardStart];
    assert base[guardStart..] == vormLines[guardEnd..];
    var i := 0;
    while i < |banList|
      invariant 0 <= i <= |banList|
      invariant out == base[..guardStart] + Reverse(BanLines(banList[..i])) + base[guardStart..]
    {
      assert out[..guardStart] == base[..guardStart];
      assert out[guardStart..] == Reverse(BanLines(banList[..i])) + base[guardStart..];
      assert BanLines(banList[..i + 1]) == BanLines(banList[..i]) + [BanLine(banList[i])];
      ReverseSnoc(BanLines(banList[..i]), BanLine(banList[i]));
      out := out[..guardStart] + [BanLine(banList[i])] + out[guardStart..];
      i := i + 1;
    }
    assert banList[..i] == banList;
  }

  /** How `readlines` cuts a created header: the two comment lines, then the
      start guard line. */
  const HEADER_LINES: seq<string> := [COMMENT_ADDED + "\n", COMMENT_HANDS_OFF + "\n", GUARD_START + "\n"]
  /** How `readlines` cuts the end guard entry: the guard line, then a blank line. */
  const END_LINES: seq<string> := [GUARD_END + "\n", "\n"]

  /** A comment line is one line and no guard. */
  lemma CommentLine(t: string)
    requires '\n' !in t && |t| > 4 && t[4] != 'f'
    ensures IsLine(t + "\n") && EndsInNewline(t + "\n")
    ensures !IsStartGuard(t + "\n") && !IsEndGuard(t + "\n")
  {
    GuardTexts();
    NewlineTerminated(t);
    NotStartsWith(t + "\n", GUARD_START, 4);
    NotStartsWith(t + "\n", GUARD_END, 4);
  }

  /** A guard text with "\n" appended is one line starting with that guard. */
  lemma GuardLine(g: string)
    requires '\n' !in g
    ensures IsLine(g + "\n") && EndsInNewline(g + "\n") && StartsWith(g + "\n", g)
  {
    NewlineTerminated(g);
    assert (g + "\n")[..|g|] == g;
  }

  /** Two lines in one entry write the same text as the lines apart. */
  lemma HeaderConcat(a: string, b: string, g: string)
    ensures Concat([a + "\n" + b + "\n", g + "\n"]) == Concat([a + "\n", b + "\n", g + "\n"])
  {
    var l, r := [a + "\n" + b + "\n", g + "\n"], [a + "\n", b + "\n", g + "\n"];
    assert l[1..][1..] == [] && r[1..][1..][1..] == [];
    assert Concat(l) == l[0] + (l[1] + Concat(l[1..][1..]));
    assert Concat(r) == r[0] + (r[1] + (r[2] + Concat(r[1..][1..][1..])));
  }

  lemma HeaderLines()
    ensures Concat(HEADER_LINES) == Concat(HEADER)
    ensures forall i :: 0 <= i < 3 ==> IsLine(HEADER_LINES[i]) && EndsInNewline(HEADER_LINES[i])
    ensures !IsStartGuard(HEADER_LINES[0]) && !IsEndGuard(HEADER_LINES[0])
    ensures !IsStartGuard(HEADER_LINES[1]) && !IsEndGuard(HEADER_LINES[1])
    ensures IsStartGuard(HEADER_LINES[2])
  {
    CommentAddedText();
    CommentHandsOffText();
    GuardTexts();
    CommentLine(COMMENT_ADDED);
    CommentLine(COMMENT_HANDS_OFF);
    GuardLine(GUARD_START);
    HeaderConcat(COMMENT_ADDED, COMMENT_HANDS_OFF, GUARD_START);
  }

  lemma EndLines()
    ensures Concat(END_LINES) == END_LINE == Concat([END_LINE])
    ensures forall i :: 0 <= i < 2 ==> IsLine(END_LINES[i]) && EndsInNewline(END_LINES[i])
    ensures IsEndGuard(END_LINES[0])
    ensures !IsStartGuard(END_LINES[1]) && !IsEndGuard(END_LINES[1])
  {
    assert END_LINES[1..] == ["\n"] && END_LINES[1..][1..] == [];
    assert Concat(END_LINES[1..]) == "\n" + Concat(END_LINES[1..][1..]);
    assert Concat(END_LINES) == END_LINES[0] + Concat(END_LINES[1..]);
    assert Concat([END_LINE]) == END_LINE + Concat([END_LINE][1..]);
    GuardTexts();
    NewlineTerminated(GUARD_END);
    NotStartsWith(END_LINES[0], GUARD_START, 14);
    assert (GUARD_END + "\n")[..|GUARD_END|] == GUARD_END;
  }

  /** A DN without "\n" gives one ban line ending in "\n". */
  lemma BanLineIsLine(dn: string)
    requires '\n' !in dn
    ensures IsLine(BanLine(dn)) && EndsInNewline(BanLine(dn))
  {
    var t := "\"" + dn + "\" \"\" " + BANNED_USERNAME;
    assert '\n' !in t;
    assert BanLine(dn) == t + "\n";
    NewlineTerminated(t);
  }

  /** The ban lines, in the order written, are lines ending in "\n". */
  lemma BanLinesAreLines(banList: seq<string>)
    requires forall dn :: dn in banList ==> '\n' !in dn
    ensures forall k :: 0 <= k < |Reverse(BanLines(banList))| ==>
      IsLine(Reverse(BanLines(banList))[k]) && EndsInNewline(Reverse(BanLines(banList))[k])
  {
    forall k | 0 <= k < |banList|
      ensures IsLine(Reverse(BanLines(banList))[k]) && EndsInNewline(Reverse(BanLines(banList))[k])
    {
      var dn := banList[|banList| - 1 - k];
      assert dn in banList;
      BanLineIsLine(dn);
    }
  }

  /** Lines that all end in "\n" are well split. */
  lemma AllTerminated(pieces: seq<string>)
    requires forall k :: 0 <= k < |pieces| ==> IsLine(pieces[k]) && EndsInNewline(pieces[k])
    ensures WellSplit(pieces)
  {
  }

  lemma ConcatFour(a: seq<string>, b: seq<string>, c: seq<string>, d: seq<string>)
    ensures Concat(a + b + c + d) == Concat(a) + Concat(b) + Concat(c) + Concat(d)
  {
    ConcatAppend(a + b + c, d);
    ConcatAppend(a + b, c);
    ConcatAppend(a, b);
  }

  lemma ConcatThree(a: seq<string>, b: seq<string>, c: seq<string>)
    ensures Concat(a + b + c) == Concat(a) + Concat(b) + Concat(c)
  {
    ConcatAppend(a + b, c);
    ConcatAppend(a, b);
  }

  /** `readlines` on a file with a created block gives the header's three
      lines, the ban lines, the end guard line, the blank line and the
      original lines. */
  lemma CreatedReadBack(lines: seq<string>, banList: seq<string>)
    requires WellSplit(lines)
    requires forall dn :: dn in banList ==> '\n' !in dn
    ensures ReadLines(Concat(HEADER + Reverse(BanLines(banList)) + [END_LINE] + lines))
      == HEADER_LINES + Reverse(BanLines(banList)) + END_LINES + lines
  {
    var bans := Reverse(BanLines(banList));
    HeaderLines();
    EndLines();
    BanLinesAreLines(banList);
    SameConcat(HEADER, HEADER_LINES, bans, [END_LINE], END_LINES, lines);
    TerminatedReadBack(HEADER_LINES, bans, END_LINES, lines);
  }

  /** Pieces that concatenate alike, joined in the same pattern, concatenate alike. */
  lemma SameConcat(a: seq<string>, a': seq<string>, b: seq<string>, c: seq<string>, c': seq<string>, d: seq<string>)
    requires Concat(a) == Concat(a') && Concat(c) == Concat(c')
    ensures Concat(a + b + c + d) == Concat(a' + b + c' + d)
  {
    ConcatFour(a, b, c, d);
    ConcatFour(a', b, c', d);
  }

  /** Three runs of lines ending in "\n", then well-split lines, are read
      back as they are. */
  lemma TerminatedReadBack(a: seq<string>, b: seq<string>, c: seq<string>, d: seq<string>)
    requires forall k :: 0 <= k < |a| ==> IsLine(a[k]) && EndsInNewline(a[k])
    requires forall k :: 0 <= k < |b| ==> IsLine(b[k]) && EndsInNewline(b[k])
    requires forall k :: 0 <= k < |c| ==> IsLine(c[k]) && EndsInNewline(c[k])
    requires WellSplit(d)
    ensures ReadLines(Concat(a + b + c + d)) == a + b + c + d
  {
    AllTerminated(a);
    AllTerminated(b);
    AllTerminated(c);
    WellSplitAppend(a, b);
    WellSplitAppend(a + b, c);
    WellSplitAppend(a + b + c, d);
    ReadLinesConcat(a + b + c + d);
  }

  /** A created block, read back line by line, is found by the next run:
      its inside is replaced and every other line kept. The header and end
      lines are parameters so that their text stays out of the proof. */
  lemma ReplaceCreated(head: seq<string>, tail: seq<string>, lines: seq<string>,
                       banList: seq<string>, banList': seq<string>)
    requires |head| == 3 && |tail| == 2
    requires !IsStartGuard(head[0]) && !IsEndGuard(head[0])
    requires !IsStartGuard(head[1]) && !IsEndGuard(head[1])
    requires IsStartGuard(head[2]) && IsEndGuard(tail[0])
    ensures Updated(head + Reverse(BanLines(banList)) + tail + lines, banList')
      == Ok(head + Reverse(BanLines(banList')) + tail + lines)
  {
    var bans, bans' := Reverse(BanLines(banList)), Reverse(BanLines(banList'));
    var pieces := head + bans + tail + lines;
    BanLinesNoGuard(banList);
    var e := 3 + |bans|;
    assert pieces[2] == head[2];
    assert pieces[e] == tail[0];
    forall k | 0 <= k < e
      ensures !IsEndGuard(pieces[k]) && (2 < k ==> !IsStartGuard(pieces[k]))
    {
      if k < 3 {
        assert pieces[k] == head[k];
      } else {
        assert pieces[k] == bans[k - 3];
      }
    }
    ReplaceBlock(pieces, banList', 2, e);
    assert pieces[..3] == head;
    assert pieces[e..] == tail + lines;
    assert head + bans' + (tail + lines) == head + bans' + tail + lines;
  }

  /** Running again on a file it gave a block finds that block rather than
      adding a second one: the file it then writes is the one a single run
      with the new ban list writes. */
  lemma RerunAfterCreate(lines: seq<string>, banList: seq<string>, banList': seq<string>)
    requires WellSplit(lines)
    requires forall k :: 0 <= k < |lines| ==> !IsStartGuard(lines[k]) && !IsEndGuard(lines[k])
    requires forall dn :: dn in banList ==> '\n' !in dn
    ensures var again := Updated(ReadLines(Concat(HEADER + Reverse(BanLines(banList)) + [END_LINE] + lines)), banList');
      again.Ok? && Concat(again.value) == Concat(Updated(lines, banList').value)
  {
    CreatedReadBack(lines, banList);
    HeaderLines();
    EndLines();
    ReplaceCreated(HEADER_LINES, END_LINES, lines, banList, banList');
    CreateBlock(lines, banList');
    SameConcat(HEADER, HEADER_LINES, Reverse(BanLines(banList')), [END_LINE], END_LINES, lines);
  }

  /** Running again on a file whose block it replaced finds the same block:
      the file it then writes is the one a single run with the new ban list
      writes. */
  lemma RerunAfterReplace(lines: seq<string>, banList: seq<string>, banList': seq<string>, s: nat, e: nat)
    requires WellSplit(lines)
    requires s < e < |lines| && IsStartGuard(lines[s]) && IsEndGuard(lines[e])
    requires forall k :: 0 <= k < e ==> !IsEndGuard(lines[k])
    requires forall k :: s < k < e ==> !IsStartGuard(lines[k])
    requires forall dn :: dn in banList ==> '\n' !in dn
    ensures var again := Updated(ReadLines(Concat(lines[..s + 1] + Reverse(BanLines(banList)) + lines[e..])), banList');
      again == Updated(lines, banList')
  {
    var bans := Reverse(BanLines(banList));
    var out := lines[..s + 1] + bans + lines[e..];
    BanLinesAreLines(banList);
    AllTerminated(bans);
    var prefix := lines[..s + 1];
    forall k | 0 <= k < |prefix|
      ensures IsLine(prefix[k]) && EndsInNewline(prefix[k])
    {
      assert prefix[k] == lines[k];
    }
    AllTerminated(prefix);
    assert WellSplit(lines[e..]) by {
      forall k | 0 <= k < |lines| - e
        ensures IsLine(lines[e..][k]) && (k < |lines| - e - 1 ==> EndsInNewline(lines[e..][k]))
      {
        assert lines[e..][k] == lines[e + k];
      }
    }
    WellSplitAppend(lines[..s + 1], bans);
    WellSplitAppend(lines[..s + 1] + bans, lines[e..]);
    ReadLinesConcat(out);
    ReplaceAgain(lines, banList, banList', s, e);
  }

  /** Whatever file a run wrote, a later run with a new ban list writes
      what a single run with that list on the original file writes: the
      block is found again, never added twice, and only its inside changes. */
  lemma Rerun(content: string, banList: seq<string>, banList': seq<string>)
    requires Updated(ReadLines(content), banList).Ok?
    requires forall dn :: dn in banList ==> '\n' !in dn
    ensures var again := Updated(ReadLines(Concat(Updated(ReadLines(content), banList).value)), banList');
      again.Ok? && Concat(again.value) == Concat(Updated(ReadLines(content), banList').value)
  {
    var lines := ReadLines(content);
    var e := FirstEnd(lines);
    var s := LastStartBefore(lines, e);
    if s < 0 && e == |lines| {
      RerunAfterCreate(lines, banList, banList');
    } else {
      RerunAfterReplace(lines, banList, banList', s, e);
    }
  }

  /** The three insertions at the top of a file without guards. */
  lemma InsertedInOrder<T>(a: T, b: T, c: T, rest: seq<T>)
    ensures var v1 := [a] + rest;
      var v2 := v1[..1] + [b] + v1[1..];
      v2[..2] + [c] + v2[2..] == [a, b] + [c] + rest
  {
    var v1 := [a] + rest;
    var v2 := v1[..1] + [b] + v1[1..];
    assert v2 == [a, b] + rest;
  }

  /** Replacing what lies between the second and the third item. */
  lemma SplicedAfterTwo<T>(h: seq<T>, e: T, rest: seq<T>, x: seq<T>)
    requires |h| == 2
    ensures (h + [e] + rest)[..2] + x + (h + [e] + rest)[2..] == h + x + [e] + rest
  {
    var v := h + [e] + rest;
    assert v[..2] == h;
    assert v[2..] == [e] + rest;
  }

  /** The update of the lines `process` read: the guard scan, the block
      created when there is none, the guard errors, and the region
      replaced. */
  method UpdateLines(lines: seq<string>, banList: seq<string>) returns (r: Result<seq<string>, string>)
    ensures r == Updated(lines, banList)
  {
    var vormLines := lines;
    var guardStart, guardEnd := ScanGuards(vormLines);
    if guardStart < 0 && guardEnd < 0 {
      vormLines := [GUARD_TEXT + "\n"] + vormLines;
      vormLines := vormLines[..1] + [GUARD_START + "\n"] + vormLines[1..];
      vormLines := vormLines[..2] + [GUARD_END + "\n\n"] + vormLines[2..];
      InsertedInOrder(GUARD_TEXT + "\n", GUARD_START + "\n", GUARD_END + "\n\n", lines);
      guardStart, guardEnd := 2, 2;
    } else if guardStart < 0 {
      return Err(UNMATCHED_END);
    } else if guardEnd < 0 {
      return Err(UNMATCHED_START);
    }
    ghost var kept := vormLines;
    vormLines := ReplaceRegion(vormLines, guardStart, guardEnd, banList);
    if guardEnd == 2 && FirstEnd(lines) == |lines| {
      SplicedAfterTwo(HEADER, END_LINE, lines, Reverse(BanLines(banList)));
    }
    return Ok(vormLines);
  }

  /** The write loop: every line written as it is, one after the other. */
  method WriteOut(vormLines: seq<string>) returns (content: string)
    ensures content == Concat(vormLines)
  {
    content := "";
    var i := 0;
    while i < |vormLines|
      invariant 0 <= i <= |vormLines|
      invariant content == Concat(vormLines[..i])
    {
      assert vormLines[..i + 1] == vormLines[..i] + [vormLines[i]];
      ConcatAppend(vormLines[..i], [vormLines[i]]);
      content := content + vormLines[i];
      i := i + 1;
    }
    assert vormLines[..i] == vormLines;
  }

  /** The text of the error returned when the file cannot be read. */
  function ReadError(filename: string, err: string): string
  {
    "Failed to read file '" + filename + "': " + err
  }

  /** The text of the error returned when the file cannot be written. */
  function WriteError(filename: string, err: string): string
  {
    "Failed to write file '" + filename + "': " + err
  }

  class VormOutput {
    var filename: Option<string>

    /** A fresh plugin has no file name. */
    constructor ()
      ensures filename == None
    {
      filename := None;
    }

    /** `configure`: the file name taken as given. */
    method Configure(filename: string)
      modifies this
      ensures this.filename == Some(filename)
    {
      this.filename := Some(filename);
    }

    /** `process`: the read error, or the guard error, with no file
        changed; otherwise the file's lines are updated and written back, or
        the write error is returned with no file changed. */
    method Process(banList: seq<string>, fs: Files.FileSystem) returns (err: Option<string>)
      requires filename.Some?
      modifies fs`files
      ensures var name := filename.value;
        name !in old(fs.files) ==>
          err == Some(ReadError(name, Files.NoSuchFile(name))) && fs.files == old(fs.files)
      ensures var name := filename.value;
        name in old(fs.files) && Updated(ReadLines(old(fs.files)[name]), banList).Err? ==>
          err == Some(Updated(ReadLines(old(fs.files)[name]), banList).error) && fs.files == old(fs.files)
      ensures var name := filename.value;
        name in old(fs.files) && Updated(ReadLines(old(fs.files)[name]), banList).Ok? && name in fs.readOnly ==>
          err == Some(WriteError(name, Files.PermissionDenied(name))) && fs.files == old(fs.files)
      ensures var name := filename.value;
        name in old(fs.files) && Updated(ReadLines(old(fs.files)[name]), banList).Ok? && name !in fs.readOnly ==>
          err == None
          && fs.files == old(fs.files)[name := Concat(Updated(ReadLines(old(fs.files)[name]), banList).value)]
    {
      var name := filename.value;
      var read := fs.Read(name);
      if read.Err? {
        return Some(ReadError(name, read.error));
      }
      var updated := UpdateLines(ReadLines(read.value), banList);
      if updated.Err? {
        return Some(updated.error);
      }
      var content := WriteOut(updated.value);
      var werr := fs.Write(name, content);
      if werr.Some? {
        return Some(WriteError(name, werr.value));
      }
      return None;
    }
  }
}
