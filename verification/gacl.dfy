/**
  The GACL output plugin: it merges the ban list into an existing GACL
  file. The file must hold its `<deny>` entries near the top, before any
  `<allow>`; the plugin keeps the first line, writes one 8-line deny entry
  per banned DN, and keeps the rest of the file from the fourth line after
  the last `<deny>` on.
*/
module Gacl {
  import opened Wrappers
  import opened Text
  import opened Lines
  import Files

  const DENY_TAG: string := "<deny>"
  const ALLOW_TAG: string := "<allow>"
  const EARLY_ERROR: string := "Unexpectedly early <deny> tag found"
  const LATE_ERROR: string := "Unexpectedly late <deny> tag found"

  predicate HasDeny(line: string)
  {
    Contains(line, DENY_TAG)
  }

  predicate HasAllow(line: string)
  {
    Contains(line, ALLOW_TAG)
  }

  /** The index of the last `<deny>` line, or 0 when there is none. */
  function LastDenyAt(doc: seq<string>): (r: nat)
    ensures r == 0 || (r < |doc| && HasDeny(doc[r]))
    ensures forall k :: r < k < |doc| ==> !HasDeny(doc[k])
  {
    if doc == [] then 0
    else if HasDeny(doc[|doc| - 1]) then |doc| - 1
    else LastDenyAt(doc[..|doc| - 1])
  }

  /** The value `first_allow_at` ends with: it is set at the first
      `<allow>` line while it is still 0, so an `<allow>` on line 0 leaves
      it 0 and the first `<allow>` after line 0 counts. */
  function FirstAllowAt(doc: seq<string>): (r: nat)
    ensures r == 0 ==> forall k :: 1 <= k < |doc| ==> !HasAllow(doc[k])
    ensures r != 0 ==> r < |doc| && HasAllow(doc[r]) && forall k :: 1 <= k < r ==> !HasAllow(doc[k])
  {
    if doc == [] then 0
    else
      var f := FirstAllowAt(doc[..|doc| - 1]);
      if HasAllow(doc[|doc| - 1]) && f == 0 then |doc| - 1 else f
  }

  /** The last `<deny>` line is the one with none after it. */
  lemma LastDenyAtUnique(doc: seq<string>, r: nat)
    requires r < |doc| && HasDeny(doc[r])
    requires forall k :: r < k < |doc| ==> !HasDeny(doc[k])
    ensures LastDenyAt(doc) == r
  {
  }

  /** The first `<allow>` after line 0 is found when there is one. */
  lemma FirstAllowAtFound(doc: seq<string>, t: nat)
    requires 1 <= t < |doc| && HasAllow(doc[t])
    ensures 1 <= FirstAllowAt(doc) <= t
  {
  }

  /** Some `<deny>` line sits on one of the first five lines. */
  predicate EarlyDeny(doc: seq<string>)
  {
    exists i :: 0 <= i < |doc| && i < 5 && HasDeny(doc[i])
  }

  /** What `sanity_check` returns or raises for a document. */
  function SanityResult(doc: seq<string>): Result<nat, string>
  {
    if EarlyDeny(doc) then Err(EARLY_ERROR)
    else if LastDenyAt(doc) > FirstAllowAt(doc) then Err(LATE_ERROR)
    else Ok(LastDenyAt(doc))
  }

  /** The ordering the check accepts, stated line by line: every `<deny>`
      line is on line 5 or later, no `<allow>` line other than line 0
      precedes it, and an `<allow>` line sits at or after it. */
  predicate WellOrdered(doc: seq<string>)
  {
    forall i :: 0 <= i < |doc| && HasDeny(doc[i]) ==>
      5 <= i
      && (forall k :: 1 <= k < i ==> !HasAllow(doc[k]))
      && (exists j :: i <= j < |doc| && HasAllow(doc[j]))
  }

  /** `sanity_check` accepts exactly the well-ordered documents. */
  lemma SanityOkIffWellOrdered(doc: seq<string>)
    ensures SanityResult(doc).Ok? <==> WellOrdered(doc)
  {
    var l, f := LastDenyAt(doc), FirstAllowAt(doc);
    if SanityResult(doc).Ok? {
      forall i | 0 <= i < |doc| && HasDeny(doc[i])
        ensures 5 <= i
        ensures forall k :: 1 <= k < i ==> !HasAllow(doc[k])
        ensures exists j :: i <= j < |doc| && HasAllow(doc[j])
      {
        assert !EarlyDeny(doc);
        assert i <= l;
        assert f != 0;
      }
    }
    if WellOrdered(doc) {
      assert !EarlyDeny(doc);
      if l > 0 {
        var j :| l <= j < |doc| && HasAllow(doc[j]);
        assert f != 0;
      }
    }
  }

  /** A document with a `<deny>` line but no `<allow>` line after line 0 is rejected. */
  lemma DenyWithoutAllowRejected(doc: seq<string>, i: nat)
    requires i < |doc| && HasDeny(doc[i])
    requires forall k :: 1 <= k < |doc| ==> !HasAllow(doc[k])
    ensures SanityResult(doc).Err?
  {
    SanityOkIffWellOrdered(doc);
  }

  /** On success the check returns the index of the last `<deny>` line, or
      0 when there is no `<deny>` line at all. */
  lemma SanityOkValue(doc: seq<string>)
    requires SanityResult(doc).Ok?
    ensures var n := SanityResult(doc).value;
      (n == 0 && forall k :: 0 <= k < |doc| ==> !HasDeny(doc[k]))
      || (5 <= n < |doc| && HasDeny(doc[n]) && forall k :: n < k < |doc| ==> !HasDeny(doc[k]))
  {
    assert !EarlyDeny(doc);
  }

  /** The lines of the deny entry written for one banned DN. */
  const ENTRY_OPEN: string := "  <entry>"
  const PERSON_OPEN: string := "    <person>"
  const PERSON_CLOSE: string := "    </person>"
  const DENY_OPEN: string := "    <deny>"
  const EXEC: string := "      <exec/>"
  const DENY_CLOSE: string := "    </deny>"
  const ENTRY_CLOSE: string := "  </entry>"

  function DnLine(dn: string): string
  {
    "      <dn>" + dn + "</dn>"
  }

  /** The 8-line deny entry for one DN; its `<deny>` line is line 4. */
  function GaclRecord(dn: string): seq<string>
  {
    [ENTRY_OPEN, PERSON_OPEN, DnLine(dn), PERSON_CLOSE, DENY_OPEN, EXEC, DENY_CLOSE, ENTRY_CLOSE]
  }

  /** The deny entries for a ban list, one after the other in ban-list order. */
  function Records(banList: seq<string>): seq<string>
  {
    if banList == [] then []
    else Records(banList[..|banList| - 1]) + GaclRecord(banList[|banList| - 1])
  }

  /** Eight lines per entry. */
  lemma {:induction false} RecordsLength(banList: seq<string>)
    ensures |Records(banList)| == 8 * |banList|
  {
    if banList != [] {
      RecordsLength(banList[..|banList| - 1]);
    }
  }

  /** Which entry and which of its lines line `m` of the entries is. */
  lemma {:induction false} RecordLine(banList: seq<string>, m: nat) returns (j: nat, k: nat)
    requires m < 8 * |banList|
    ensures j < |banList| && k < 8 && m == 8 * j + k
    ensures m < |Records(banList)| && Records(banList)[m] == GaclRecord(banList[j])[k]
  {
    var init := banList[..|banList| - 1];
    RecordsLength(init);
    if m < 8 * |init| {
      j, k := RecordLine(init, m);
      assert banList[j] == init[j];
    } else {
      j, k := |init|, m - 8 * |init|;
    }
  }

  /** A DN whose `<dn>` line carries neither marker. */
  predicate MarkerFree(dn: string)
  {
    !HasDeny(DnLine(dn)) && !HasAllow(DnLine(dn))
  }

  /** Of the fixed entry lines, only the `<deny>` line has the deny marker:
      the closing `</deny>` line has every character of it but no
      occurrence, the others lack its "d". */
  lemma FixedLinesDeny()
    ensures HasDeny(DENY_OPEN)
    ensures !HasDeny(ENTRY_OPEN) && !HasDeny(PERSON_OPEN) && !HasDeny(PERSON_CLOSE)
    ensures !HasDeny(EXEC) && !HasDeny(DENY_CLOSE) && !HasDeny(ENTRY_CLOSE)
  {
    assert OccursAt(DENY_OPEN, DENY_TAG, 4);
    assert DENY_TAG[1] == 'd';
    AbsentChar(ENTRY_OPEN, DENY_TAG, 'd');
    AbsentChar(PERSON_OPEN, DENY_TAG, 'd');
    AbsentChar(PERSON_CLOSE, DENY_TAG, 'd');
    AbsentChar(EXEC, DENY_TAG, 'd');
    AbsentChar(ENTRY_CLOSE, DENY_TAG, 'd');
    DenyCloseUnmarked();
  }

  /** The closing `</deny>` line does not contain `<deny>`: every offset mismatches. */
  lemma DenyCloseUnmarked()
    ensures !HasDeny(DENY_CLOSE)
  {
    assert AbsentFrom(DENY_CLOSE, DENY_TAG, 0);
    NotContains(DENY_CLOSE, DENY_TAG);
  }

  /** None of the fixed entry lines has the allow marker: none has its "a". */
  lemma FixedLinesAllow()
    ensures !HasAllow(ENTRY_OPEN) && !HasAllow(PERSON_OPEN) && !HasAllow(PERSON_CLOSE)
    ensures !HasAllow(DENY_OPEN) && !HasAllow(EXEC) && !HasAllow(DENY_CLOSE) && !HasAllow(ENTRY_CLOSE)
  {
    assert ALLOW_TAG[1] == 'a';
    AbsentChar(ENTRY_OPEN, ALLOW_TAG, 'a');
    AbsentChar(PERSON_OPEN, ALLOW_TAG, 'a');
    AbsentChar(PERSON_CLOSE, ALLOW_TAG, 'a');
    AbsentChar(DENY_OPEN, ALLOW_TAG, 'a');
    AbsentChar(EXEC, ALLOW_TAG, 'a');
    AbsentChar(DENY_CLOSE, ALLOW_TAG, 'a');
    AbsentChar(ENTRY_CLOSE, ALLOW_TAG, 'a');
  }

  /** In the entry of a marker-free DN only line 4 has `<deny>`, and no line has `<allow>`. */
  lemma RecordMarkers(dn: string)
    requires MarkerFree(dn)
    ensures forall k :: 0 <= k < 8 ==> (HasDeny(GaclRecord(dn)[k]) <==> k == 4)
    ensures forall k :: 0 <= k < 8 ==> !HasAllow(GaclRecord(dn)[k])
  {
    FixedLinesDeny();
    FixedLinesAllow();
  }

  /** The entries of marker-free DNs have `<deny>` exactly on the lines
      `8 * j + 4` and `<allow>` nowhere. */
  lemma RecordsMarkers(banList: seq<string>)
    requires forall dn :: dn in banList ==> MarkerFree(dn)
    ensures forall m :: 0 <= m < |Records(banList)| ==>
      (HasDeny(Records(banList)[m]) <==> m % 8 == 4) && !HasAllow(Records(banList)[m])
  {
    RecordsLength(banList);
    forall m | 0 <= m < |Records(banList)|
      ensures (HasDeny(Records(banList)[m]) <==> m % 8 == 4) && !HasAllow(Records(banList)[m])
    {
      var j, k := RecordLine(banList, m);
      assert m % 8 == k;
      assert banList[j] in banList;
      RecordMarkers(banList[j]);
    }
  }

  /** `start_here`: line 1 when there is no `<deny>`, otherwise the fourth
      line after the last one. */
  function StartHere(lastDenyAt: nat): nat
  {
    if lastDenyAt > 0 then lastDenyAt + 4 else 1
  }

  /** `gacls[start:]`, empty when `start` is past the end. */
  function Tail(doc: seq<string>, start: nat): seq<string>
  {
    if start <= |doc| then doc[start..] else []
  }

  /** The lines `process` writes: the first line, the deny entries, and the
      original lines from `start_here` on. */
  function Rebuild(doc: seq<string>, banList: seq<string>): seq<string>
    requires doc != []
  {
    [doc[0]] + Records(banList) + Tail(doc, StartHere(LastDenyAt(doc)))
  }

  /** The kept tail of an accepted document has no `<deny>` line. */
  lemma TailNoDeny(doc: seq<string>)
    requires SanityResult(doc).Ok?
    ensures forall t :: 0 <= t < |Tail(doc, StartHere(LastDenyAt(doc)))| ==>
      !HasDeny(Tail(doc, StartHere(LastDenyAt(doc)))[t])
  {
    SanityOkValue(doc);
    var start := StartHere(LastDenyAt(doc));
    if start <= |doc| {
      forall t | 0 <= t < |doc| - start
        ensures !HasDeny(doc[start..][t])
      {
        assert doc[start..][t] == doc[start + t];
      }
    }
  }

  /** The kept tail holds an `<allow>` line. */
  predicate TailHasAllow(doc: seq<string>)
  {
    var tail := Tail(doc, StartHere(LastDenyAt(doc)));
    exists t :: 0 <= t < |tail| && HasAllow(tail[t])
  }

  /** Where each part of the original and each entry sits in the rebuilt document. */
  lemma RebuildAt(doc: seq<string>, banList: seq<string>)
    requires doc != []
    ensures var out, tail := Rebuild(doc, banList), Tail(doc, StartHere(LastDenyAt(doc)));
      |out| == 1 + 8 * |banList| + |tail|
      && out[0] == doc[0]
      && (forall m :: 0 <= m < 8 * |banList| ==> out[1 + m] == Records(banList)[m])
      && (forall t :: 0 <= t < |tail| ==> out[1 + 8 * |banList| + t] == tail[t])
  {
    RecordsLength(banList);
    PartsAt(doc[0], Records(banList), Tail(doc, StartHere(LastDenyAt(doc))));
  }

  /** Where the parts of `[x] + r + t` sit. */
  lemma PartsAt<T>(x: T, r: seq<T>, t: seq<T>)
    ensures var out := [x] + r + t;
      |out| == 1 + |r| + |t| && out[0] == x
      && (forall m :: 0 <= m < |r| ==> out[1 + m] == r[m])
      && (forall k :: 0 <= k < |t| ==> out[1 + |r| + k] == t[k])
  {
  }

  /** A document shaped like the one `process` writes: `<deny>` exactly on
      line 4 of each of `n` entries after line 0, no `<allow>` among the
      entries, and an `<allow>` after them when there is an entry. */
  predicate EntryShaped(out: seq<string>, n: nat)
  {
    |out| >= 1 + 8 * n
    && (forall k :: 0 <= k < |out| ==> (HasDeny(out[k]) <==> 1 <= k <= 8 * n && (k - 1) % 8 == 4))
    && (forall k :: 1 <= k <= 8 * n ==> !HasAllow(out[k]))
  }

  /** In the rebuilt document of an accepted one, the `<deny>` lines are
      exactly line 4 of each entry, and no entry line has `<allow>`. */
  lemma RebuildMarkers(doc: seq<string>, banList: seq<string>)
    requires doc != [] && SanityResult(doc).Ok?
    requires forall dn :: dn in banList ==> MarkerFree(dn)
    ensures EntryShaped(Rebuild(doc, banList), |banList|)
  {
    var out := Rebuild(doc, banList);
    var tail := Tail(doc, StartHere(LastDenyAt(doc)));
    var n := |banList|;
    RebuildAt(doc, banList);
    RecordsLength(banList);
    RecordsMarkers(banList);
    TailNoDeny(doc);
    assert !EarlyDeny(doc);
    forall k | 0 <= k < |out|
      ensures HasDeny(out[k]) <==> 1 <= k <= 8 * n && (k - 1) % 8 == 4
    {
      if 1 <= k <= 8 * n {
        assert out[k] == Records(banList)[k - 1];
      } else if k > 8 * n {
        assert out[k] == tail[k - 1 - 8 * n];
      }
    }
    forall k | 1 <= k <= 8 * n
      ensures !HasAllow(out[k])
    {
      assert out[k] == Records(banList)[k - 1];
    }
  }

  /** The check accepts such a document when an `<allow>` follows the entries. */
  lemma EntryShapedSane(out: seq<string>, n: nat, t: nat)
    requires EntryShaped(out, n)
    requires n > 0 ==> 8 * n < t < |out| && HasAllow(out[t])
    ensures SanityResult(out) == Ok(if n == 0 then 0 else 8 * n - 3)
  {
    assert !EarlyDeny(out);
    if n == 0 {
      assert LastDenyAt(out) == 0;
    } else {
      LastDenyAtUnique(out, 8 * n - 3);
      FirstAllowAtFound(out, t);
    }
  }

  /** The check rejects such a document when no `<allow>` follows the entries. */
  lemma EntryShapedLate(out: seq<string>, n: nat)
    requires EntryShaped(out, n) && n > 0
    requires forall k :: 8 * n < k < |out| ==> !HasAllow(out[k])
    ensures SanityResult(out) == Err(LATE_ERROR)
  {
    assert !EarlyDeny(out);
    DenyWithoutAllowRejected(out, 8 * n - 3);
  }

  /** An `<allow>` line of the kept tail is found again after the entries. */
  lemma RebuildAllowAt(doc: seq<string>, banList: seq<string>) returns (t: nat)
    requires doc != [] && TailHasAllow(doc)
    ensures 8 * |banList| < t < |Rebuild(doc, banList)| && HasAllow(Rebuild(doc, banList)[t])
  {
    var tail := Tail(doc, StartHere(LastDenyAt(doc)));
    var i :| 0 <= i < |tail| && HasAllow(tail[i]);
    RebuildAt(doc, banList);
    t := 1 + 8 * |banList| + i;
  }

  /** The document `process` writes passes the check again, provided the
      DNs are marker-free and, when there is any DN, the kept tail has an
      `<allow>` line. Its last `<deny>` is then the one of the last entry. */
  lemma RebuildSane(doc: seq<string>, banList: seq<string>)
    requires doc != [] && SanityResult(doc).Ok?
    requires forall dn :: dn in banList ==> MarkerFree(dn)
    requires banList != [] ==> TailHasAllow(doc)
    ensures SanityResult(Rebuild(doc, banList)) == Ok(if |banList| == 0 then 0 else 8 * |banList| - 3)
  {
    RebuildMarkers(doc, banList);
    var t := 0;
    if banList != [] {
      t := RebuildAllowAt(doc, banList);
    }
    EntryShapedSane(Rebuild(doc, banList), |banList|, t);
  }

  /** Re-processing a document written by `process` replaces its entries:
      the kept tail is found again, so processing it with a new ban list
      gives what processing the original would have given. */
  lemma Reprocess(doc: seq<string>, banList: seq<string>, banList': seq<string>)
    requires doc != [] && SanityResult(doc).Ok?
    requires forall dn :: dn in banList ==> MarkerFree(dn)
    requires banList != [] ==> TailHasAllow(doc)
    ensures SanityResult(Rebuild(doc, banList)).Ok?
    ensures Rebuild(Rebuild(doc, banList), banList') == Rebuild(doc, banList')
  {
    var out := Rebuild(doc, banList);
    var tail := Tail(doc, StartHere(LastDenyAt(doc)));
    var n := |banList|;
    RebuildSane(doc, banList);
    RebuildAt(doc, banList);
    var start := StartHere(LastDenyAt(out));
    assert start == 1 + 8 * n;
    assert out[start..] == tail;
  }

  /** Without an `<allow>` line in the kept tail, a document written with
      at least one DN is rejected on the next run. */
  lemma RebuildWithoutAllowRejected(doc: seq<string>, banList: seq<string>)
    requires doc != [] && SanityResult(doc).Ok?
    requires forall dn :: dn in banList ==> MarkerFree(dn)
    requires banList != [] && !TailHasAllow(doc)
    ensures SanityResult(Rebuild(doc, banList)) == Err(LATE_ERROR)
  {
    var out := Rebuild(doc, banList);
    var tail := Tail(doc, StartHere(LastDenyAt(doc)));
    var n := |banList|;
    RebuildMarkers(doc, banList);
    RebuildAt(doc, banList);
    forall k | 8 * n < k < |out|
      ensures !HasAllow(out[k])
    {
      assert out[k] == tail[k - 1 - 8 * n];
    }
    EntryShapedLate(out, n);
  }

  /** A DN whose `<dn>` line `splitlines` reads back as one line. */
  predicate OneLine(dn: string)
  {
    NoBreaks(DnLine(dn))
  }

  /** The fixed entry lines hold no line break. */
  lemma FixedLinesUnbroken()
    ensures NoBreaks(ENTRY_OPEN) && NoBreaks(PERSON_OPEN) && NoBreaks(PERSON_CLOSE)
    ensures NoBreaks(DENY_OPEN) && NoBreaks(EXEC) && NoBreaks(DENY_CLOSE) && NoBreaks(ENTRY_CLOSE)
  {
  }

  /** No line of the entries of one-line DNs holds a break. */
  lemma RecordsUnbroken(banList: seq<string>)
    requires forall dn :: dn in banList ==> OneLine(dn)
    ensures forall m :: 0 <= m < |Records(banList)| ==> NoBreaks(Records(banList)[m])
  {
    RecordsLength(banList);
    FixedLinesUnbroken();
    forall m | 0 <= m < |Records(banList)|
      ensures NoBreaks(Records(banList)[m])
    {
      var j, k := RecordLine(banList, m);
      assert banList[j] in banList;
    }
  }

  /** Read back with `splitlines`, the written text is the rebuilt document
      line by line, when the original lines and the `<dn>` lines hold no
      break. */
  lemma RebuildReadBack(doc: seq<string>, banList: seq<string>)
    requires doc != [] && forall i :: 0 <= i < |doc| ==> NoBreaks(doc[i])
    requires forall dn :: dn in banList ==> OneLine(dn)
    ensures SplitLines(Render(Rebuild(doc, banList))) == Rebuild(doc, banList)
  {
    var out := Rebuild(doc, banList);
    var records := Records(banList);
    var start := StartHere(LastDenyAt(doc));
    var tail := Tail(doc, start);
    RecordsUnbroken(banList);
    forall k | 0 <= k < |out|
      ensures NoBreaks(out[k])
    {
      if 1 <= k < 1 + |records| {
        assert out[k] == records[k - 1];
      } else if k >= 1 + |records| {
        assert out[k] == tail[k - 1 - |records|] == doc[start + (k - 1 - |records|)];
      }
    }
    SplitLinesRender(out);
  }

  /** Running `process` on the file it wrote, with a new ban list, writes
      what running it on the original file would have written. */
  lemma ProcessTwice(content: string, banList: seq<string>, banList': seq<string>)
    requires SplitLines(content) != [] && SanityResult(SplitLines(content)).Ok?
    requires forall dn :: dn in banList ==> MarkerFree(dn) && OneLine(dn)
    requires banList != [] ==> TailHasAllow(SplitLines(content))
    ensures var written := Render(Rebuild(SplitLines(content), banList));
      SanityResult(SplitLines(written)).Ok?
      && Render(Rebuild(SplitLines(written), banList')) == Render(Rebuild(SplitLines(content), banList'))
  {
    var doc := SplitLines(content);
    RebuildReadBack(doc, banList);
    Reprocess(doc, banList, banList');
  }

  /** How a run of `process` ends: normally, with an error message returned,
      or with an exception raised out of it. */
  datatype Outcome = Done | Failed(message: string) | Raised(exception: string)

  /** The exception `gacls[0]` raises on a file without lines. */
  const INDEX_ERROR: string := "IndexError: list index out of range"

  function ReadError(filename: string, err: string): string
  {
    "Failed to read '" + filename + "': " + err
  }

  function WriteError(filename: string, err: string): string
  {
    "Failed to write '" + filename + "': " + err
  }

  /** `Render` of one more line. */
  lemma RenderSnoc(lines: seq<string>, line: string)
    ensures Render(lines + [line]) == Render(lines) + line + "\n"
  {
    RenderAppend(lines, [line]);
    assert [line][1..] == [];
  }

  /** `Render` of eight more lines. */
  lemma RenderEight(lines: seq<string>, l0: string, l1: string, l2: string, l3: string,
                    l4: string, l5: string, l6: string, l7: string)
    ensures Render(lines + [l0, l1, l2, l3, l4, l5, l6, l7])
      == Render(lines) + l0 + "\n" + l1 + "\n" + l2 + "\n" + l3 + "\n"
        + l4 + "\n" + l5 + "\n" + l6 + "\n" + l7 + "\n"
  {
    var w1 := lines + [l0];
    var w2 := w1 + [l1];
    var w3 := w2 + [l2];
    var w4 := w3 + [l3];
    var w5 := w4 + [l4];
    var w6 := w5 + [l5];
    var w7 := w6 + [l6];
    RenderSnoc(lines, l0);
    RenderSnoc(w1, l1);
    RenderSnoc(w2, l2);
    RenderSnoc(w3, l3);
    RenderSnoc(w4, l4);
    RenderSnoc(w5, l5);
    RenderSnoc(w6, l6);
    RenderSnoc(w7, l7);
    EightSnocs(lines, l0, l1, l2, l3, l4, l5, l6, l7);
  }

  lemma EightSnocs<T>(s: seq<T>, x0: T, x1: T, x2: T, x3: T, x4: T, x5: T, x6: T, x7: T)
    ensures s + [x0] + [x1] + [x2] + [x3] + [x4] + [x5] + [x6] + [x7]
      == s + [x0, x1, x2, x3, x4, x5, x6, x7]
  {
  }

  /** Writing the eight lines of one deny entry, one after the other. */
  lemma RenderRecord(lines: seq<string>, dn: string)
    ensures Render(lines + GaclRecord(dn))
      == Render(lines) + ENTRY_OPEN + "\n" + PERSON_OPEN + "\n" + DnLine(dn) + "\n"
        + PERSON_CLOSE + "\n" + DENY_OPEN + "\n" + EXEC + "\n" + DENY_CLOSE + "\n"
        + ENTRY_CLOSE + "\n"
  {
    RenderEight(lines, ENTRY_OPEN, PERSON_OPEN, DnLine(dn), PERSON_CLOSE, DENY_OPEN, EXEC, DENY_CLOSE, ENTRY_CLOSE);
  }

  /** The first loop's step in writing: the entry of the next DN. */
  lemma ComposeEntryStep(head: seq<string>, banList: seq<string>, i: nat)
    requires i < |banList|
    ensures Render(head + Records(banList[..i + 1]))
      == Render(head + Records(banList[..i])) + ENTRY_OPEN + "\n" + PERSON_OPEN + "\n"
        + DnLine(banList[i]) + "\n" + PERSON_CLOSE + "\n" + DENY_OPEN + "\n" + EXEC + "\n"
        + DENY_CLOSE + "\n" + ENTRY_CLOSE + "\n"
  {
    var prefix := head + Records(banList[..i]);
    assert banList[..i + 1][..i] == banList[..i];
    assert Records(banList[..i + 1]) == Records(banList[..i]) + GaclRecord(banList[i]);
    assert head + Records(banList[..i + 1]) == prefix + GaclRecord(banList[i]);
    RenderRecord(prefix, banList[i]);
  }

  /** The second loop's step in writing: the next kept line. */
  lemma ComposeLineStep(head: seq<string>, rest: seq<string>, j: nat)
    requires j < |rest|
    ensures Render(head + rest[..j + 1]) == Render(head + rest[..j]) + rest[j] + "\n"
  {
    assert head + rest[..j + 1] == (head + rest[..j]) + [rest[j]];
    RenderSnoc(head + rest[..j], rest[j]);
  }

  class GaclOutput {
    var filename: Option<string>

    /** A fresh plugin has no file name. */
    constructor ()
      ensures filename == None
    {
      filename := None;
    }

    /** `configure`: the file name taken as given. */
    method Configure(filename: string)
      modifies this
      ensures this.filename == Some(filename)
    {
      this.filename := Some(filename);
    }

    /** `sanity_check`: one pass over the lines, remembering the first
        `<allow>` line after line 0 and the last `<deny>` line, and failing
        on the first `<deny>` within the first five lines. */
    static method SanityCheck(gacls: seq<string>) returns (r: Result<nat, string>)
      ensures r == SanityResult(gacls)
    {
      var lastDenyAt := 0;
      var firstAllowAt := 0;
      var i := 0;
      while i < |gacls|
        invariant 0 <= i <= |gacls|
        invariant lastDenyAt == LastDenyAt(gacls[..i])
        invariant firstAllowAt == FirstAllowAt(gacls[..i])
        invariant forall k :: 0 <= k < i && k < 5 ==> !HasDeny(gacls[k])
      {
        assert gacls[..i + 1][..i] == gacls[..i];
        if HasAllow(gacls[i]) && firstAllowAt == 0 {
          firstAllowAt := i;
        }
        if HasDeny(gacls[i]) {
          lastDenyAt := i;
          if i - 2 < 3 {
            assert EarlyDeny(gacls);
            return Err(EARLY_ERROR);
          }
        }
        i := i + 1;
      }
      assert gacls[..i] == gacls;
      if lastDenyAt > firstAllowAt {
        return Err(LATE_ERROR);
      }
      return Ok(lastDenyAt);
    }

    /** The first line and the loop over the ban list writing one deny
        entry per DN. */
    static method WriteEntries(first: string, banList: seq<string>) returns (content: string)
      ensures content == Render([first] + Records(banList))
    {
      content := first + "\n";
      assert [first][1..] == [];
      assert banList[..0] == [] && [first] + [] == [first];
      var i := 0;
      while i < |banList|
        invariant 0 <= i <= |banList|
        invariant content == Render([first] + Records(banList[..i]))
      {
        var banned := banList[i];
        ComposeEntryStep([first], banList, i);
        content := content + ENTRY_OPEN + "\n";
        content := content + PERSON_OPEN + "\n";
        content := content + DnLine(banned) + "\n";
        content := content + PERSON_CLOSE + "\n";
        content := content + DENY_OPEN + "\n";
        content := content + EXEC + "\n";
        content := content + DENY_CLOSE + "\n";
        content := content + ENTRY_CLOSE + "\n";
        i := i + 1;
      }
      assert banList[..i] == banList;
    }

    /** The text `process` writes, line by line: the first line, the eight
        lines of each DN's entry, and the lines from `start_here` on. */
    static method Compose(gacls: seq<string>, banList: seq<string>, lastDenyAt: nat) returns (content: string)
      requires gacls != [] && lastDenyAt == LastDenyAt(gacls)
      ensures content == Render(Rebuild(gacls, banList))
    {
      content := WriteEntries(gacls[0], banList);
      var startHere := 1;
      if lastDenyAt > 0 {
        startHere := lastDenyAt + 4;
      }
      var rest := Tail(gacls, startHere);
      ghost var head := [gacls[0]] + Records(banList);
      assert head + rest[..0] == head;
      var j := 0;
      while j < |rest|
        invariant 0 <= j <= |rest|
        invariant content == Render(head + rest[..j])
      {
        ComposeLineStep(head, rest, j);
        content := content + rest[j] + "\n";
        j := j + 1;
      }
      assert rest[..j] == rest;
    }

    /** `process`: a file that cannot be read or fails the check is left
        alone and the error returned; one that cannot be opened for writing
        gives the write error; a file without lines is emptied and the
        exception of `gacls[0]` escapes; otherwise the file becomes its
        first line, one deny entry per DN, and its lines from `start_here`
        on. */
    method Process(banList: seq<string>, fs: Files.FileSystem) returns (o: Outcome)
      requires filename.Some?
      modifies fs`files
      ensures var name := filename.value;
        name !in old(fs.files) ==>
          o == Failed(ReadError(name, Files.NoSuchFile(name))) && fs.files == old(fs.files)
      ensures var name := filename.value;
        name in old(fs.files) && SanityResult(SplitLines(old(fs.files)[name])).Err? ==>
          o == Failed(SanityResult(SplitLines(old(fs.files)[name])).error) && fs.files == old(fs.files)
      ensures var name := filename.value;
        name in old(fs.files) && SanityResult(SplitLines(old(fs.files)[name])).Ok? && name in fs.readOnly ==>
          o == Failed(WriteError(name, Files.PermissionDenied(name))) && fs.files == old(fs.files)
      ensures var name := filename.value;
        name in old(fs.files) && SanityResult(SplitLines(old(fs.files)[name])).Ok? && name !in fs.readOnly
        && SplitLines(old(fs.files)[name]) == [] ==>
          o == Raised(INDEX_ERROR) && fs.files == old(fs.files)[name := ""]
      ensures var name := filename.value;
        name in old(fs.files) && SanityResult(SplitLines(old(fs.files)[name])).Ok? && name !in fs.readOnly
        && SplitLines(old(fs.files)[name]) != [] ==>
          o == Done && fs.files == old(fs.files)[name := Render(Rebuild(SplitLines(old(fs.files)[name]), banList))]
    {
      var name := filename.value;
      var read := fs.Read(name);
      if read.Err? {
        return Failed(ReadError(name, read.error));
      }
      var gacls := SplitLines(read.value);
      var check := SanityCheck(gacls);
      if check.Err? {
        return Failed(check.error);
      }
      var lastDenyAt := check.value;
      if gacls == [] {
        var werr := fs.Write(name, "");
        if werr.Some? {
          return Failed(WriteError(name, werr.value));
        }
        return Raised(INDEX_ERROR);
      }
      var content := Compose(gacls, banList, lastDenyAt);
      var werr := fs.Write(name, content);
      if werr.Some? {
        return Failed(WriteError(name, werr.value));
      }
      return Done;
    }
  }
}
