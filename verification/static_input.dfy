/**
  The static-file input plugin: a file with one DN per line, each line
  optionally wrapped in double quotes, lines starting with "#" being
  comments.
*/
module StaticInput {
  import opened Wrappers
  import opened Text
  import Lines
  import Files

  /** The error Python 2 raises on `file.read_lines()`, a method file
      objects do not have. */
  const NO_READ_LINES: string := "'file' object has no attribute 'read_lines'"

  /** The stripped line with one outer pair of double quotes removed, when it
      both starts and ends with one; a lone quote leaves the empty string. */
  function Unquote(s: string): (u: string)
    ensures StartsWith(s, "\"") && EndsWith(s, "\"") && |s| >= 2 ==> "\"" + u + "\"" == s
    ensures s == "\"" ==> u == ""
    ensures !(StartsWith(s, "\"") && EndsWith(s, "\"")) ==> u == s
  {
    if StartsWith(s, "\"") && EndsWith(s, "\"") then
      if |s| >= 2 then
        assert s == [s[0]] + s[1..|s| - 1] + [s[|s| - 1]];
        s[1..|s| - 1]
      else ""
    else s
  }

  /** What one raw line contributes: the stripped and unquoted line, or
      nothing when that is a comment. */
  function StaticEntry(line: string): (e: Option<string>)
    ensures e.None? <==> StartsWith(Unquote(Strip(line)), "#")
    ensures e.Some? ==> e.value == Unquote(Strip(line))
  {
    var u := Unquote(Strip(line));
    if StartsWith(u, "#") then None else Some(u)
  }

  /** What each raw line contributes, line by line. */
  function LineEntries(lines: seq<string>): (es: seq<Option<string>>)
    ensures |es| == |lines|
    ensures forall i {:trigger es[i]} :: 0 <= i < |lines| ==> es[i] == StaticEntry(lines[i])
  {
    Map(StaticEntry, lines)
  }

  /** The values present in `es`, in order. */
  function Kept<T>(es: seq<Option<T>>): (vs: seq<T>)
    ensures |vs| <= |es|
  {
    if es == [] then []
    else
      var e := es[|es| - 1];
      Kept(es[..|es| - 1]) + (if e.Some? then [e.value] else [])
  }

  /** The entries of a sequence of raw lines, in order. */
  function StaticEntries(lines: seq<string>): seq<string>
  {
    Kept(LineEntries(lines))
  }

  /** No entry is a comment, and there are no more entries than lines. */
  lemma StaticEntriesNoComment(lines: seq<string>)
    ensures |StaticEntries(lines)| <= |lines|
    ensures forall k :: 0 <= k < |StaticEntries(lines)| ==> !StartsWith(StaticEntries(lines)[k], "#")
  {
    var es := LineEntries(lines);
    forall k | 0 <= k < |Kept(es)|
      ensures !StartsWith(Kept(es)[k], "#")
    {
      KeptMember(es, Kept(es)[k]);
      var i :| 0 <= i < |es| && es[i] == Some(Kept(es)[k]);
      assert StaticEntry(lines[i]) == Some(Kept(es)[k]);
    }
  }

  /** Adding one more present value or absent one to `es`. */
  lemma KeptSnoc<T>(es: seq<Option<T>>, e: Option<T>)
    ensures Kept(es + [e]) == Kept(es) + (if e.Some? then [e.value] else [])
  {
    assert (es + [e])[..|es|] == es;
  }

  /** Adding one more raw line to the lines. */
  lemma LineEntriesSnoc(lines: seq<string>, line: string)
    ensures LineEntries(lines + [line]) == LineEntries(lines) + [StaticEntry(line)]
  {
    MapConcat(StaticEntry, lines, [line]);
    assert Map(StaticEntry, [line]) == [StaticEntry(line)];
  }

  /** One more raw line adds its entry, if any. */
  lemma StaticEntriesSnoc(lines: seq<string>, i: nat)
    requires i < |lines|
    ensures StaticEntry(lines[i]).None? ==> StaticEntries(lines[..i + 1]) == StaticEntries(lines[..i])
    ensures StaticEntry(lines[i]).Some? ==>
      StaticEntries(lines[..i + 1]) == StaticEntries(lines[..i]) + [StaticEntry(lines[i]).value]
  {
    assert lines[..i + 1] == lines[..i] + [lines[i]];
    LineEntriesSnoc(lines[..i], lines[i]);
    KeptSnoc(LineEntries(lines[..i]), StaticEntry(lines[i]));
  }

  /** The loop of `process` over the raw lines: strip, unquote, skip
      comments, append the rest. */
  method FilterLines(rawLines: seq<string>) returns (dnList: seq<string>)
    ensures dnList == StaticEntries(rawLines)
  {
    dnList := [];
    var i := 0;
    while i < |rawLines|
      invariant 0 <= i <= |rawLines|
      invariant dnList == StaticEntries(rawLines[..i])
    {
      var line := Unquote(Strip(rawLines[i]));
      StaticEntriesSnoc(rawLines, i);
      if !StartsWith(line, "#") {
        dnList := dnList + [line];
      }
      i := i + 1;
    }
    assert rawLines[..i] == rawLines;
  }

  lemma {:induction false} KeptAppend<T>(a: seq<Option<T>>, b: seq<Option<T>>)
    ensures Kept(a + b) == Kept(a) + Kept(b)
    decreases |b|
  {
    if b == [] {
      assert a + b == a;
    } else {
      var b' := b[..|b| - 1];
      assert (a + b)[..|a + b| - 1] == a + b';
      KeptAppend(a, b');
    }
  }

  /** The lines of a concatenation contribute in order. */
  lemma StaticEntriesAppend(a: seq<string>, b: seq<string>)
    ensures StaticEntries(a + b) == StaticEntries(a) + StaticEntries(b)
  {
    MapConcat(StaticEntry, a, b);
    KeptAppend(LineEntries(a), LineEntries(b));
  }

  lemma {:induction false} KeptMember<T>(es: seq<Option<T>>, v: T)
    ensures v in Kept(es) <==> Some(v) in es
  {
    if es != [] {
      var init := es[..|es| - 1];
      KeptMember(init, v);
      assert es == init + [es[|es| - 1]];
    }
  }

  /** A string is an entry exactly when some raw line contributes it. */
  lemma StaticEntriesMember(lines: seq<string>, dn: string)
    ensures dn in StaticEntries(lines) <==> exists i :: 0 <= i < |lines| && LineEntries(lines)[i] == Some(dn)
  {
    KeptMember(LineEntries(lines), dn);
  }

  /** A sequence of present values keeps them all, in order. */
  lemma {:induction false} KeptAll<T>(es: seq<Option<T>>, vs: seq<T>)
    requires |es| == |vs|
    requires forall i :: 0 <= i < |es| ==> es[i] == Some(vs[i])
    ensures Kept(es) == vs
  {
    if es != [] {
      var n := |es| - 1;
      KeptAll(es[..n], vs[..n]);
      assert vs == vs[..n] + [vs[n]];
    }
  }

  /** When every line contributes, the entries are the contributions in order. */
  lemma StaticEntriesAllKept(lines: seq<string>, dns: seq<string>)
    requires |lines| == |dns|
    requires forall i :: 0 <= i < |lines| ==> StaticEntry(lines[i]) == Some(dns[i])
    ensures StaticEntries(lines) == dns
  {
    KeptAll(LineEntries(lines), dns);
  }

  /** A line holding a quoted DN that holds no newline and does not
      start with "#" is read back as that DN. */
  lemma QuotedLineEntry(dn: string)
    requires '\n' !in dn && !StartsWith(dn, "#")
    ensures StaticEntry("\"" + dn + "\"\n") == Some(dn)
  {
    var quoted := "\"" + dn + "\"";
    assert "\"" + dn + "\"\n" == quoted + ['\n'];
    StripTrailingSpace(quoted, '\n');
    assert StartsWith(quoted, "\"") && EndsWith(quoted, "\"");
    assert quoted[1..|quoted| - 1] == dn;
  }

  class StaticInput {
    var filename: Option<string>
    var hostcert: Option<string>
    var hostkey: Option<string>
    var caPath: Option<string>

    /** A fresh plugin has no setting. */
    constructor ()
      ensures filename == None && hostcert == None && hostkey == None && caPath == None
    {
      filename := None;
      hostcert := None;
      hostkey := None;
      caPath := None;
    }

    /** `configure`: every setting taken as given. */
    method Configure(filename: string, hostcert: string, hostkey: string, caPath: string)
      modifies this
      ensures this.filename == Some(filename) && this.hostcert == Some(hostcert)
      ensures this.hostkey == Some(hostkey) && this.caPath == Some(caPath)
    {
      this.filename := Some(filename);
      this.hostcert := Some(hostcert);
      this.hostkey := Some(hostkey);
      this.caPath := Some(caPath);
    }

    /** `process` as written: a missing file raises the open error, and an
        existing one raises on the call to `read_lines`, so no DN list is
        ever returned. */
    method Process(fs: Files.FileSystem) returns (r: Result<seq<string>, string>)
      requires filename.Some?
      ensures filename.value !in fs.files ==> r == Err(Files.NoSuchFile(filename.value))
      ensures filename.value in fs.files ==> r == Err(NO_READ_LINES)
    {
      var content := fs.Read(filename.value);
      if content.Err? {
        return Err(content.error);
      }
      return Err(NO_READ_LINES);
    }

    /** `process` with the file's lines read by `readlines`: the entries of
        the file's lines, or the open error. */
    method ProcessReadlines(fs: Files.FileSystem) returns (r: Result<seq<string>, string>)
      requires filename.Some?
      ensures filename.value !in fs.files ==> r == Err(Files.NoSuchFile(filename.value))
      ensures filename.value in fs.files ==>
        r == Ok(StaticEntries(Lines.ReadLines(fs.files[filename.value])))
    {
      var content := fs.Read(filename.value);
      if content.Err? {
        return Err(content.error);
      }
      var dns := FilterLines(Lines.ReadLines(content.value));
      return Ok(dns);
    }
  }

}
