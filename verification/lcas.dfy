/**
  The LCAS output plugin: it overwrites its file with one double-quoted DN
  per line, in ban-list order, with no header. The previous content is
  never read.
*/
module Lcas {
  import opened Wrappers
  import opened Text
  import Lines
  import Files
  import StaticInput

  /** `'"%s"\n' % dn`: the DN between double quotes, embedded quotes left as they are. */
  function LcasLine(dn: string): string
  {
    "\"" + dn + "\"\n"
  }

  /** The line written for each DN, in ban-list order. */
  function LcasLines(banList: seq<string>): (lines: seq<string>)
    ensures |lines| == |banList|
    ensures forall i {:trigger lines[i]} :: 0 <= i < |banList| ==> lines[i] == LcasLine(banList[i])
  {
    seq(|banList|, i requires 0 <= i < |banList| => LcasLine(banList[i]))
  }

  /** The whole content written for a ban list. */
  function LcasContent(banList: seq<string>): string
  {
    Lines.Concat(LcasLines(banList))
  }

  /** The error returned when the file cannot be written. */
  function WriteError(filename: string, err: string): string
  {
    "Failed to write file '" + filename + "': " + err
  }

  /** A DN that fits on one line. */
  predicate OneLine(dn: string)
  {
    '\n' !in dn
  }

  /** Read back with `readlines`, the content is exactly one quoted line per
      DN, in ban-list order, provided no DN holds a newline. */
  lemma LcasReadBack(banList: seq<string>)
    requires forall dn :: dn in banList ==> OneLine(dn)
    ensures Lines.ReadLines(LcasContent(banList)) == LcasLines(banList)
  {
    var lines := LcasLines(banList);
    forall i | 0 <= i < |lines|
      ensures Lines.IsLine(lines[i]) && Lines.EndsInNewline(lines[i])
    {
      var dn := banList[i];
      assert dn in banList;
      var x := lines[i];
      assert x == "\"" + dn + "\"\n";
      forall k | 0 <= k < |x| - 1
        ensures x[k] != '\n'
      {
        if 1 <= k < |x| - 2 {
          assert x[k] == dn[k - 1];
        }
      }
    }
    Lines.ReadLinesConcat(lines);
  }

  /** The static input filter reads the written lines back as the ban list
      itself, for DNs that fit on one line and do not start with "#". */
  lemma LcasStaticRoundTrip(banList: seq<string>)
    requires forall dn :: dn in banList ==> OneLine(dn) && !StartsWith(dn, "#")
    ensures StaticInput.StaticEntries(LcasLines(banList)) == banList
  {
    var lines := LcasLines(banList);
    forall i | 0 <= i < |lines|
      ensures StaticInput.StaticEntry(lines[i]) == Some(banList[i])
    {
      assert banList[i] in banList;
      StaticInput.QuotedLineEntry(banList[i]);
    }
    StaticInput.StaticEntriesAllKept(lines, banList);
  }

  class LcasOutput {
    var filename: Option<string>

    /** A fresh plugin has no file name. */
    constructor ()
      ensures filename == None
    {
      filename := None;
    }

    /** `configure`: the file name taken as given. */
    method Configure(filename: string)
      modifies this
      ensures this.filename == Some(filename)
    {
      this.filename := Some(filename);
    }

    /** `process`: the file's content becomes one quoted line per DN, or,
        when the file cannot be opened for writing, the error naming it and
        no file changed. */
    method Process(banList: seq<string>, fs: Files.FileSystem) returns (err: Option<string>)
      requires filename.Some?
      modifies fs`files
      ensures filename.value in fs.readOnly ==>
        err == Some(WriteError(filename.value, Files.PermissionDenied(filename.value)))
        && fs.files == old(fs.files)
      ensures filename.value !in fs.readOnly ==>
        err == None && fs.files == old(fs.files)[filename.value := LcasContent(banList)]
    {
      var content := "";
      var i := 0;
      while i < |banList|
        invariant 0 <= i <= |banList|
        invariant content == LcasContent(banList[..i])
        invariant fs.files == old(fs.files)
      {
        assert LcasLines(banList[..i + 1]) == LcasLines(banList[..i]) + [LcasLine(banList[i])];
        Lines.ConcatAppend(LcasLines(banList[..i]), [LcasLine(banList[i])]);
        content := content + LcasLine(banList[i]);
        i := i + 1;
      }
      assert banList[..i] == banList;
      var werr := fs.Write(filename.value, content);
      if werr.Some? {
        return Some(WriteError(filename.value, werr.value));
      }
      return None;
    }
  }
}
