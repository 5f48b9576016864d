/**
  The dCache ban.conf output plugin: it overwrites its file with a fixed
  header followed by one `ban dn:` line per DN, in ban-list order. The
  previous content is never read.
*/
module Dban {
  import opened Wrappers
  import Lines
  import Files

  /** The header's three lines: a warning comment, the alias line and a blank line. */
  const COMMENT_TEXT: string := "### This file will be overwritten by fetch-ban."
  const ALIAS_TEXT: string := "alias dn=org.globus.gsi.jaas.GlobusPrincipal"
  const HEADER_COMMENT: string := COMMENT_TEXT + "\n"
  const HEADER_ALIAS: string := ALIAS_TEXT + "\n"
  const BASE_TEXT: string := HEADER_COMMENT + HEADER_ALIAS + "\n"

  /** `"ban dn:%s\n" % dn` */
  function BanLine(dn: string): string
  {
    "ban dn:" + dn + "\n"
  }

  /** The line written for each DN, in ban-list order. */
  function BanLines(banList: seq<string>): (lines: seq<string>)
    ensures |lines| == |banList|
    ensures forall i {:trigger lines[i]} :: 0 <= i < |banList| ==> lines[i] == BanLine(banList[i])
  {
    seq(|banList|, i requires 0 <= i < |banList| => BanLine(banList[i]))
  }

  /** The whole content written for a ban list. */
  function DbanContent(banList: seq<string>): string
  {
    BASE_TEXT + Lines.Concat(BanLines(banList))
  }

  /** The error returned when the file cannot be written. */
  function WriteError(filename: string, err: string): string
  {
    "Failed to write file '" + filename + "': " + err
  }

  /** A `ban dn:` line is one line when its DN has no newline. */
  lemma BanLineIsLine(dn: string)
    requires '\n' !in dn
    ensures Lines.IsLine(BanLine(dn)) && Lines.EndsInNewline(BanLine(dn))
  {
    assert '\n' !in "ban dn:" + dn;
    Lines.NewlineTerminated("ban dn:" + dn);
  }

  /** Read back with `readlines`, the content is the header's lines followed
      by exactly one `ban dn:` line per DN in ban-list order, provided no DN
      holds a newline. */
  lemma DbanReadBack(banList: seq<string>)
    requires forall dn :: dn in banList ==> '\n' !in dn
    ensures Lines.ReadLines(DbanContent(banList))
      == Lines.ReadLines(BASE_TEXT) + BanLines(banList)
  {
    var lines := BanLines(banList);
    forall i | 0 <= i < |lines|
      ensures Lines.IsLine(lines[i]) && Lines.EndsInNewline(lines[i])
    {
      assert banList[i] in banList;
      BanLineIsLine(banList[i]);
    }
    Lines.ReadLinesConcat(lines);
    assert BASE_TEXT[|BASE_TEXT| - 1] == '\n';
    Lines.ReadLinesAppend(BASE_TEXT, Lines.Concat(lines));
  }

  class DbanOutput {
    var filename: Option<string>

    /** A fresh plugin has no file name. */
    constructor ()
      ensures filename == None
    {
      filename := None;
    }

    /** `configure`: the file name taken as given. */
    method Configure(filename: string)
      modifies this
      ensures this.filename == Some(filename)
    {
      this.filename := Some(filename);
    }

    /** `process`: the file's content becomes the header and one `ban dn:`
        line per DN, or, when the file cannot be opened for writing, the
        error naming it and no file changed. */
    method Process(banList: seq<string>, fs: Files.FileSystem) returns (err: Option<string>)
      requires filename.Some?
      modifies fs`files
      ensures filename.value in fs.readOnly ==>
        err == Some(WriteError(filename.value, Files.PermissionDenied(filename.value)))
        && fs.files == old(fs.files)
      ensures filename.value !in fs.readOnly ==>
        err == None && fs.files == old(fs.files)[filename.value := DbanContent(banList)]
    {
      var content := BASE_TEXT;
      var i := 0;
      while i < |banList|
        invariant 0 <= i <= |banList|
        invariant content == BASE_TEXT + Lines.Concat(BanLines(banList[..i]))
        invariant fs.files == old(fs.files)
      {
        assert BanLines(banList[..i + 1]) == BanLines(banList[..i]) + [BanLine(banList[i])];
        Lines.ConcatAppend(BanLines(banList[..i]), [BanLine(banList[i])]);
        content := content + BanLine(banList[i]);
        i := i + 1;
      }
      assert banList[..i] == banList;
      var werr := fs.Write(filename.value, content);
      if werr.Some? {
        return Some(WriteError(filename.value, werr.value));
      }
      return None;
    }
  }
}
