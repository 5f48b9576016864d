/**
  The main script of fetch-ban: for every configured (PAP host, alias)
  pair it fetches the alias's ban list, falls back on the previous run's
  list for that source when the fetch fails, reports what changed, then
  writes the LCAS ban file from the static file's lines and the quoted
  fetched DNs, each distinct line once, and keeps the per-source lists as
  the state for the next run.

  The HTTPS/SOAP exchange is not modelled: each source's outcome is a
  `Pap.Reply` given as a parameter. The previous state is given, and the
  state to save is returned, in place of the pickled state file. Printed
  messages are returned as `Report` values.
*/
module FetchBan {
  import opened Wrappers
  import opened Text
  import Lines
  import Files
  import Pap
  import Dn

  /** The configured sources: (PAP host, alias) pairs. */
  const PAP_LIST: seq<(string, string)> := [("https://argusngi.gridpp.rl.ac.uk:8150", "default")]
  /** The path every PAP host is queried on. */
  const PAP_ENDPOINT: string := "/pap/services/XACMLPolicyManagementService"
  const OUTPUT_FILE: string := "/etc/lcas/ban_users.db"
  const STATIC_FILE: string := "/etc/lcas/ban_static.db"

  /** The URL a source is queried on. */
  function SourceUrl(source: (string, string)): string
  {
    source.0 + PAP_ENDPOINT
  }

  /** The key a source's list is kept under: its URL, "-", its alias. */
  function SourceKey(source: (string, string)): string
  {
    SourceUrl(source) + "-" + source.1
  }

  /** The key starts with the source's URL, and two aliases of one host
      never share a key. */
  lemma SourceKeyDistinct(host: string, alias: string, alias': string)
    ensures StartsWith(SourceKey((host, alias)), SourceUrl((host, alias)))
    ensures SourceKey((host, alias)) == SourceKey((host, alias')) <==> alias == alias'
  {
    var k, k' := SourceKey((host, alias)), SourceKey((host, alias'));
    var n := |SourceUrl((host, alias)) + "-"|;
    assert k == (SourceUrl((host, alias)) + "-") + alias;
    assert k' == (SourceUrl((host, alias)) + "-") + alias';
    assert k[..|SourceUrl((host, alias))|] == SourceUrl((host, alias));
    if k == k' {
      assert alias == k[n..] == k'[n..] == alias';
    }
  }

  /** The message of the exception raised for an HTTP status other than 200. */
  function StatusError(url: string, alias: string, code: nat): string
  {
    "Failed to query '" + url + "' for '" + alias + "' (Code: " + NatToString(code) + ")"
  }

  /** What `fetch_ban_list(url, alias)` returns or raises, given the PAP's reply. */
  function FetchResult(url: string, alias: string, reply: Pap.Reply): Result<seq<string>, string>
  {
    match reply
    case CurlError(message) => Err(message)
    case Response(code, body) =>
      if code != 200 then Err(StatusError(url, alias, code))
      else if body.Err? then Err(body.error)
      else Ok(Pap.DenyDns(body.value))
  }

  /** A 200 reply with a parsed policy yields a list, and a DN is in it
      exactly when it is the openssl form of the subject-id value of a match
      in a rule whose effect is deny. */
  lemma FetchedDnsMember(url: string, alias: string, rules: seq<Pap.Rule>, d: string)
    ensures FetchResult(url, alias, Pap.Response(200, Ok(rules))).Ok?
    ensures d in FetchResult(url, alias, Pap.Response(200, Ok(rules))).value <==>
      exists i, j :: 0 <= i < |rules| && Pap.IsDeny(rules[i]) && 0 <= j < |rules[i].matches|
        && Pap.IsSubjectId(rules[i].matches[j]) && d == Dn.RfcToOpenssl(rules[i].matches[j].value)
  {
    var values := Pap.DenyValues(rules);
    Dn.ConvertAllMember(values, d);
    if d in Pap.DenyDns(rules) {
      var v :| v in values && d == Dn.RfcToOpenssl(v);
      Pap.DenyValuesMember(rules, v);
    }
    if exists i, j :: 0 <= i < |rules| && Pap.IsDeny(rules[i]) && 0 <= j < |rules[i].matches|
        && Pap.IsSubjectId(rules[i].matches[j]) && d == Dn.RfcToOpenssl(rules[i].matches[j].value)
    {
      var i, j :| 0 <= i < |rules| && Pap.IsDeny(rules[i]) && 0 <= j < |rules[i].matches|
        && Pap.IsSubjectId(rules[i].matches[j]) && d == Dn.RfcToOpenssl(rules[i].matches[j].value);
      Pap.DenyValuesMember(rules, rules[i].matches[j].value);
    }
  }

  /** `fetch_ban_list`: the outcome `FetchResult` describes, the DNs picked
      by the nested filtering loop of `Pap.ExtractDenyDns`. */
  method FetchBanList(url: string, alias: string, reply: Pap.Reply) returns (r: Result<seq<string>, string>)
    ensures r == FetchResult(url, alias, reply)
  {
    match reply {
      case CurlError(message) =>
        return Err(message);
      case Response(code, body) =>
        if code != 200 {
          return Err(StatusError(url, alias, code));
        }
        if body.Err? {
          return Err(body.error);
        }
        var dns := Pap.ExtractDenyDns(body.value);
        return Ok(dns);
    }
  }

  /** The result of fetching one source. */
  function Fetched(source: (string, string), reply: Pap.Reply): Result<seq<string>, string>
  {
    FetchResult(SourceUrl(source), source.1, reply)
  }

  /** What the run prints about one source: the fetch error, or the DNs no
      longer banned and the DNs newly banned. */
  datatype Report =
    | FetchFailed(message: string)
    | Changes(key: string, unbanned: set<string>, banned: set<string>)

  /** The previous run's DNs for a key, none when it had no list for it. */
  function Before(prev: map<string, seq<string>>, key: string): set<string>
  {
    if key in prev then set dn | dn in prev[key] else {}
  }

  /** The audit of a fetched list against the previous one. */
  function AuditOf(prev: map<string, seq<string>>, key: string, after: seq<string>): Report
  {
    var before, now := Before(prev, key), set dn | dn in after;
    Changes(key, before - now, now - before)
  }

  /** No DN is both unbanned and banned; the unbanned ones with the kept
      ones are the old list, the banned ones with the kept ones the new
      list; and nothing is reported exactly when the two lists hold the
      same DNs. */
  lemma AuditSound(prev: map<string, seq<string>>, key: string, after: seq<string>)
    ensures var a, before, now := AuditOf(prev, key, after), Before(prev, key), set dn | dn in after;
      a.unbanned !! a.banned
      && a.unbanned + (before * now) == before
      && a.banned + (before * now) == now
      && (a.unbanned == {} && a.banned == {} <==> before == now)
  {
    var a, before, now := AuditOf(prev, key, after), Before(prev, key), set dn | dn in after;
    if a.unbanned == {} && a.banned == {} {
      assert forall dn :: dn in before ==> dn in now;
      assert forall dn :: dn in now ==> dn in before;
    }
  }

  /** The message printed for a failed fetch. */
  function FailureMessage(err: string): string
  {
    "Error fetching ban list: " + err
  }

  /** The report of one source. */
  function ReportOf(prev: map<string, seq<string>>, source: (string, string), reply: Pap.Reply): Report
  {
    match Fetched(source, reply)
    case Ok(dns) => AuditOf(prev, SourceKey(source), dns)
    case Err(e) => FetchFailed(FailureMessage(e))
  }

  /** The reports of a run, one per source in order: a change report
      exactly for the sources fetched, the failure otherwise. */
  function Reports(sources: seq<(string, string)>, replies: seq<Pap.Reply>, prev: map<string, seq<string>>)
    : (reports: seq<Report>)
    requires |replies| == |sources|
    ensures |reports| == |sources|
    ensures forall i :: 0 <= i < |sources| ==>
      (reports[i].Changes? <==> Fetched(sources[i], replies[i]).Ok?)
    ensures forall i :: 0 <= i < |sources| && Fetched(sources[i], replies[i]).Ok? ==>
      reports[i] == AuditOf(prev, SourceKey(sources[i]), Fetched(sources[i], replies[i]).value)
  {
    seq(|sources|, i requires 0 <= i < |sources| => ReportOf(prev, sources[i], replies[i]))
  }

  /** `bans` after one more source: its fetched list, or on failure the
      previous run's list for its key when there was one. */
  function Step(bans: map<string, seq<string>>, prev: map<string, seq<string>>,
                source: (string, string), reply: Pap.Reply): map<string, seq<string>>
  {
    var key := SourceKey(source);
    match Fetched(source, reply)
    case Ok(dns) => bans[key := dns]
    case Err(_) => if key in prev then bans[key := prev[key]] else bans
  }

  /** `bans` after the sources, one after the other. */
  function Reconciled(sources: seq<(string, string)>, replies: seq<Pap.Reply>, prev: map<string, seq<string>>)
    : map<string, seq<string>>
    requires |replies| == |sources|
  {
    if sources == [] then map[]
    else
      var n := |sources| - 1;
      Step(Reconciled(sources[..n], replies[..n], prev), prev, sources[n], replies[n])
  }

  /** One pass of the loop: fetch the source, then keep its list, or fall
      back on the previous one, and report. */
  method Visit(ruleset: (string, string), reply: Pap.Reply, prev: map<string, seq<string>>,
               bans: map<string, seq<string>>)
    returns (bans': map<string, seq<string>>, report: Report)
    ensures bans' == Step(bans, prev, ruleset, reply)
    ensures report == ReportOf(prev, ruleset, reply)
  {
    var url := ruleset.0 + PAP_ENDPOINT;
    var key := url + "-" + ruleset.1;
    assert url == SourceUrl(ruleset) && key == SourceKey(ruleset);
    var fetched := FetchBanList(url, ruleset.1, reply);
    assert fetched == Fetched(ruleset, reply);
    if fetched.Err? {
      report := FetchFailed(FailureMessage(fetched.error));
      bans' := bans;
      if key in prev {
        bans' := bans[key := prev[key]];
      }
    } else {
      bans' := bans[key := fetched.value];
      var before: set<string> := {};
      if key in prev {
        before := set dn | dn in prev[key];
      }
      assert before == Before(prev, key);
      var after := set dn | dn in bans'[key];
      report := Changes(key, before - after, after - before);
      assert report == AuditOf(prev, key, fetched.value);
    }
  }

  /** One more source is one more `Step`. */
  lemma ReconciledSnoc(sources: seq<(string, string)>, replies: seq<Pap.Reply>,
                       prev: map<string, seq<string>>, i: nat)
    requires |replies| == |sources| && i < |sources|
    ensures Reconciled(sources[..i + 1], replies[..i + 1], prev)
      == Step(Reconciled(sources[..i], replies[..i], prev), prev, sources[i], replies[i])
  {
    assert sources[..i + 1][..i] == sources[..i];
    assert replies[..i + 1][..i] == replies[..i];
  }

  /** The loop over the sources, in order. */
  method Reconcile(sources: seq<(string, string)>, replies: seq<Pap.Reply>, prev: map<string, seq<string>>)
    returns (bans: map<string, seq<string>>, reports: seq<Report>)
    requires |replies| == |sources|
    ensures bans == Reconciled(sources, replies, prev)
    ensures reports == Reports(sources, replies, prev)
  {
    bans := map[];
    reports := [];
    var i := 0;
    while i < |sources|
      invariant 0 <= i <= |sources|
      invariant bans == Reconciled(sources[..i], replies[..i], prev)
      invariant |reports| == i
      invariant forall k :: 0 <= k < i ==> reports[k] == ReportOf(prev, sources[k], replies[k])
    {
      ReconciledSnoc(sources, replies, prev, i);
      var report;
      bans, report := Visit(sources[i], replies[i], prev, bans);
      reports := reports + [report];
      i := i + 1;
    }
    assert sources[..i] == sources && replies[..i] == replies;
  }

  /** Every key of the state belongs to a configured source: lists of
      sources no longer configured are dropped. */
  lemma {:induction false} ReconciledKeys(sources: seq<(string, string)>, replies: seq<Pap.Reply>,
                                          prev: map<string, seq<string>>, key: string)
    requires |replies| == |sources|
    requires key in Reconciled(sources, replies, prev)
    ensures exists i :: 0 <= i < |sources| && key == SourceKey(sources[i])
  {
    var n := |sources| - 1;
    if key != SourceKey(sources[n]) {
      ReconciledKeys(sources[..n], replies[..n], prev, key);
      var i :| 0 <= i < n && key == SourceKey(sources[..n][i]);
      assert sources[..n][i] == sources[i];
    }
  }

  /** A key no configured source has is not in the state. */
  lemma {:induction false} ReconciledAbsent(sources: seq<(string, string)>, replies: seq<Pap.Reply>,
                                            prev: map<string, seq<string>>, key: string)
    requires |replies| == |sources|
    requires forall i :: 0 <= i < |sources| ==> SourceKey(sources[i]) != key
    ensures key !in Reconciled(sources, replies, prev)
  {
    if sources != [] {
      var n := |sources| - 1;
      forall j | 0 <= j < n
        ensures SourceKey(sources[..n][j]) != key
      {
        assert sources[..n][j] == sources[j];
      }
      ReconciledAbsent(sources[..n], replies[..n], prev, key);
    }
  }

  /** No two configured sources share a key. */
  predicate DistinctKeys(sources: seq<(string, string)>)
  {
    forall i, j :: 0 <= i < j < |sources| ==> SourceKey(sources[i]) != SourceKey(sources[j])
  }

  /** With distinct keys, what the state holds for source `i`: the fetched
      list; on a failure the previous run's list when there was one; and
      no entry at all otherwise. */
  lemma {:induction false} ReconciledAt(sources: seq<(string, string)>, replies: seq<Pap.Reply>,
                                        prev: map<string, seq<string>>, i: nat)
    requires |replies| == |sources| && DistinctKeys(sources) && i < |sources|
    ensures var bans, key, fetched := Reconciled(sources, replies, prev), SourceKey(sources[i]), Fetched(sources[i], replies[i]);
      (fetched.Ok? ==> key in bans && bans[key] == fetched.value)
      && (fetched.Err? && key in prev ==> key in bans && bans[key] == prev[key])
      && (fetched.Err? && key !in prev ==> key !in bans)
  {
    var n := |sources| - 1;
    var key := SourceKey(sources[i]);
    var earlier := Reconciled(sources[..n], replies[..n], prev);
    if i < n {
      assert DistinctKeys(sources[..n]) by {
        forall a, b | 0 <= a < b < n
          ensures SourceKey(sources[..n][a]) != SourceKey(sources[..n][b])
        {
          assert sources[..n][a] == sources[a] && sources[..n][b] == sources[b];
        }
      }
      ReconciledAt(sources[..n], replies[..n], prev, i);
      assert sources[..n][i] == sources[i] && replies[..n][i] == replies[i];
      assert SourceKey(sources[n]) != key;
    } else if key !in prev && Fetched(sources[i], replies[i]).Err? {
      forall j | 0 <= j < n
        ensures SourceKey(sources[..n][j]) != key
      {
        assert sources[..n][j] == sources[j];
      }
      ReconciledAbsent(sources[..n], replies[..n], prev, key);
    }
  }

  /** The quoted form a fetched DN takes in the output. */
  function Quote(dn: string): string
  {
    "\"" + dn + "\""
  }

  /** The static file's lines, whitespace-stripped, or none when there is
      no static file. */
  function StaticLines(staticContent: Option<string>): (lines: seq<string>)
    ensures staticContent.None? ==> lines == []
    ensures staticContent.Some? ==>
      |lines| == |Lines.ReadLines(staticContent.value)|
      && forall i :: 0 <= i < |lines| ==> lines[i] == Strip(Lines.ReadLines(staticContent.value)[i])
  {
    match staticContent
    case None => []
    case Some(content) =>
      var raw := Lines.ReadLines(content);
      seq(|raw|, i requires 0 <= i < |raw| => Strip(raw[i]))
  }

  /** The quoted DNs of every list in the state. */
  function DynamicLines(bans: map<string, seq<string>>): set<string>
  {
    set key, dn | key in bans && dn in bans[key] :: Quote(dn)
  }

  /** The distinct lines of the ban file: the static lines and the quoted
      fetched DNs. */
  function OutputSet(staticLines: seq<string>, bans: map<string, seq<string>>): set<string>
  {
    (set line | line in staticLines) + DynamicLines(bans)
  }

  /** The lines gathered before duplicates go: the static lines, then every
      list's DNs quoted, the lists taken in whatever order the map gives. */
  method Gather(staticLines: seq<string>, bans: map<string, seq<string>>) returns (dnList: seq<string>)
    ensures (set line | line in dnList) == OutputSet(staticLines, bans)
  {
    dnList := staticLines;
    var todo := bans.Keys;
    while todo != {}
      invariant todo <= bans.Keys
      invariant (set line | line in dnList) == (set line | line in staticLines)
        + (set key, dn | key in bans && key !in todo && dn in bans[key] :: Quote(dn))
      decreases todo
    {
      var key :| key in todo;
      ghost var done := set k, dn | k in bans && k !in todo && dn in bans[k] :: Quote(dn);
      var j := 0;
      while j < |bans[key]|
        invariant 0 <= j <= |bans[key]|
        invariant (set line | line in dnList) == (set line | line in staticLines)
          + done + (set dn | dn in bans[key][..j] :: Quote(dn))
      {
        var line := Quote(bans[key][j]);
        ghost var had := set l | l in dnList;
        dnList := dnList + [line];
        assert (set l | l in dnList) == had + {line};
        assert bans[key][..j + 1] == bans[key][..j] + [bans[key][j]];
        assert (set dn | dn in bans[key][..j + 1] :: Quote(dn))
          == (set dn | dn in bans[key][..j] :: Quote(dn)) + {line};
        j := j + 1;
      }
      assert bans[key][..j] == bans[key];
      todo := todo - {key};
      assert (set k, dn | k in bans && k !in todo && dn in bans[k] :: Quote(dn))
        == done + (set dn | dn in bans[key] :: Quote(dn));
    }
  }

  predicate Distinct(lines: seq<string>)
  {
    forall i, j :: 0 <= i < j < |lines| ==> lines[i] != lines[j]
  }

  /** `set(dn_list)` taken in order: each distinct line once. Python's set
      order is not modelled; first occurrence order is one order it may take. */
  method Dedup(dnList: seq<string>) returns (out: seq<string>)
    ensures Distinct(out)
    ensures (set line | line in out) == (set line | line in dnList)
  {
    out := [];
    var i := 0;
    while i < |dnList|
      invariant 0 <= i <= |dnList|
      invariant Distinct(out)
      invariant (set line | line in out) == (set line | line in dnList[..i])
    {
      ghost var seen := dnList[..i + 1];
      assert seen == dnList[..i] + [dnList[i]];
      assert (set line | line in seen) == (set line | line in dnList[..i]) + {dnList[i]};
      if dnList[i] !in out {
        ghost var had := set line | line in out;
        out := out + [dnList[i]];
        assert (set line | line in out) == had + {dnList[i]};
      }
      i := i + 1;
    }
    assert dnList[..i] == dnList;
  }

  /** The text written for the output lines: each followed by "\n". */
  function OutputText(out: seq<string>): string
  {
    if out == [] then "" else out[0] + "\n" + OutputText(out[1..])
  }

  /** A static DN written without quotes is not merged with the same DN
      fetched from a PAP: the ban file gets both forms. */
  lemma UnquotedStaticKept(dn: string)
    ensures OutputSet([dn], map["key" := [dn]]) == {dn, Quote(dn)}
    ensures dn != Quote(dn)
  {
    var bans := map["key" := [dn]];
    assert DynamicLines(bans) == {Quote(dn)} by {
      assert Quote(dn) in DynamicLines(bans) by {
        assert "key" in bans && dn in bans["key"];
      }
    }
    assert |Quote(dn)| == |dn| + 2;
  }

  /** A static DN written in quotes is merged with the same DN fetched from
      a PAP: the ban file gets it once. */
  lemma QuotedStaticMerged(dn: string)
    ensures OutputSet([Quote(dn)], map["key" := [dn]]) == {Quote(dn)}
  {
    var bans := map["key" := [dn]];
    assert Quote(dn) in DynamicLines(bans) by {
      assert "key" in bans && dn in bans["key"];
    }
  }

  /** A static line is kept as it is once stripped, whatever it holds: a
      line starting with "#" is not skipped as a comment here. */
  lemma {:induction false} StaticLineKept(t: string, bans: map<string, seq<string>>)
    requires '\n' !in t && Stripped(t)
    ensures StaticLines(Some(t + "\n")) == [t]
    ensures t in OutputSet(StaticLines(Some(t + "\n")), bans)
  {
    Lines.NewlineTerminated(t);
    assert Lines.WellSplit([t + "\n"]);
    Lines.ReadLinesConcat([t + "\n"]);
    assert Lines.Concat([t + "\n"]) == t + "\n";
    StripTrailingSpace(t, '\n');
  }

  /** The main block, once the previous state is loaded: reconcile the
      sources, gather and deduplicate the lines, write the ban file. When
      the ban file cannot be opened for writing the run stops with that
      error and saves no state; otherwise the state to save is `bans`. */
  method Run(sources: seq<(string, string)>, replies: seq<Pap.Reply>, prev: map<string, seq<string>>,
             fs: Files.FileSystem)
    returns (saved: Option<map<string, seq<string>>>, reports: seq<Report>, raised: Option<string>)
    requires |replies| == |sources|
    modifies fs`files
    ensures reports == Reports(sources, replies, prev)
    ensures OUTPUT_FILE in fs.readOnly ==>
      saved == None && raised == Some(Files.PermissionDenied(OUTPUT_FILE)) && fs.files == old(fs.files)
    ensures OUTPUT_FILE !in fs.readOnly ==>
      saved == Some(Reconciled(sources, replies, prev)) && raised == None
      && OUTPUT_FILE in fs.files
      && fs.files == old(fs.files)[OUTPUT_FILE := fs.files[OUTPUT_FILE]]
      && exists out: seq<string> ::
           Distinct(out)
           && (set line | line in out) == OutputSet(
                StaticLines(if STATIC_FILE in old(fs.files) then Some(old(fs.files)[STATIC_FILE]) else None),
                Reconciled(sources, replies, prev))
           && fs.files[OUTPUT_FILE] == OutputText(out)
  {
    var bans;
    bans, reports := Reconcile(sources, replies, prev);
    var staticContent: Option<string> := None;
    if STATIC_FILE in fs.files {
      var read := fs.Read(STATIC_FILE);
      staticContent := Some(read.value);
    }
    var gathered := Gather(StaticLines(staticContent), bans);
    var out := Dedup(gathered);
    var content := "";
    var i := 0;
    while i < |out|
      invariant 0 <= i <= |out|
      invariant content + OutputText(out[i..]) == OutputText(out)
      invariant fs.files == old(fs.files)
    {
      assert out[i..][1..] == out[i + 1..];
      content := content + out[i] + "\n";
      i := i + 1;
    }
    var werr := fs.Write(OUTPUT_FILE, content);
    if werr.Some? {
      return None, reports, werr;
    }
    return Some(bans), reports, None;
  }
}
