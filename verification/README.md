# fetch-ban, modelled in Dafny

fetch-ban keeps grid services' ban lists in step with central policy
servers. The main script (`fetch-ban.py`) asks each configured Argus PAP
(policy administration point) for the ban rules of one policy alias. It
turns the subject DNs of the deny rules from RFC 2253 order into openssl
`/C=../CN=..` form. If a fetch fails, it keeps the list from the previous
run. It reports which DNs were banned and unbanned. Finally it writes
`/etc/lcas/ban_users.db`: the static file's lines plus every fetched DN in
quotes, each distinct line once, and it saves the per-source lists for the
next run.

The plugin library (`FetchBanLib/`) has two kinds of plugin:
- input plugins: Argus, and a static DN file;
- output plugins that rewrite a service's configuration file:
  - LCAS: one quoted DN per line;
  - dCache `ban.conf` (DBAN): a fixed header, then one `ban dn:` line per DN;
  - WMS GACL: deny entries go between the first line and the first allow entry;
  - dCache vo-rolemap (VORM): ban lines go inside a guarded block, created at
    the top of the file if it is missing.

Each Python module becomes a Dafny module:

| Dafny file | models |
|---|---|
| `text.dfy`, `lines.dfy` | the Python 2 string and line operations the code relies on |
| `files.dfy` | the file system: readable files and paths that refuse writes |
| `dn.dfy` | `rfc_to_openssl` |
| `pap.dfy` | the deny-rule filter over a parsed XACML policy |
| `fetch_ban.dfy` | the main script |
| `argus.dfy`, `static_input.dfy`, `lcas.dfy`, `dban.dfy`, `gacl.dfy`, `vorm.dfy` | one plugin each |

How the plugins and the main loop are modelled:
- Plugins whose methods change their own fields are classes. Their
  `process` methods change `FileSystem.files` and nothing else.
- The loops in the source are loops in the model, proved against
  specification functions. Two examples: `Gacl.SanityResult` for the GACL
  sanity check, and `Vorm.Updated` for the vo-rolemap update.
- The main loop is `FetchBan.Reconcile`, proved against the fold
  `FetchBan.Reconciled`.

The code and the documented behaviour of the main script disagree in two
places. The model follows the code:
- When aggregating, the main script strips each static line but does not
  unquote it, and it quotes every fetched DN. So a DN listed in the static
  file without quotes and also fetched from a PAP appears twice in the ban
  file, once bare and once quoted (`FetchBan.UnquotedStaticKept`). Only a
  quoted static line is merged with the fetched DN
  (`FetchBan.QuotedStaticMerged`).
- The main script does not skip `#` lines in the static file. Such lines go
  into the ban file as they are (`FetchBan.StaticLineKept`).

## Model

| member | source | states |
|---|---|---|
| Text.Strip | fetch-ban.py:41 | `strip()` leaves no whitespace at either end, and leaves an already stripped string unchanged |
| Text.StripShape | fetch-ban.py:41 | the stripped string is a slice of the input, with only whitespace before and after it |
| Text.Lower | fetch-ban.py:71 | `lower()` keeps the length and lower-cases each character |
| Text.Split | fetch-ban.py:41 | `split(c)` gives at least one part, and no part holds the separator |
| Text.SplitCount | fetch-ban.py:41 | `split(c)` gives one more part than there are separators |
| Text.JoinSplit | fetch-ban.py:41-43 | joining the parts of a split with the same separator gives back the string |
| Text.SplitJoin | fetch-ban.py:41-43 | splitting a join of separator-free parts gives back the parts |
| Text.NatToString | fetch-ban.py:65-66 | `%d` of a non-negative code is a string of decimal digits with no leading zero, whose value is the code |
| Text.ReverseMember | fetch-ban.py:42 | reversing keeps exactly the same elements |
| Text.ReverseReverse | fetch-ban.py:42 | reversing twice gives back the list |
| Lines.SplitLines | FetchBanLib/FetchBanOutputGACL.py:55 | `splitlines()` returns lines that hold no line break |
| Lines.SplitLinesRender | FetchBanLib/FetchBanOutputGACL.py:53-89 | lines written each followed by "\n" are read back by `splitlines()` as the same lines |
| Lines.SplitLinesStep | FetchBanLib/FetchBanOutputGACL.py:55 | `splitlines()` cuts one break-free line and its "\n" off the front of the text |
| Lines.SplitLinesCrLf | FetchBanLib/FetchBanOutputGACL.py:55 | `splitlines()` treats "\r\n" after a line as one terminator, so no empty line appears between them |
| Lines.SplitLinesCr | FetchBanLib/FetchBanOutputGACL.py:55 | `splitlines()` ends a line at a lone "\r" not followed by "\n" |
| Lines.RenderSplitLines | FetchBanLib/FetchBanOutputGACL.py:55-89 | for text without "\r", writing back the lines `splitlines()` finds, each with "\n", gives the text again, with a "\n" added only when the text did not end in one |
| Lines.RenderAppend | FetchBanLib/FetchBanOutputGACL.py:70-89 | writing two runs of lines one after the other writes the two texts one after the other |
| Lines.ReadLines | FetchBanLib/FetchBanOutputVORM.py:37-40 | `readlines()` returns pieces that put back together give the file, each piece a line and each but the last ending in "\n" |
| Lines.ReadLinesConcat | FetchBanLib/FetchBanOutputVORM.py:37-79 | pieces shaped as `readlines()` returns them, once written out, are read back as the same pieces |
| Lines.ReadLinesAppend | FetchBanLib/FetchBanOutputVORM.py:37-79 | text that ends in a newline reads as its own lines followed by the lines of what follows it |
| Files.FileSystem.Read | FetchBanLib/FetchBanOutputVORM.py:37-42 | opening a missing file gives the "No such file or directory" error, otherwise its content |
| Files.FileSystem.Write | FetchBanLib/FetchBanOutputLCAS.py:23-29 | a path that refuses writes gives the "Permission denied" error and nothing changes, otherwise only that file's content is replaced |
| Dn.RfcToOpenssl | fetch-ban.py:39-43 | the openssl form always starts with "/" |
| Dn.RfcToOpensslComponents | fetch-ban.py:39-43 | the openssl form's "/"-separated components are the RFC 2253 components, stripped, in reverse order |
| Dn.ComponentsAbsent | fetch-ban.py:41 | a character missing from the DN is missing from every stripped component |
| Dn.StripAllStripped | fetch-ban.py:41 | components that are already stripped come out unchanged |
| Dn.RfcToOpensslJoin | fetch-ban.py:39-43 | the DN joined from components with "," becomes "/" and the reversed components joined with "/" |
| Dn.RfcRoundTrip | fetch-ban.py:39-43 | converting to openssl form and back gives the RFC 2253 DN, when its components are stripped and hold no "/" |
| Dn.OpensslRoundTrip | fetch-ban.py:39-43 | every openssl DN with stripped components and no "," is the conversion of the RFC 2253 DN built from it |
| Dn.JaneDoe | fetch-ban.py:39-43 | "CN=Jane Doe,O=Example,C=UK" becomes "/C=UK/O=Example/CN=Jane Doe" |
| Dn.EmptyDn | fetch-ban.py:39-43 | the empty DN becomes "/" |
| Dn.ThreeComponents | fetch-ban.py:39-43 | a DN of three stripped components without commas becomes "/" and those components in reverse order, joined with "/" |
| Dn.ConvertAllAppend | fetch-ban.py:80-81 | converting one more DN appends its openssl form |
| Dn.ConvertAllConcat | fetch-ban.py:80-81 | converting two lists one after the other converts their concatenation |
| Dn.ConvertAllMember | fetch-ban.py:80-81 | an openssl DN is in the converted list exactly when it is the conversion of a DN of the input |
| Pap.ExtractDenyDns | fetch-ban.py:50-82 | the nested loop over rules and subject matches returns exactly `DenyDns` of the rules |
| Pap.AppendSubjectDns | fetch-ban.py:73-81 | the inner loop over one rule's matches appends the openssl forms of exactly that rule's subject-id values |
| Pap.SubjectValuesAppend | fetch-ban.py:73-79 | the subject-id values of two runs of matches are those of the first run, then those of the second |
| Pap.DenyValuesAppend | fetch-ban.py:69-80 | the values of two runs of rules are those of the first run, then those of the second |
| Pap.DenyDnsAppend | fetch-ban.py:69-81 | the DNs of two runs of rules are those of the first run, then those of the second |
| Pap.SubjectValuesMember | fetch-ban.py:73-80 | a value is kept exactly when some match carries it under the subject-id attribute, compared case-insensitively |
| Pap.DenyValuesMember | fetch-ban.py:69-80 | a value is kept exactly when some rule with effect deny, compared case-insensitively, has a subject-id match carrying it |
| Pap.SubjectValuesLength | fetch-ban.py:73-81 | one value per subject-id match, never more than there are matches |
| Argus.ParseUrlAliasSpec | FetchBanLib/FetchBanInputArgus.py:52-55 | `URL#alias` parses exactly when the text holds one "#", and then the URL and the alias are the two sides of it |
| Argus.ParseUrlAliasRoundTrip | FetchBanLib/FetchBanInputArgus.py:52-55 | a URL and an alias without "#" are recovered from `URL#alias` |
| Argus.ArgusInput.constructor | FetchBanLib/FetchBanInputArgus.py:40-46 | every setting starts unset |
| Argus.ArgusInput.Configure | FetchBanLib/FetchBanInputArgus.py:48-58 | a malformed `URL#alias` gives the parse error and changes nothing; otherwise all four settings are stored |
| Argus.ArgusInput.Process | FetchBanLib/FetchBanInputArgus.py:60-107 | a transport failure and a status other than 200 give their errors, naming URL and alias; otherwise the result is the deny DNs of the policy |
| StaticInput.Unquote | FetchBanLib/FetchBanInputStatic.py:37-39 | one outer pair of quotes is removed when the line both starts and ends with one, and other lines are unchanged |
| StaticInput.StaticEntriesNoComment | FetchBanLib/FetchBanInputStatic.py:32-43 | no more DNs than lines, and no DN starts with "#" |
| StaticInput.FilterLines | FetchBanLib/FetchBanInputStatic.py:36-43 | the loop returns exactly `StaticEntries` of the lines |
| StaticInput.StaticEntriesAppend | FetchBanLib/FetchBanInputStatic.py:36-42 | the DNs of two runs of lines are those of the first run, then those of the second |
| StaticInput.StaticEntriesMember | FetchBanLib/FetchBanInputStatic.py:36-42 | a DN is read exactly when some line's entry is that DN |
| StaticInput.StaticEntriesAllKept | FetchBanLib/FetchBanInputStatic.py:36-42 | when every line is kept, the DNs are the lines' entries in order |
| StaticInput.QuotedLineEntry | FetchBanLib/FetchBanInputStatic.py:37-42 | a quoted DN on its own line reads as the DN |
| StaticInput.StaticInput.constructor | FetchBanLib/FetchBanInputStatic.py:10-15 | every setting starts unset |
| StaticInput.StaticInput.Configure | FetchBanLib/FetchBanInputStatic.py:17-22 | the four settings are stored |
| StaticInput.StaticInput.Process | FetchBanLib/FetchBanInputStatic.py:32-35 | as written: a missing file gives its open error, and an existing file always gives the missing-method error |
| StaticInput.StaticInput.ProcessReadlines | FetchBanLib/FetchBanInputStatic.py:32-43 | corrected: a missing file gives its open error, otherwise the result is `StaticEntries` of the file's lines |
| Lcas.LcasReadBack | FetchBanLib/FetchBanOutputLCAS.py:23-27 | the file written is read back by `readlines()` as exactly those lines |
| Lcas.LcasStaticRoundTrip | FetchBanLib/FetchBanOutputLCAS.py:18-27 | the static input plugin reads the LCAS lines back as the ban list, when no DN starts with "#" or holds a newline |
| Lcas.LcasOutput.constructor | FetchBanLib/FetchBanOutputLCAS.py:10-12 | the file name starts unset |
| Lcas.LcasOutput.Configure | FetchBanLib/FetchBanOutputLCAS.py:14-16 | the file name is stored |
| Lcas.LcasOutput.Process | FetchBanLib/FetchBanOutputLCAS.py:18-30 | an unwritable file gives the write error and nothing changes; otherwise the file holds the LCAS lines and nothing else changes |
| Dban.BanLineIsLine | FetchBanLib/FetchBanOutputDBAN.py:9 | a ban line for a DN without a newline is one line ending in "\n" |
| Dban.DbanReadBack | FetchBanLib/FetchBanOutputDBAN.py:27-33 | the file written reads back as the header's lines followed by one ban line per DN |
| Dban.DbanOutput.constructor | FetchBanLib/FetchBanOutputDBAN.py:16-18 | the file name starts unset |
| Dban.DbanOutput.Configure | FetchBanLib/FetchBanOutputDBAN.py:20-22 | the file name is stored |
| Dban.DbanOutput.Process | FetchBanLib/FetchBanOutputDBAN.py:24-36 | an unwritable file gives the write error and nothing changes; otherwise the file holds the header and the ban lines, and nothing else changes |
| Gacl.LastDenyAt | FetchBanLib/FetchBanOutputGACL.py:27-36 | the index of the last `<deny>` line, or 0 when there is none |
| Gacl.FirstAllowAt | FetchBanLib/FetchBanOutputGACL.py:28-33 | the first `<allow>` line after line 0, or 0 when there is none, because a match at line 0 leaves the marker unset |
| Gacl.LastDenyAtUnique | FetchBanLib/FetchBanOutputGACL.py:27-36 | a `<deny>` line with no `<deny>` after it is the one found |
| Gacl.FirstAllowAtFound | FetchBanLib/FetchBanOutputGACL.py:28-33 | an `<allow>` past line 0 means the first one found is no later than it |
| Gacl.SanityOkIffWellOrdered | FetchBanLib/FetchBanOutputGACL.py:18-45 | the check passes exactly when every `<deny>` is on line 5 or later, no `<allow>` after line 0 comes before it, and an `<allow>` comes at or after it |
| Gacl.DenyWithoutAllowRejected | FetchBanLib/FetchBanOutputGACL.py:41-43 | a file with a `<deny>` and no `<allow>` after line 0 is rejected |
| Gacl.SanityOkValue | FetchBanLib/FetchBanOutputGACL.py:27-45 | a passing check returns 0 when there is no `<deny>`, and otherwise the last `<deny>`'s index, which is at least 5 |
| Gacl.RecordsLength | FetchBanLib/FetchBanOutputGACL.py:71-79 | eight lines are written per DN |
| Gacl.RecordLine | FetchBanLib/FetchBanOutputGACL.py:71-79 | every line of the entries is line `k` (of eight) of the entry of some DN `j` of the ban list, at position `8j+k` |
| Gacl.FixedLinesDeny | FetchBanLib/FetchBanOutputGACL.py:72-79 | among the fixed entry lines, only the `<deny>` line holds `<deny>` |
| Gacl.FixedLinesAllow | FetchBanLib/FetchBanOutputGACL.py:72-79 | no fixed entry line holds `<allow>` |
| Gacl.RecordMarkers | FetchBanLib/FetchBanOutputGACL.py:72-79 | in one DN's entry only line 4 holds `<deny>` and none holds `<allow>` |
| Gacl.RecordsMarkers | FetchBanLib/FetchBanOutputGACL.py:71-79 | in the written entries, exactly the lines at `8j+4` hold `<deny>`, and none holds `<allow>` |
| Gacl.TailNoDeny | FetchBanLib/FetchBanOutputGACL.py:81-89 | after a passing check, the lines copied from `start_here` on hold no `<deny>` |
| Gacl.RebuildAt | FetchBanLib/FetchBanOutputGACL.py:66-89 | the new file is the first line, then the entries, then the copied tail, at those positions |
| Gacl.RebuildMarkers | FetchBanLib/FetchBanOutputGACL.py:66-89 | the new file has `<deny>` exactly on each entry's fifth line and no `<allow>` among the entries |
| Gacl.EntryShapedSane | FetchBanLib/FetchBanOutputGACL.py:18-45 | a file shaped as `n` entries after the first line, with an `<allow>` after them, passes the check with the last entry's `<deny>` index |
| Gacl.EntryShapedLate | FetchBanLib/FetchBanOutputGACL.py:41-43 | a file shaped as `n > 0` entries with no `<allow>` after them fails with the late-deny error |
| Gacl.RebuildAllowAt | FetchBanLib/FetchBanOutputGACL.py:81-89 | when the copied tail has an `<allow>`, the new file has one after the entries |
| Gacl.RebuildSane | FetchBanLib/FetchBanOutputGACL.py:47-89 | the file `process` writes passes the sanity check again, with the last entry's `<deny>` as its result |
| Gacl.Reprocess | FetchBanLib/FetchBanOutputGACL.py:47-89 | rebuilding a rebuilt file with a new list equals rebuilding the original with that list: old entries are replaced, not kept |
| Gacl.RebuildWithoutAllowRejected | FetchBanLib/FetchBanOutputGACL.py:41-89 | entries written into a file whose copied tail has no `<allow>` make the next check fail with the late-deny error |
| Gacl.FixedLinesUnbroken | FetchBanLib/FetchBanOutputGACL.py:72-79 | no fixed entry line holds a line break |
| Gacl.RecordsUnbroken | FetchBanLib/FetchBanOutputGACL.py:71-79 | no entry line holds a line break, when no DN does |
| Gacl.RebuildReadBack | FetchBanLib/FetchBanOutputGACL.py:53-89 | the text written is read back by `splitlines()` as the rebuilt lines |
| Gacl.ProcessTwice | FetchBanLib/FetchBanOutputGACL.py:47-95 | the file `process` wrote passes the check, and processing it with any new list writes the same text as processing the original would |
| Gacl.GaclOutput.constructor | FetchBanLib/FetchBanOutputGACL.py:9-11 | the file name starts unset |
| Gacl.GaclOutput.Configure | FetchBanLib/FetchBanOutputGACL.py:13-15 | the file name is stored |
| Gacl.GaclOutput.SanityCheck | FetchBanLib/FetchBanOutputGACL.py:17-45 | the loop returns exactly `SanityResult`: the early-deny error, the late-deny error, or the last `<deny>` index |
| Gacl.GaclOutput.WriteEntries | FetchBanLib/FetchBanOutputGACL.py:70-80 | the writes of the first line and of eight lines per DN give the first line and the entries, each followed by "\n" |
| Gacl.GaclOutput.Compose | FetchBanLib/FetchBanOutputGACL.py:66-89 | the writes give exactly the rebuilt lines, each followed by "\n" |
| Gacl.GaclOutput.Process | FetchBanLib/FetchBanOutputGACL.py:47-95 | a missing file, a failed check and an unwritable file each give their error and change nothing; an empty file is emptied and the index error escapes; otherwise the file holds the rebuilt lines |
| Vorm.CommentAddedText | FetchBanLib/FetchBanOutputVORM.py:9-10 | the first guard comment holds no newline and cannot be mistaken for a guard |
| Vorm.CommentHandsOffText | FetchBanLib/FetchBanOutputVORM.py:9-10 | the second guard comment holds no newline and cannot be mistaken for a guard |
| Vorm.GuardTexts | FetchBanLib/FetchBanOutputVORM.py:11-12 | the start and end guards hold no newline and differ at their 15th character |
| Vorm.FirstEnd | FetchBanLib/FetchBanOutputVORM.py:45-53 | the first end guard line, or the line count when there is none |
| Vorm.LastStartBefore | FetchBanLib/FetchBanOutputVORM.py:45-53 | the last start guard before that end guard, or -1 |
| Vorm.UnmatchedEndIff | FetchBanLib/FetchBanOutputVORM.py:64-65 | the unmatched-end error comes exactly when an end guard has no start guard before it |
| Vorm.UnmatchedStartIff | FetchBanLib/FetchBanOutputVORM.py:44-67 | the unmatched-start error comes exactly when the file has a start guard and no end guard anywhere (a first end guard with no start guard before it gives the unmatched-end error instead) |
| Vorm.CreateBlock | FetchBanLib/FetchBanOutputVORM.py:57-73 | a file without guards gets the guard block, holding the ban lines, in front of all its lines |
| Vorm.ReplaceBlock | FetchBanLib/FetchBanOutputVORM.py:44-73 | the lines between the guards are replaced by the ban lines, and everything else is kept |
| Vorm.BanLineNoGuard | FetchBanLib/FetchBanOutputVORM.py:47-73 | a ban line is never taken for a guard |
| Vorm.BanLinesNoGuard | FetchBanLib/FetchBanOutputVORM.py:47-73 | no inserted ban line is taken for a guard |
| Vorm.ReplaceAgain | FetchBanLib/FetchBanOutputVORM.py:44-73 | updating an updated file with a new list equals updating the original with that list |
| Vorm.ReverseSnoc | FetchBanLib/FetchBanOutputVORM.py:71-73 | inserting each next line at the same index puts it in front of the earlier ones |
| Vorm.ScanGuards | FetchBanLib/FetchBanOutputVORM.py:44-53 | the scan finds the first end guard and the line after the last start guard before it, or -1 for either |
| Vorm.ReplaceRegion | FetchBanLib/FetchBanOutputVORM.py:68-73 | the delete and the inserts leave the lines before the region, the ban lines in reverse order, then the lines from the region's end |
| Vorm.HeaderLines | FetchBanLib/FetchBanOutputVORM.py:59-60 | the header written is three lines, the comments and the start guard, and only the last is a guard |
| Vorm.EndLines | FetchBanLib/FetchBanOutputVORM.py:61 | the end entry reads back as the end guard line and an empty line |
| Vorm.BanLineIsLine | FetchBanLib/FetchBanOutputVORM.py:72-73 | a ban line for a DN without a newline is one line ending in "\n" |
| Vorm.BanLinesAreLines | FetchBanLib/FetchBanOutputVORM.py:71-73 | every inserted ban line is one line ending in "\n" |
| Vorm.CreatedReadBack | FetchBanLib/FetchBanOutputVORM.py:57-79 | a file written with a new guard block reads back as the header, the ban lines, the end guard, the blank line and the original lines |
| Vorm.RerunAfterCreate | FetchBanLib/FetchBanOutputVORM.py:35-82 | running again on a file that just got its guard block updates that block in place |
| Vorm.RerunAfterReplace | FetchBanLib/FetchBanOutputVORM.py:35-82 | running again on a file whose block was just replaced writes what running on the original would |
| Vorm.Rerun | FetchBanLib/FetchBanOutputVORM.py:27-82 | running again on the file written succeeds and writes what running on the original with the new list would |
| Vorm.UpdateLines | FetchBanLib/FetchBanOutputVORM.py:44-73 | the scan, the checks, the block creation, the delete and the inserts compute exactly `Updated` |
| Vorm.WriteOut | FetchBanLib/FetchBanOutputVORM.py:75-79 | the writes give the lines one after the other |
| Vorm.VormOutput.constructor | FetchBanLib/FetchBanOutputVORM.py:19-21 | the file name starts unset |
| Vorm.VormOutput.Configure | FetchBanLib/FetchBanOutputVORM.py:23-25 | the file name is stored |
| Vorm.VormOutput.Process | FetchBanLib/FetchBanOutputVORM.py:27-82 | a missing file, an unmatched guard and an unwritable file each give their error and change nothing; otherwise the file holds the updated lines |
| FetchBan.SourceKeyDistinct | fetch-ban.py:97-98 | a source's key starts with its URL, and two aliases of one host get the same key only when they are the same alias |
| FetchBan.FetchedDnsMember | fetch-ban.py:46-82 | a 200 reply with a parsed policy gives a list, and a DN is in it exactly when it is the openssl form of a subject-id value in a rule whose effect is deny |
| FetchBan.FetchBanList | fetch-ban.py:46-82 | the request and the filtering loop give exactly the outcome `FetchResult` |
| FetchBan.Reports | fetch-ban.py:96-118 | one report per source, a change report exactly for the sources fetched, holding the audit of the new list against the old |
| FetchBan.AuditSound | fetch-ban.py:109-118 | unbanned and banned DNs are disjoint; each, together with the kept DNs, gives the old list or the new list; and nothing is reported exactly when the two lists hold the same DNs |
| FetchBan.Visit | fetch-ban.py:97-118 | one pass keeps the fetched list, or on failure the old list when there is one, and gives the source's report |
| FetchBan.Reconcile | fetch-ban.py:94-118 | the loop leaves exactly the fold `Reconciled` of the sources and the reports `Reports` |
| FetchBan.ReconciledSnoc | fetch-ban.py:94-118 | handling one more source applies one more `Step` to the state left by the earlier sources |
| FetchBan.ReconciledKeys | fetch-ban.py:95-106 | every key in the new state belongs to a configured source, so lists of sources no longer configured are dropped |
| FetchBan.ReconciledAbsent | fetch-ban.py:95-106 | a key that no configured source has is not in the new state |
| FetchBan.ReconciledAt | fetch-ban.py:95-106 | for each source: the fetched list when the fetch succeeds, else the old list when there was one, else no entry |
| FetchBan.Gather | fetch-ban.py:120-130 | the gathered lines are the static lines and every quoted DN of every list |
| FetchBan.Dedup | fetch-ban.py:131-134 | the lines written are pairwise distinct and are exactly the gathered lines |
| FetchBan.UnquotedStaticKept | fetch-ban.py:120-134 | an unquoted static DN that is also fetched is written twice, bare and quoted |
| FetchBan.QuotedStaticMerged | fetch-ban.py:120-134 | a quoted static DN that is also fetched is written once |
| FetchBan.StaticLineKept | fetch-ban.py:122-126 | any stripped static line, a "#" line included, reaches the ban file |
| FetchBan.Run | fetch-ban.py:85-141 | the reports are `Reports`; an unwritable ban file stops the run with its error and saves no state; otherwise the ban file holds each output line once, and the state saved is `Reconciled` |

## Left out

- The network: the HTTPS SOAP request, certificates, the CA path and the
  request text. Each source's outcome comes in as a `Pap.Reply`: a transport
  failure with its message, or an HTTP code with a parsed body.
- XML parsing: a policy arrives already parsed as rules and subject matches.
  A document that does not parse, or that lacks a designator or value
  element, is a body error carrying its message.
- The state file: the pickle load at startup and the pickle dump at the end.
  The previous state is a parameter and the state to save is returned. A
  state file that cannot be read or written is not modelled.
- The random `time.sleep` delay, `MAX_DELAY`, and `sys.exit(0)`.
- Printed output: audit lines and fetch errors become `FetchBan.Report`
  values. `AUDIT_CHANGES` is treated as true, its shipped value.
- The order in which Python iterates a set or a dict. This affects the
  audit output and the lines of the ban file.
- The plugin registry in `FetchBanLib/__init__.py`: it only maps names to
  classes.
- Partial writes and errors raised after a file has been opened. Opening
  for writing is the only write failure, and a file's content is replaced
  in one step.
- A static file that exists but cannot be read: the model treats existing
  and readable as the same thing.
- Unicode: strings are byte strings, with ASCII whitespace and case.
- FetchBan.Run: states the ban file's content as some order of the
  distinct output lines, not the order Python's `set` gives.
- FetchBan.Gather: states the set of gathered lines, not their order or how
  often each occurs.
- FetchBan.ReconciledAt: requires distinct source keys (the shipped list has
  one source). With a repeated key, the entry comes from the last source with
  that key that was fetched or fell back on a previous list. A later failure
  with no previous list leaves the earlier entry in place.
- Gacl.RebuildSane: requires banned DNs to hold neither `<deny>` nor
  `<allow>`; such a DN would add markers of its own.
- Gacl.Reprocess: requires banned DNs to hold neither `<deny>` nor `<allow>`.
- Gacl.ProcessTwice: requires banned DNs without markers or line breaks.
- Gacl.GaclOutput.Process: the `IndexError` on an empty file is an
  `Outcome` value, not a Python exception.
- Vorm.Rerun: requires banned DNs without a newline; a newline in a DN would
  split its ban line in two when the file is read back.
- Dban.DbanReadBack: states the header through the lines `readlines` finds in
  it, not as literal lines.

## Findings

| source | as written | input that shows it | evidently intended | confidence | as-written member | corrected member |
|---|---|---|---|---|---|---|
| FetchBanLib/FetchBanInputStatic.py:34 | `process` calls `file_fd.read_lines()`, a method Python file objects do not have, so every existing file fails with an `AttributeError` | any readable static file, e.g. one holding the line `"/C=UK/CN=a"` | `readlines()`, returning the file's DNs (`["/C=UK/CN=a"]` there) | high; not executed | StaticInput.StaticInput.Process | StaticInput.StaticInput.ProcessReadlines |

