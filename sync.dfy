/** `doteq/sync.py` beyond the parser: key collection, the two sorted
    differences, the lines appended for missing keys, the new content of
    the working file, the effect of `sync_files` on the file system and
    the human report. */
module Sync {
  import opened Wrappers
  import opened Strings
  import opened Order
  import opened Utils
  import opened Parser
  import Paths

  // ---------------------------------------------------------------------
  // Keys

  /** `_collect_keys` keeps the key of a key/value or export line when the
      key is non-empty. */
  predicate Collected(l: EnvLine) {
    (l.kind == KeyValue || l.kind == Export) && l.key.Some? && l.key.value != []
  }

  /** The keys `_collect_keys` returns: in file order, duplicates kept. */
  function Keys(lines: seq<EnvLine>): (r: seq<string>)
    ensures |r| <= |lines|
  {
    if lines == [] then []
    else (if Collected(lines[0]) then [lines[0].key.value] else []) + Keys(lines[1..])
  }

  /** A key is collected exactly when some collected line carries it. */
  lemma {:induction false} KeysMembers(lines: seq<EnvLine>, k: string)
    ensures k in Keys(lines) <==>
      exists i :: 0 <= i < |lines| && Collected(lines[i]) && lines[i].key.value == k
  {
    if lines != [] {
      KeysMembers(lines[1..], k);
      if exists i :: 0 <= i < |lines[1..]| && Collected(lines[1..][i]) && lines[1..][i].key.value == k {
        var i :| 0 <= i < |lines[1..]| && Collected(lines[1..][i]) && lines[1..][i].key.value == k;
        assert lines[i + 1] == lines[1..][i];
      }
      if exists i :: 0 <= i < |lines| && Collected(lines[i]) && lines[i].key.value == k {
        var i :| 0 <= i < |lines| && Collected(lines[i]) && lines[i].key.value == k;
        assert i > 0 ==> lines[1..][i - 1] == lines[i];
      }
    }
  }

  lemma {:induction false} KeysAppend(a: seq<EnvLine>, b: seq<EnvLine>)
    ensures Keys(a + b) == Keys(a) + Keys(b)
  {
    if a == [] {
      assert a + b == b;
    } else {
      var first := if Collected(a[0]) then [a[0].key.value] else [];
      assert (a + b)[0] == a[0];
      assert (a + b)[1..] == a[1..] + b;
      assert Keys(a + b) == first + Keys(a[1..] + b);
      KeysAppend(a[1..], b);
      assert Keys(a) == first + Keys(a[1..]);
    }
  }

  /** Only the kind and the key of each line matter to `Keys`. */
  predicate SameKeyFields(a: seq<EnvLine>, b: seq<EnvLine>) {
    |a| == |b| && forall i :: 0 <= i < |a| ==> a[i].kind == b[i].kind && a[i].key == b[i].key
  }

  lemma {:induction false} KeysOfSameKeyFields(a: seq<EnvLine>, b: seq<EnvLine>)
    requires SameKeyFields(a, b)
    ensures Keys(a) == Keys(b)
  {
    if a != [] {
      assert SameKeyFields(a[1..], b[1..]) by {
        assert forall i :: 0 <= i < |a| - 1 ==> a[1..][i] == a[i + 1] && b[1..][i] == b[i + 1];
      }
      KeysOfSameKeyFields(a[1..], b[1..]);
    }
  }

  /** `_collect_keys`: one pass over the lines, appending each collected key. */
  method CollectKeys(lines: seq<EnvLine>) returns (keys: seq<string>)
    ensures keys == Keys(lines)
  {
    keys := [];
    var i := 0;
    while i < |lines|
      invariant 0 <= i <= |lines|
      invariant keys == Keys(lines[..i])
    {
      var line := lines[i];
      assert lines[..i + 1] == lines[..i] + [line];
      KeysAppend(lines[..i], [line]);
      if (line.kind == KeyValue || line.kind == Export) && line.key.Some? && line.key.value != [] {
        keys := keys + [line.key.value];
      }
      i := i + 1;
    }
    assert lines[..i] == lines;
  }

  // ---------------------------------------------------------------------
  // Differences

  /** `sorted(set(template keys) - set(working keys))`. */
  function MissingKeys(example: seq<EnvLine>, env: seq<EnvLine>): (r: seq<string>)
    ensures Ascending(r)
    ensures forall k :: k in r <==> k in Keys(example) && k !in Keys(env)
  {
    SortedDifference(Keys(example), Keys(env))
  }

  /** `sorted(set(working keys) - set(template keys))` when orphans are
      checked, and nothing otherwise. */
  function OrphanedKeys(example: seq<EnvLine>, env: seq<EnvLine>, checkOrphans: bool): (r: seq<string>)
    ensures Ascending(r)
    ensures forall k :: k in r <==> checkOrphans && k in Keys(env) && k !in Keys(example)
  {
    if checkOrphans then SortedDifference(Keys(env), Keys(example)) else []
  }

  /** Whatever computes it, an ascending list holding exactly the missing
      keys is the missing list: it is the sorted set difference. */
  lemma MissingKeysUnique(example: seq<EnvLine>, env: seq<EnvLine>, xs: seq<string>)
    requires Ascending(xs)
    requires forall k :: k in xs <==> k in Keys(example) && k !in Keys(env)
    ensures xs == MissingKeys(example, env)
  {
    AscendingUnique(xs, MissingKeys(example, env));
  }

  // ---------------------------------------------------------------------
  // Appended lines

  /** `{l.key: l.value for l in example_lines if l.key}`: later lines
      overwrite earlier ones. */
  function TemplateValues(lines: seq<EnvLine>): map<string, Option<string>>
    decreases |lines|
  {
    if lines == [] then map[]
    else
      var m := TemplateValues(lines[..|lines| - 1]);
      var l := lines[|lines| - 1];
      if l.key.Some? && l.key.value != [] then m[l.key.value := l.value] else m
  }

  /** The map holds every non-empty key, bound to the value of the LAST
      line carrying it. */
  lemma {:induction false} TemplateValuesLast(lines: seq<EnvLine>, k: string)
    ensures k in TemplateValues(lines) <==>
      k != [] && exists i :: 0 <= i < |lines| && lines[i].key == Some(k)
    ensures k in TemplateValues(lines) ==>
      exists i :: 0 <= i < |lines| && lines[i].key == Some(k)
        && TemplateValues(lines)[k] == lines[i].value
        && forall j :: i < j < |lines| ==> lines[j].key != Some(k)
    decreases |lines|
  {
    if lines != [] {
      var init := lines[..|lines| - 1];
      var last := |lines| - 1;
      TemplateValuesLast(init, k);
      assert forall i :: 0 <= i < |init| ==> init[i] == lines[i];
      if lines[last].key == Some(k) && k != [] {
        assert TemplateValues(lines)[k] == lines[last].value;
      } else if exists i :: 0 <= i < |lines| && lines[i].key == Some(k) {
        var i :| 0 <= i < |lines| && lines[i].key == Some(k);
        assert i < last || k == [];
      }
    }
  }

  /** `example_key_to_value.get(key, "") or ""`. */
  function DefaultValue(example: seq<EnvLine>, key: string): string {
    var m := TemplateValues(example);
    if key in m && m[key].Some? then m[key].value else ""
  }

  /** The line written for a missing key. */
  function RenderLine(key: string, value: string): string {
    key + "=" + value + "\n"
  }

  /** `_build_appended_lines`: one rendered line per missing key, in the
      order of the missing list. */
  function AppendedLines(missing: seq<string>, example: seq<EnvLine>): (r: seq<string>)
    ensures |r| == |missing|
  {
    seq(|missing|, i requires 0 <= i < |missing| => RenderLine(missing[i], DefaultValue(example, missing[i])))
  }

  /** Every appended line is `KEY=value\n` for the matching missing key,
      with the template's last value for that key (or nothing). */
  lemma AppendedLinesShape(missing: seq<string>, example: seq<EnvLine>, i: nat)
    requires i < |missing|
    ensures AppendedLines(missing, example)[i] == missing[i] + "=" + DefaultValue(example, missing[i]) + "\n"
    ensures DefaultValue(example, missing[i]) != [] ==>
      exists j :: 0 <= j < |example| && example[j].key == Some(missing[i])
        && example[j].value == Some(DefaultValue(example, missing[i]))
        && forall j' :: j < j' < |example| ==> example[j'].key != Some(missing[i])
    ensures forall j ::
      (&& 0 <= j < |example| && missing[i] != [] && example[j].key == Some(missing[i])
       && forall j' :: j < j' < |example| ==> example[j'].key != Some(missing[i]))
      ==> DefaultValue(example, missing[i]) == (if example[j].value.Some? then example[j].value.value else "")
  {
    var k := missing[i];
    TemplateValuesLast(example, k);
    forall j | 0 <= j < |example| && k != [] && example[j].key == Some(k)
        && (forall j' :: j < j' < |example| ==> example[j'].key != Some(k))
      ensures DefaultValue(example, k) == (if example[j].value.Some? then example[j].value.value else "")
    {
      var last :| 0 <= last < |example| && example[last].key == Some(k)
        && TemplateValues(example)[k] == example[last].value
        && forall j' :: last < j' < |example| ==> example[j'].key != Some(k);
      assert last == j;
    }
  }

  // ---------------------------------------------------------------------
  // New content

  /** The '\n' written between the original text and the new lines: one,
      exactly when the file has lines and its last line is unterminated. */
  function Separator(env: seq<EnvLine>): string {
    if env != [] && !EndsWithNewline(env[|env| - 1].raw) then "\n" else ""
  }

  /** The text `sync_files` writes: the original lines as they were, the
      separator, then the appended lines. */
  function NewContent(env: seq<EnvLine>, appended: seq<string>): string {
    RawText(env) + Separator(env) + Concat(appended)
  }

  /** The original text is kept as an exact prefix; one '\n' is inserted
      exactly when that text is non-empty and does not end with '\n', and
      nothing otherwise; the result is empty or ends in '\n' when every
      appended line does. */
  lemma NewContentShape(env: seq<EnvLine>, appended: seq<string>)
    requires forall i :: 0 <= i < |appended| ==> EndsWithNewline(appended[i])
    ensures RawText(env) <= NewContent(env, appended)
    ensures Separator(env) == [] || Separator(env) == "\n"
    ensures (forall i :: 0 <= i < |env| ==> env[i].raw != []) ==>
      (Separator(env) == "\n" <==> RawText(env) != [] && !EndsWithNewline(RawText(env)))
    ensures NewContent(env, appended) == [] || EndsWithNewline(NewContent(env, appended))
  {
    var r, sep, tail := RawText(env), Separator(env), Concat(appended);
    assert NewContent(env, appended) == r + sep + tail;
    assert r <= r + sep + tail by {
      PrefixOfAppend(r, sep + tail);
      ConcatAssoc(r, sep, tail);
    }
    assert tail == [] || EndsWithNewline(tail) by {
      if appended != [] {
        LastEndsWithNewline(appended);
      }
    }
    assert sep == [] ==> r == [] || EndsWithNewline(r) by {
      if env == [] {
        assert r == [];
      } else if sep == [] {
        RawTextEnds(env);
      }
    }
    JoinedEnds(r, sep, tail);
    SeparatorRule(env);
  }

  /** On lines that are not empty, the separator is a '\n' exactly when
      their text is non-empty and unterminated. */
  lemma SeparatorRule(env: seq<EnvLine>)
    ensures (forall i :: 0 <= i < |env| ==> env[i].raw != []) ==>
      (Separator(env) == "\n" <==> RawText(env) != [] && !EndsWithNewline(RawText(env)))
  {
    if env == [] {
      assert RawText(env) == [];
    } else if env[|env| - 1].raw != [] {
      SeparatorOfLast(env);
    }
  }

  /** The separator looks only at the last line, whose last character is
      that of the whole text when the line is non-empty. */
  lemma SeparatorOfLast(env: seq<EnvLine>)
    requires env != [] && env[|env| - 1].raw != []
    ensures Separator(env) == "\n" <==> RawText(env) != [] && !EndsWithNewline(RawText(env))
  {
    RawTextEnds(env);
  }

  /** Text whose last line is non-empty ends in '\n' exactly when that
      line does. */
  lemma RawTextEnds(env: seq<EnvLine>)
    requires env != [] && env[|env| - 1].raw != []
    ensures RawText(env) != [] && (EndsWithNewline(RawText(env)) <==> EndsWithNewline(env[|env| - 1].raw))
  {
    RawTextLast(env);
  }

  lemma PrefixOfAppend(a: string, b: string)
    ensures a <= a + b
  {
    assert (a + b)[..|a|] == a;
  }

  /** Text, separator and tail end in '\n' when the last non-empty part does. */
  lemma JoinedEnds(r: string, sep: string, tail: string)
    requires tail == [] || EndsWithNewline(tail)
    requires tail == [] ==> sep == "\n" || (sep == [] && (r == [] || EndsWithNewline(r)))
    ensures r + sep + tail == [] || EndsWithNewline(r + sep + tail)
  {
    var c := r + sep + tail;
    if tail != [] {
      assert c[|c| - 1] == tail[|tail| - 1];
    } else if sep != [] {
      assert c == r + sep;
      assert c[|c| - 1] == sep[|sep| - 1];
    } else {
      assert c == r;
    }
  }

  /** The concatenation of terminated pieces ends in '\n'. */
  lemma {:induction false} LastEndsWithNewline(parts: seq<string>)
    requires parts != []
    requires forall i :: 0 <= i < |parts| ==> EndsWithNewline(parts[i])
    ensures EndsWithNewline(Concat(parts))
  {
    if |parts| > 1 {
      LastEndsWithNewline(parts[1..]);
    }
  }

  /** The raw text of non-empty lines ends with the raw of the last line. */
  lemma {:induction false} RawTextLast(lines: seq<EnvLine>)
    requires lines != []
    ensures lines[|lines| - 1].raw != [] ==>
      RawText(lines) != [] && RawText(lines)[|RawText(lines)| - 1] == lines[|lines| - 1].raw[|lines[|lines| - 1].raw| - 1]
  {
    if |lines| > 1 {
      RawTextLast(lines[1..]);
    } else {
      assert RawText(lines) == lines[0].raw + RawText([]);
    }
  }

  // ---------------------------------------------------------------------
  // The effect of `sync_files`

  /** What a successful `sync_files` leaves behind. */
  datatype SyncState = SyncState(
    fs: FileSystem,
    exampleLines: seq<EnvLine>,
    envLines: seq<EnvLine>,
    missing: seq<string>,
    orphans: seq<string>)

  /** Back up the working file, then put the new text in its place. */
  function WriteEnv(fs: FileSystem, envPath: string, content: string, timestamp: string): FileSystem {
    BackupFile(fs, envPath, timestamp).fs[envPath := content]
  }

  /** `sync_files(dry_run)`: parse the template, then the working file
      (the first failure is the result), compute the differences, and
      unless it is a dry run write the new text after a backup. */
  function SyncOutcome(fs: FileSystem, envPath: string, examplePath: string, checkOrphans: bool,
                     dryRun: bool, timestamp: string): Result<SyncState, Error>
  {
    match ParseFile(fs, examplePath)
    case Failure(e) => Failure(e)
    case Success(example) =>
      match ParseFile(fs, envPath)
      case Failure(e) => Failure(e)
      case Success(env) =>
        var missing := MissingKeys(example, env);
        var content := NewContent(env, AppendedLines(missing, example));
        var fs' := if dryRun then fs else WriteEnv(fs, envPath, content, timestamp);
        Success(SyncState(fs', example, env, missing, OrphanedKeys(example, env, checkOrphans)))
  }

  /** A dry run changes no file and finds the same missing keys as a real
      run. */
  lemma DryRunWritesNothing(fs: FileSystem, envPath: string, examplePath: string, checkOrphans: bool, timestamp: string)
    ensures SyncOutcome(fs, envPath, examplePath, checkOrphans, true, timestamp).Success? <==>
      SyncOutcome(fs, envPath, examplePath, checkOrphans, false, timestamp).Success?
    ensures SyncOutcome(fs, envPath, examplePath, checkOrphans, true, timestamp).Success? ==>
      && SyncOutcome(fs, envPath, examplePath, checkOrphans, true, timestamp).value.fs == fs
      && SyncOutcome(fs, envPath, examplePath, checkOrphans, true, timestamp).value.missing
         == SyncOutcome(fs, envPath, examplePath, checkOrphans, false, timestamp).value.missing
  {
  }

  /** Writing the working file: the new text at `envPath`, the old text
      (when there was one) at the backup path, every other file as it was. */
  lemma WriteEnvSpec(fs: FileSystem, envPath: string, content: string, timestamp: string)
    ensures var w := WriteEnv(fs, envPath, content, timestamp);
      && envPath in w && w[envPath] == content
      && (envPath in fs ==>
            w.Keys == fs.Keys + {BackupPath(envPath, timestamp)}
            && w[BackupPath(envPath, timestamp)] == fs[envPath])
      && (envPath !in fs ==> w.Keys == fs.Keys + {envPath})
      && forall p :: p in fs && p != envPath && p != BackupPath(envPath, timestamp) ==> w[p] == fs[p]
  {
    BackupPathDiffers(envPath, timestamp);
  }

  /** A real run writes the new text (built on the old text as read) to
      the working file, keeps a byte-for-byte copy of the old file (when
      there was one) at the backup path, and touches no other file. */
  lemma SyncWrites(fs: FileSystem, envPath: string, examplePath: string, checkOrphans: bool, timestamp: string)
    requires SyncOutcome(fs, envPath, examplePath, checkOrphans, false, timestamp).Success?
    ensures var s := SyncOutcome(fs, envPath, examplePath, checkOrphans, false, timestamp).value;
      && envPath in s.fs
      && s.fs[envPath] == NewContent(s.envLines, AppendedLines(s.missing, s.exampleLines))
      && (envPath in fs ==> RawText(s.envLines) == ReadText(fs[envPath]))
      && (envPath !in fs ==> s.envLines == [])
      && (envPath in fs ==>
            s.fs.Keys == fs.Keys + {BackupPath(envPath, timestamp)}
            && s.fs[BackupPath(envPath, timestamp)] == fs[envPath])
      && (envPath !in fs ==> s.fs.Keys == fs.Keys + {envPath})
      && forall p :: p in fs && p != envPath && p != BackupPath(envPath, timestamp) ==> s.fs[p] == fs[p]
  {
    var example := ParseFile(fs, examplePath).value;
    var env := ParseFile(fs, envPath).value;
    var missing := MissingKeys(example, env);
    var content := NewContent(env, AppendedLines(missing, example));
    assert SyncOutcome(fs, envPath, examplePath, checkOrphans, false, timestamp).value
      == SyncState(WriteEnv(fs, envPath, content, timestamp), example, env, missing, OrphanedKeys(example, env, checkOrphans));
    ParseFileContract(fs, envPath);
    WriteEnvSpec(fs, envPath, content, timestamp);
  }

  lemma BackupPathDiffers(path: string, timestamp: string)
    ensures BackupPath(path, timestamp) != path
  {
    assert |BackupPath(path, timestamp)| > |path|;
  }

  // ---------------------------------------------------------------------
  // The human report

  /** The lines of the non-CI report, before they are joined with '\n'. */
  function ReportLines(envName: string, added: seq<string>, existing: nat, orphans: seq<string>): seq<string> {
    ReportHead(envName, |added|, existing) + OrphanSection(orphans) + ChangeSection(added)
  }

  /** The report as one string. */
  function ReportText(envName: string, added: seq<string>, existing: nat, orphans: seq<string>): string {
    Join(ReportLines(envName, added, existing, orphans), "\n")
  }

  /** The title and the two counts. */
  function ReportHead(envName: string, addedCount: nat, existing: nat): seq<string> {
    [ReportTitle, AddedLine(envName, addedCount), PreservedLine(existing)]
  }

  const ReportTitle: string := "Doteq Report:"
  const ChangesHeading: string := "Changes made:"

  function AddedLine(envName: string, addedCount: nat): string {
    "\U{2713} Added " + NatToString(addedCount) + " new keys to " + envName
  }

  function PreservedLine(existing: nat): string {
    "\U{2713} Preserved " + NatToString(existing) + " existing values"
  }

  function OrphanSection(orphans: seq<string>): seq<string> {
    if orphans != [] then [OrphanLine(orphans)] else []
  }

  function OrphanLine(orphans: seq<string>): string {
    "\U{26A0} Found " + NatToString(|orphans|) + " orphaned key(s): " + Join(orphans, ", ")
  }

  function ChangeSection(added: seq<string>): seq<string> {
    if added != [] then ["", ChangesHeading] + ChangeLines(added) else []
  }

  function ChangeLines(added: seq<string>): (r: seq<string>)
    ensures |r| == |added|
  {
    seq(|added|, i requires 0 <= i < |added| => ChangeLine(added[i]))
  }

  function ChangeLine(key: string): string {
    "  + " + key + " (added)"
  }

  /** No line before the change section reads "Changes made:": each of
      them starts with 'D', a check mark or a warning sign. */
  lemma NoChangesHeading(envName: string, addedCount: nat, existing: nat, orphans: seq<string>)
    ensures ChangesHeading !in ReportHead(envName, addedCount, existing) + OrphanSection(orphans)
  {
    var r := ReportHead(envName, addedCount, existing) + OrphanSection(orphans);
    forall i | 0 <= i < |r|
      ensures r[i] != ChangesHeading
    {
      assert r[i][0] != 'C';
    }
  }

  /** The report opens with its title and the two counts; the orphan line
      appears exactly when there are orphans; the change list exactly when
      keys were added, one line per added key in order, at the end. */
  lemma ReportStructure(envName: string, added: seq<string>, existing: nat, orphans: seq<string>)
    ensures var r := ReportLines(envName, added, existing, orphans);
      && |r| == 3 + (if orphans != [] then 1 else 0) + (if added != [] then 2 + |added| else 0)
      && r[0] == ReportTitle
      && r[1] == AddedLine(envName, |added|)
      && r[2] == PreservedLine(existing)
      && (orphans != [] ==> r[3] == OrphanLine(orphans))
      && (added != [] ==> r[|r| - |added| - 1] == ChangesHeading && r[|r| - |added| - 2] == "")
      && (forall i :: 0 <= i < |added| ==> r[|r| - |added| + i] == ChangeLine(added[i]))
      && (added == [] ==> ChangesHeading !in r)
  {
    var front := ReportHead(envName, |added|, existing) + OrphanSection(orphans);
    var r := ReportLines(envName, added, existing, orphans);
    assert r == front + ChangeSection(added);
    ReportOpening(envName, |added|, existing, orphans);
    assert forall i :: 0 <= i < |front| ==> r[i] == front[i];
    if added == [] {
      NoChangesHeading(envName, |added|, existing, orphans);
      assert r == front;
    } else {
      ChangeTail(front, added);
    }
  }

  /** The lines before the change section: the title, the two counts and
      the orphan line when there are orphans. */
  lemma ReportOpening(envName: string, addedCount: nat, existing: nat, orphans: seq<string>)
    ensures var front := ReportHead(envName, addedCount, existing) + OrphanSection(orphans);
      && |front| == 3 + (if orphans != [] then 1 else 0)
      && front[0] == ReportTitle
      && front[1] == AddedLine(envName, addedCount)
      && front[2] == PreservedLine(existing)
      && (orphans != [] ==> front[3] == OrphanLine(orphans))
  {
  }

  /** Whatever precedes it, the change section is a blank line, its
      heading, then one line per added key in order. */
  lemma ChangeTail(front: seq<string>, added: seq<string>)
    requires added != []
    ensures var r := front + ChangeSection(added);
      && |r| == |front| + 2 + |added|
      && r[|front|] == "" && r[|front| + 1] == ChangesHeading
      && forall i :: 0 <= i < |added| ==> r[|front| + 2 + i] == ChangeLine(added[i])
  {
    var lines := ChangeLines(added);
    var tail := ["", ChangesHeading] + lines;
    assert ChangeSection(added) == tail;
    var r := front + tail;
    assert r[|front|] == tail[0] && r[|front| + 1] == tail[1];
    forall i | 0 <= i < |added|
      ensures r[|front| + 2 + i] == ChangeLine(added[i])
    {
      assert r[|front| + 2 + i] == tail[2 + i] == lines[i];
    }
  }

  // ---------------------------------------------------------------------
  // The syncer object

  /** `DoteqSync`: the two paths, the orphan switch, and the state the
      operations leave behind for the report. */
  class DoteqSyncer {
    const envPath: string
    const examplePath: string
    const checkOrphans: bool
    var envLines: seq<EnvLine>
    var exampleLines: seq<EnvLine>
    var missingKeys: seq<string>
    var orphanedKeys: seq<string>
    var addedKeys: seq<string>

    constructor (envPath: string, examplePath: string, checkOrphans: bool)
      ensures this.envPath == envPath && this.examplePath == examplePath && this.checkOrphans == checkOrphans
      ensures envLines == [] && exampleLines == []
      ensures missingKeys == [] && orphanedKeys == [] && addedKeys == []
    {
      this.envPath := envPath;
      this.examplePath := examplePath;
      this.checkOrphans := checkOrphans;
      envLines := [];
      exampleLines := [];
      missingKeys := [];
      orphanedKeys := [];
      addedKeys := [];
    }

    /** `find_missing_keys` on the lines already parsed. */
    method FindMissingKeys() returns (r: seq<string>)
      modifies this
      ensures r == missingKeys == MissingKeys(exampleLines, envLines)
      ensures exampleLines == old(exampleLines) && envLines == old(envLines)
      ensures orphanedKeys == old(orphanedKeys) && addedKeys == old(addedKeys)
    {
      var exampleKeys := CollectKeys(exampleLines);
      var envKeys := CollectKeys(envLines);
      missingKeys := SortedDifference(exampleKeys, envKeys);
      r := missingKeys;
    }

    /** `find_orphaned_keys` on the lines already parsed. */
    method FindOrphanedKeys() returns (r: seq<string>)
      modifies this
      ensures r == orphanedKeys == OrphanedKeys(exampleLines, envLines, checkOrphans)
      ensures exampleLines == old(exampleLines) && envLines == old(envLines)
      ensures missingKeys == old(missingKeys) && addedKeys == old(addedKeys)
    {
      if !checkOrphans {
        orphanedKeys := [];
        return orphanedKeys;
      }
      var exampleKeys := CollectKeys(exampleLines);
      var envKeys := CollectKeys(envLines);
      orphanedKeys := SortedDifference(envKeys, exampleKeys);
      r := orphanedKeys;
    }

    /** `_build_appended_lines`: render each missing key in turn. */
    method BuildAppendedLines() returns (appended: seq<string>)
      ensures appended == AppendedLines(missingKeys, exampleLines)
    {
      var values := TemplateValues(exampleLines);
      appended := [];
      var i := 0;
      while i < |missingKeys|
        invariant 0 <= i <= |missingKeys|
        invariant appended == AppendedLines(missingKeys[..i], exampleLines)
      {
        var key := missingKeys[i];
        var value := if key in values && values[key].Some? then values[key].value else "";
        appended := appended + [RenderLine(key, value)];
        i := i + 1;
      }
      assert missingKeys[..i] == missingKeys;
    }

    /** The body of `sync_files` from "parse both files" to "replace the
      working file": returns the new file system or the first error. */
    method SyncFiles(fs: FileSystem, dryRun: bool, timestamp: string) returns (r: Result<FileSystem, Error>)
      modifies this
      ensures var s := SyncOutcome(fs, envPath, examplePath, checkOrphans, dryRun, timestamp);
        && (s.Success? ==>
              && r == Success(s.value.fs)
              && exampleLines == s.value.exampleLines && envLines == s.value.envLines
              && missingKeys == s.value.missing && orphanedKeys == s.value.orphans
              && addedKeys == s.value.missing)
        && (s.Failure? ==> r == Failure(s.error))
      ensures ParseFile(fs, examplePath).Failure? ==>
        exampleLines == old(exampleLines) && envLines == old(envLines)
        && missingKeys == old(missingKeys) && orphanedKeys == old(orphanedKeys) && addedKeys == old(addedKeys)
      ensures ParseFile(fs, examplePath).Success? && ParseFile(fs, envPath).Failure? ==>
        exampleLines == ParseFile(fs, examplePath).value && envLines == old(envLines)
        && missingKeys == old(missingKeys) && orphanedKeys == old(orphanedKeys) && addedKeys == old(addedKeys)
    {
      var example := ParseEnvFile(fs, examplePath);
      if example.Failure? {
        return Failure(example.error);
      }
      exampleLines := example.value;
      var env := ParseEnvFile(fs, envPath);
      if env.Failure? {
        return Failure(env.error);
      }
      envLines := env.value;
      var missing := FindMissingKeys();
      var orphans := FindOrphanedKeys();
      addedKeys := missing;
      if dryRun {
        return Success(fs);
      }
      var appended := BuildAppendedLines();
      var content := WriteContent(envLines, appended);
      var backup := BackupFile(fs, envPath, timestamp);
      r := Success(backup.fs[envPath := content]);
    }

    /** The non-CI branch of `generate_report`. */
    method GenerateReport() returns (report: string)
      ensures report == ReportText(Paths.Basename(envPath), addedKeys, |Keys(envLines)|, orphanedKeys)
    {
      var addedCount := |addedKeys|;
      var envKeys := CollectKeys(envLines);
      var existingCount := |envKeys|;
      var lines := ReportFront(Paths.Basename(envPath), addedCount, existingCount, orphanedKeys);
      lines := AppendChangeSection(lines, addedKeys);
      report := Join(lines, "\n");
    }
  }

  /** The opening lines of `generate_report`: title, the two counts, and the
      orphan hint when there are orphans. */
  method ReportFront(envName: string, addedCount: nat, existing: nat, orphans: seq<string>)
    returns (lines: seq<string>)
    ensures lines == ReportHead(envName, addedCount, existing) + OrphanSection(orphans)
  {
    var orphanHint := if orphans != [] then OrphanLine(orphans) else "";
    lines := ReportHead(envName, addedCount, existing);
    if orphanHint != "" {
      lines := lines + [orphanHint];
    }
  }

  /** The closing lines of `generate_report`: nothing when no key was added,
      otherwise a blank line, the heading and one line per added key. */
  method AppendChangeSection(lines: seq<string>, added: seq<string>) returns (r: seq<string>)
    ensures r == lines + ChangeSection(added)
  {
    r := lines;
    if added != [] {
      r := r + [""];
      r := r + [ChangesHeading];
      r := AppendChangeLines(r, added);
    }
  }

  /** The loop of `generate_report` that lists each added key. */
  method AppendChangeLines(lines: seq<string>, added: seq<string>) returns (r: seq<string>)
    ensures r == lines + ChangeLines(added)
  {
    r := lines;
    var i := 0;
    while i < |added|
      invariant 0 <= i <= |added|
      invariant r == lines + ChangeLines(added[..i])
    {
      r := r + [ChangeLine(added[i])];
      i := i + 1;
      assert ChangeLines(added[..i]) == ChangeLines(added[..i - 1]) + [ChangeLine(added[i - 1])];
    }
    assert added[..i] == added;
  }

  /** The writing loops of `sync_files`: every raw line, the separator,
      then every appended line. */
  method WriteContent(env: seq<EnvLine>, appended: seq<string>) returns (content: string)
    ensures content == NewContent(env, appended)
  {
    content := [];
    var i := 0;
    while i < |env|
      invariant 0 <= i <= |env|
      invariant content == RawText(env[..i])
    {
      assert env[..i + 1] == env[..i] + [env[i]];
      RawTextAppend(env[..i], [env[i]]);
      content := content + env[i].raw;
      i := i + 1;
    }
    assert env[..i] == env;
    if env != [] && !EndsWithNewline(env[|env| - 1].raw) {
      content := content + "\n";
    }
    var prefix := content;
    var j := 0;
    while j < |appended|
      invariant 0 <= j <= |appended|
      invariant content == prefix + Concat(appended[..j])
    {
      assert appended[..j + 1] == appended[..j] + [appended[j]];
      ConcatAppend(appended[..j], [appended[j]]);
      content := content + appended[j];
      j := j + 1;
    }
    assert appended[..j] == appended;
  }
}
