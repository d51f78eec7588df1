/** The parts of `doteq/cli.py` that are more than option parsing and
    output plumbing: where the template is looked for, the template
    `--create-example` writes, the `--dry-run` preview, and how the outcome
    of a sync becomes an exit status and a message. */
module Cli {
  import opened Wrappers
  import opened Strings
  import opened Order
  import opened Utils
  import opened Parser
  import opened Sync
  import opened Idempotence
  import Paths

  // ---------------------------------------------------------------------
  // Where the template is

  /** `os.path.dirname(env_file) or "."`. */
  function EnvDir(envFile: string): (r: string)
    ensures r != []
  {
    var d := Paths.Dirname(envFile);
    if d == [] then "." else d
  }

  const DefaultExampleName: string := ".env.example"
  const AlternateExampleName: string := "example.env"

  /** The two names looked for next to the working file, in order. */
  function Candidates(envFile: string): seq<string> {
    [Paths.JoinPath(EnvDir(envFile), DefaultExampleName), Paths.JoinPath(EnvDir(envFile), AlternateExampleName)]
  }

  /** The template path `main` settles on: an explicit `--example-file` as
      given; otherwise the first candidate that exists, or the one named by
      `--example-name` next to the working file. */
  function ExamplePath(fs: FileSystem, envFile: string, exampleFile: Option<string>, exampleName: string): string {
    match exampleFile
    case Some(f) => f
    case None =>
      var c := Candidates(envFile);
      if c[0] in fs then c[0] else if c[1] in fs then c[1] else Paths.JoinPath(EnvDir(envFile), exampleName)
  }

  /** The search loop of `main`: try each candidate, stop at the first
      that exists. */
  method ResolveExamplePath(fs: FileSystem, envFile: string, exampleFile: Option<string>, exampleName: string)
    returns (path: string)
    ensures path == ExamplePath(fs, envFile, exampleFile, exampleName)
  {
    if exampleFile.Some? {
      return exampleFile.value;
    }
    var envDir := EnvDir(envFile);
    var candidates := [Paths.JoinPath(envDir, DefaultExampleName), Paths.JoinPath(envDir, AlternateExampleName)];
    var resolved: Option<string> := None;
    var i := 0;
    while i < |candidates|
      invariant 0 <= i <= |candidates|
      invariant resolved.None?
      invariant forall j :: 0 <= j < i ==> candidates[j] !in fs
    {
      if candidates[i] in fs {
        resolved := Some(candidates[i]);
        break;
      }
      i := i + 1;
    }
    path := if resolved.Some? then resolved.value else Paths.JoinPath(envDir, exampleName);
  }

  /** An explicit template path is used as given, existing or not. Without
      one, the template sits next to the working file: `.env.example` when
      it exists, else `example.env` when that exists, else the
      `--example-name` choice, which is then a file that does not exist. */
  lemma ExamplePathChoice(fs: FileSystem, envFile: string, exampleFile: Option<string>, exampleName: string)
    requires exampleName == DefaultExampleName || exampleName == AlternateExampleName
    ensures var r := ExamplePath(fs, envFile, exampleFile, exampleName);
      && (exampleFile.Some? ==> r == exampleFile.value)
      && (exampleFile.None? ==>
            && (Paths.Basename(r) == DefaultExampleName || Paths.Basename(r) == AlternateExampleName)
            && (Candidates(envFile)[0] in fs ==> r == Candidates(envFile)[0])
            && (Candidates(envFile)[0] !in fs && Candidates(envFile)[1] in fs ==> r == Candidates(envFile)[1])
            && (r in fs <==> Candidates(envFile)[0] in fs || Candidates(envFile)[1] in fs)
            && (r !in fs ==> r == Paths.JoinPath(EnvDir(envFile), exampleName)))
  {
    assert '/' !in DefaultExampleName && '/' !in AlternateExampleName;
  }

  // ---------------------------------------------------------------------
  // `--create-example`

  /** `[line.key for line in env_lines if line.key]`: file order,
      duplicates kept. */
  function BootstrapKeys(lines: seq<EnvLine>): (r: seq<string>)
    ensures |r| <= |lines|
  {
    if lines == [] then []
    else
      var last := lines[|lines| - 1];
      BootstrapKeys(lines[..|lines| - 1]) + (if last.key.Some? && last.key.value != [] then [last.key.value] else [])
  }

  /** The lines `--create-example` writes: `KEY=` for every key. */
  function BootstrapLines(keys: seq<string>): (r: seq<string>)
    ensures |r| == |keys|
  {
    seq(|keys|, i requires 0 <= i < |keys| => keys[i] + "=\n")
  }

  /** `Failed to create example file at <path>: <reason>`. */
  function BootstrapFailure(examplePath: string, reason: string): string {
    "Failed to create example file at " + examplePath + ": " + reason
  }

  /** What `--create-example` does to a missing template: an empty file
      when the working file does not exist, otherwise one `KEY=` line per
      key of the working file; a working file that fails to parse stops
      the run with a message naming the template. */
  function BootstrapOutcome(fs: FileSystem, envFile: string, examplePath: string): Result<FileSystem, string> {
    if envFile !in fs then Success(fs[examplePath := []])
    else
      match ParseFile(fs, envFile)
      case Failure(e) => Failure(BootstrapFailure(examplePath, Message(e)))
      case Success(lines) => Success(fs[examplePath := Concat(BootstrapLines(BootstrapKeys(lines)))])
  }

  /** The bootstrap block of `main`: collect the keys, then write them. */
  method Bootstrap(fs: FileSystem, envFile: string, examplePath: string) returns (r: Result<FileSystem, string>)
    ensures r == BootstrapOutcome(fs, envFile, examplePath)
  {
    var keys: seq<string> := [];
    if envFile in fs {
      var parsed := ParseEnvFile(fs, envFile);
      if parsed.Failure? {
        return Failure(BootstrapFailure(examplePath, Message(parsed.error)));
      }
      keys := CollectBootstrapKeys(parsed.value);
    }
    var text := BootstrapText(keys);
    r := Success(fs[examplePath := text]);
  }

  /** The key loop of the bootstrap block. */
  method CollectBootstrapKeys(lines: seq<EnvLine>) returns (keys: seq<string>)
    ensures keys == BootstrapKeys(lines)
  {
    keys := [];
    var i := 0;
    while i < |lines|
      invariant 0 <= i <= |lines|
      invariant keys == BootstrapKeys(lines[..i])
    {
      assert lines[..i + 1][..i] == lines[..i];
      if lines[i].key.Some? && lines[i].key.value != [] {
        keys := keys + [lines[i].key.value];
      }
      i := i + 1;
    }
    assert lines[..i] == lines;
  }

  /** The write loop of the bootstrap block. */
  method BootstrapText(keys: seq<string>) returns (text: string)
    ensures text == Concat(BootstrapLines(keys))
  {
    text := [];
    var j := 0;
    while j < |keys|
      invariant 0 <= j <= |keys|
      invariant text == Concat(BootstrapLines(keys[..j]))
    {
      assert BootstrapLines(keys[..j + 1]) == BootstrapLines(keys[..j]) + [keys[j] + "=\n"];
      ConcatAppend(BootstrapLines(keys[..j]), [keys[j] + "=\n"]);
      text := text + (keys[j] + "=\n");
      j := j + 1;
    }
    assert keys[..j] == keys;
  }

  /** Lines on which only key/value and export lines carry a key. */
  predicate KeysOnAssignments(lines: seq<EnvLine>) {
    forall i :: 0 <= i < |lines| && lines[i].key.Some? ==> lines[i].kind == KeyValue || lines[i].kind == Export
  }

  /** On such lines (parsed ones are), the bootstrap keys are exactly the
      keys a sync collects, duplicates included. */
  lemma {:induction false} BootstrapKeysAreKeys(lines: seq<EnvLine>)
    requires KeysOnAssignments(lines)
    ensures BootstrapKeys(lines) == Keys(lines)
    decreases |lines|
  {
    if lines != [] {
      var init := lines[..|lines| - 1];
      var last := lines[|lines| - 1];
      assert KeysOnAssignments(init) by {
        assert forall i :: 0 <= i < |init| ==> init[i] == lines[i];
      }
      BootstrapKeysAreKeys(init);
      assert lines == init + [last];
      KeysAppend(init, [last]);
      assert Keys([last]) == (if Collected(last) then [last.key.value] else []) + Keys([]);
    }
  }

  /** Parsed lines carry keys only on key/value and export lines. */
  lemma ParsedKeysOnAssignments(lines: seq<EnvLine>)
    requires FromText(lines)
    ensures KeysOnAssignments(lines)
  {
    FromTextLines(lines);
    forall i | 0 <= i < |lines|
      ensures lines[i].key.Some? ==> lines[i].kind == KeyValue || lines[i].kind == Export
    {
      ParsedFieldsClean(lines[i].raw, i + 1);
    }
  }

  /** Each line of the bootstrap template is one terminated physical line
      that the pre-validator accepts. */
  lemma BootstrapLinesValid(keys: seq<string>)
    requires forall i :: 0 <= i < |keys| ==> CleanKey(keys[i])
    ensures var ls := BootstrapLines(keys);
      forall i :: 0 <= i < |ls| ==> IsLine(ls[i]) && EndsWithNewline(ls[i]) && !IsBadLine(Chomp(ls[i]))
  {
    var ls := BootstrapLines(keys);
    forall i | 0 <= i < |ls|
      ensures IsLine(ls[i]) && EndsWithNewline(ls[i]) && !IsBadLine(Chomp(ls[i]))
    {
      assert ls[i] == RenderLine(keys[i], "") == (keys[i] + "=") + "\n";
      NewlineEndsLine(keys[i] + "=");
      RenderedLineValid(keys[i], "");
    }
  }

  /** Each line of the bootstrap template is a well-formed, valid
      key/value line that reads back with its key, as long as that key
      does not start with `export `. */
  lemma BootstrapLinesShape(keys: seq<string>)
    requires forall i :: 0 <= i < |keys| ==> CleanKey(keys[i]) && !(ExportPrefix <= keys[i])
    ensures var ls := BootstrapLines(keys);
      forall i :: 0 <= i < |ls| ==> IsLine(ls[i]) && EndsWithNewline(ls[i]) && !IsBadLine(Chomp(ls[i]))
    ensures var ls := BootstrapLines(keys);
      forall i, n: nat :: 0 <= i < |ls| ==>
        ParseLine(ls[i], n).kind == KeyValue && ParseLine(ls[i], n).key == Some(keys[i])
  {
    var ls := BootstrapLines(keys);
    BootstrapLinesValid(keys);
    forall i, n: nat | 0 <= i < |ls|
      ensures ParseLine(ls[i], n).kind == KeyValue && ParseLine(ls[i], n).key == Some(keys[i])
    {
      assert ls[i] == keys[i] + "=" + "" + "\n";
      RenderedLineParses(keys[i], "", n);
    }
  }

  /** The template `--create-example` writes from clean keys passes the
      pre-validator and holds no '\r' when the keys hold none, so a
      text-mode read gives it back unchanged. */
  lemma BootstrapTemplateValid(keys: seq<string>)
    requires forall i :: 0 <= i < |keys| ==> CleanKey(keys[i])
    ensures ValidateEnvSyntax(Concat(BootstrapLines(keys))).Pass?
    ensures (forall i :: 0 <= i < |keys| ==> '\r' !in keys[i]) ==>
      ReadText(Concat(BootstrapLines(keys))) == Concat(BootstrapLines(keys))
  {
    var ls := BootstrapLines(keys);
    BootstrapLinesValid(keys);
    SplitLinesOfLines(ls);
    if forall i :: 0 <= i < |keys| ==> '\r' !in keys[i] {
      ConcatChars(ls, '\r');
      assert forall i :: 0 <= i < |ls| ==> ls[i] == keys[i] + "=\n";
      ReadTextKeeps(Concat(ls));
    }
  }

  /** The template `--create-example` writes reads back with exactly the
      keys it was written from, in order, as long as none of them starts
      with `export `. */
  lemma BootstrapTemplateKeys(keys: seq<string>)
    requires forall i :: 0 <= i < |keys| ==> CleanKey(keys[i]) && !(ExportPrefix <= keys[i])
    ensures ValidateEnvSyntax(Concat(BootstrapLines(keys))).Pass?
    ensures Keys(ParseContent(Concat(BootstrapLines(keys)))) == keys
  {
    var ls := BootstrapLines(keys);
    var text := Concat(ls);
    BootstrapTemplateValid(keys);
    BootstrapLinesShape(keys);
    SplitLinesOfLines(ls);
    assert SplitLines(text) == ls;
    var parsed := ParseContent(text);
    assert SameKeyFields(parsed, KeyLines(keys)) by {
      ParseContentLines(text);
      forall i | 0 <= i < |keys|
        ensures parsed[i].kind == KeyLines(keys)[i].kind && parsed[i].key == KeyLines(keys)[i].key
      {
        assert parsed[i] == ParseLine(ls[i], i + 1);
      }
    }
    KeysOfSameKeyFields(parsed, KeyLines(keys));
    KeysOfKeyLines(keys);
  }

  /** The keys of the template the bootstrap writes: none without a
      working file, otherwise those of the working file, each clean and
      free of '\r'. */
  lemma BootstrapWritesKeys(fs: FileSystem, envFile: string, examplePath: string)
    returns (keys: seq<string>)
    requires BootstrapOutcome(fs, envFile, examplePath).Success?
    ensures BootstrapOutcome(fs, envFile, examplePath).value
      == fs[examplePath := Concat(BootstrapLines(keys))]
    ensures envFile !in fs ==> keys == []
    ensures ParseFile(fs, envFile).Success? ==> keys == Keys(ParseFile(fs, envFile).value)
    ensures forall i :: 0 <= i < |keys| ==> CleanKey(keys[i]) && '\r' !in keys[i]
  {
    keys := [];
    if envFile in fs {
      var lines := ParseFile(fs, envFile).value;
      ParseFileFromText(fs, envFile);
      ParsedKeysOnAssignments(lines);
      BootstrapKeysAreKeys(lines);
      keys := Keys(lines);
      forall i | 0 <= i < |keys|
        ensures CleanKey(keys[i]) && '\r' !in keys[i]
      {
        assert keys[i] in Keys(lines);
        TemplateKeyClean(lines, keys[i]);
        TemplateFieldsFromText(lines, keys[i]);
      }
    } else {
      assert Concat(BootstrapLines(keys)) == [];
    }
  }

  /** A sync right after `--create-example` reads the template it wrote
      and finds nothing missing. With a separate template it succeeds
      exactly when the working file parses, unless a key of the working
      file starts with `export `; when the template is the working file
      itself, both sides read the rewritten file and the sync succeeds. */
  lemma BootstrapThenSyncAddsNothing(fs: FileSystem, envFile: string, examplePath: string,
                                     checkOrphans: bool, dryRun: bool, timestamp: string)
    requires BootstrapOutcome(fs, envFile, examplePath).Success?
    requires ParseFile(fs, envFile).Success? ==>
      forall k :: k in Keys(ParseFile(fs, envFile).value) ==> !(ExportPrefix <= k)
    ensures var fs1 := BootstrapOutcome(fs, envFile, examplePath).value;
      var r := SyncOutcome(fs1, envFile, examplePath, checkOrphans, dryRun, timestamp);
      && (envFile != examplePath ==> (r.Success? <==> ParseFile(fs, envFile).Success?))
      && (envFile == examplePath ==> r.Success?)
      && (r.Success? ==> r.value.missing == [])
  {
    var fs1 := BootstrapOutcome(fs, envFile, examplePath).value;
    var keys := BootstrapWritesKeys(fs, envFile, examplePath);
    if envFile == examplePath {
      SameFileSyncAddsNothing(fs, envFile, keys, checkOrphans, dryRun, timestamp);
    } else {
      SeparateTemplateSyncAddsNothing(fs, envFile, examplePath, keys, checkOrphans, dryRun, timestamp);
    }
  }

  /** The template is the working file: the sync parses the same text on
      both sides. */
  lemma SameFileSyncAddsNothing(fs: FileSystem, envFile: string, keys: seq<string>,
                                checkOrphans: bool, dryRun: bool, timestamp: string)
    requires forall i :: 0 <= i < |keys| ==> CleanKey(keys[i]) && '\r' !in keys[i]
    ensures var fs1 := fs[envFile := Concat(BootstrapLines(keys))];
      var r := SyncOutcome(fs1, envFile, envFile, checkOrphans, dryRun, timestamp);
      r.Success? && r.value.missing == []
  {
    var text := Concat(BootstrapLines(keys));
    var fs1 := fs[envFile := text];
    BootstrapTemplateValid(keys);
    assert ParseFile(fs1, envFile) == Success(ParseContent(text));
    var x := ParseContent(text);
    var missing := MissingKeys(x, x);
    AscendingUnique(missing, []);
  }

  /** The template is a separate file: the working file is untouched and
      the template holds exactly its keys. */
  lemma SeparateTemplateSyncAddsNothing(fs: FileSystem, envFile: string, examplePath: string, keys: seq<string>,
                                        checkOrphans: bool, dryRun: bool, timestamp: string)
    requires envFile != examplePath
    requires ParseFile(fs, envFile).Failure? ==> keys == []
    requires ParseFile(fs, envFile).Success? ==> keys == Keys(ParseFile(fs, envFile).value)
    requires forall i :: 0 <= i < |keys| ==> CleanKey(keys[i]) && '\r' !in keys[i]
    requires ParseFile(fs, envFile).Success? ==>
      forall k :: k in Keys(ParseFile(fs, envFile).value) ==> !(ExportPrefix <= k)
    ensures var fs1 := fs[examplePath := Concat(BootstrapLines(keys))];
      var r := SyncOutcome(fs1, envFile, examplePath, checkOrphans, dryRun, timestamp);
      && (r.Success? <==> ParseFile(fs, envFile).Success?)
      && (r.Success? ==> r.value.missing == [])
  {
    var fs1 := fs[examplePath := Concat(BootstrapLines(keys))];
    assert ParseFile(fs1, envFile) == ParseFile(fs, envFile);
    assert forall i :: 0 <= i < |keys| ==> !(ExportPrefix <= keys[i]) by {
      if ParseFile(fs, envFile).Success? {
        forall i | 0 <= i < |keys|
          ensures !(ExportPrefix <= keys[i])
        {
          assert keys[i] in Keys(ParseFile(fs, envFile).value);
        }
      }
    }
    BootstrapTemplateValid(keys);
    BootstrapTemplateKeys(keys);
    assert ParseFile(fs1, examplePath) == Success(ParseContent(Concat(BootstrapLines(keys))));
    if ParseFile(fs, envFile).Success? {
      var env := ParseFile(fs, envFile).value;
      var missing := MissingKeys(ParseContent(Concat(BootstrapLines(keys))), env);
      AscendingUnique(missing, []);
    }
  }

  // ---------------------------------------------------------------------
  // `--dry-run`

  const PreviewTitle: string := "Doteq Preview (--dry-run):"
  const PreviewClosing: string := "No changes made. Run without --dry-run to apply changes."

  /** `Would add N keys to <env_file>:`. */
  function PreviewCount(envFile: string, count: nat): string {
    "Would add " + NatToString(count) + " keys to " + envFile + ":"
  }

  /** `  + KEY=`. */
  function PreviewKey(key: string): string {
    "  + " + key + "="
  }

  function PreviewKeyLines(missing: seq<string>): (r: seq<string>)
    ensures |r| == |missing|
  {
    seq(|missing|, i requires 0 <= i < |missing| => PreviewKey(missing[i]))
  }

  /** The preview lines, before they are joined with '\n'. */
  function PreviewLines(envFile: string, missing: seq<string>): seq<string> {
    [PreviewTitle, PreviewCount(envFile, |missing|)] + PreviewKeyLines(missing) + ["", PreviewClosing]
  }

  function PreviewText(envFile: string, missing: seq<string>): string {
    Join(PreviewLines(envFile, missing), "\n")
  }

  /** The preview block of `main`. */
  method DryRunPreview(envFile: string, missing: seq<string>) returns (text: string)
    ensures text == PreviewText(envFile, missing)
  {
    var lines := [PreviewTitle, PreviewCount(envFile, |missing|)];
    ghost var head := lines;
    var i := 0;
    while i < |missing|
      invariant 0 <= i <= |missing|
      invariant lines == head + PreviewKeyLines(missing[..i])
    {
      lines := lines + [PreviewKey(missing[i])];
      i := i + 1;
      assert PreviewKeyLines(missing[..i]) == PreviewKeyLines(missing[..i - 1]) + [PreviewKey(missing[i - 1])];
    }
    assert missing[..i] == missing;
    lines := lines + [""];
    lines := lines + [PreviewClosing];
    assert lines == PreviewLines(envFile, missing);
    text := Join(lines, "\n");
  }

  /** The preview has the title, the count and the working file's path
      as given, one `  + KEY=` line per missing key in order, a blank
      line and the closing sentence: four lines more than keys. */
  lemma PreviewStructure(envFile: string, missing: seq<string>)
    ensures var p := PreviewLines(envFile, missing);
      && |p| == |missing| + 4
      && p[0] == PreviewTitle
      && p[1] == "Would add " + NatToString(|missing|) + " keys to " + envFile + ":"
      && (forall i :: 0 <= i < |missing| ==> p[i + 2] == "  + " + missing[i] + "=")
      && p[|missing| + 2] == ""
      && p[|missing| + 3] == PreviewClosing
  {
    var p := PreviewLines(envFile, missing);
    var head := [PreviewTitle, PreviewCount(envFile, |missing|)];
    var keys := PreviewKeyLines(missing);
    var tail := ["", PreviewClosing];
    assert p == head + keys + tail;
    forall i | 0 <= i < |missing|
      ensures p[i + 2] == "  + " + missing[i] + "="
    {
      assert p[i + 2] == keys[i];
    }
    assert p[|missing| + 2] == tail[0] && p[|missing| + 3] == tail[1];
  }

  // ---------------------------------------------------------------------
  // The run

  /** The options `main` acts on (`--verbose` changes nothing here). */
  datatype Options = Options(
    envFile: string,
    exampleFile: Option<string>,
    createExample: bool,
    exampleName: string,
    checkOrphans: bool,
    dryRun: bool,
    quiet: bool)

  /** What the user gets to see: nothing, a text on standard output or
      standard error, or one of the two JSON payloads of CI mode (their
      fields; the JSON encoding is not modelled). */
  datatype Shown =
    | Silent
    | Stdout(text: string)
    | Stderr(text: string)
    | CiError(message: string)
    | CiDryRun(addedKeys: seq<string>)
    | CiReport(addedKeys: seq<string>, existingKeys: nat, orphanedKeys: seq<string>, changesCount: nat)

  datatype Exit = Exit(status: nat, shown: Shown, fs: FileSystem)

  /** The file system after the bootstrap step (unchanged when it does not
      apply). */
  function Prepared(fs: FileSystem, o: Options): Result<FileSystem, string> {
    var examplePath := ExamplePath(fs, o.envFile, o.exampleFile, o.exampleName);
    if o.createExample && examplePath !in fs then BootstrapOutcome(fs, o.envFile, examplePath) else Success(fs)
  }

  /** `main` from the resolved options to the exit: bootstrap, sync, then
      the report, the preview or the error. `ci` is whether
      `is_ci_environment()` holds. */
  function Run(fs: FileSystem, o: Options, ci: bool, timestamp: string): Exit {
    var examplePath := ExamplePath(fs, o.envFile, o.exampleFile, o.exampleName);
    match Prepared(fs, o)
    case Failure(message) =>
      Exit(1, if ci then CiError(message) else Stderr("Error: " + message), fs)
    case Success(fs1) =>
      match SyncOutcome(fs1, o.envFile, examplePath, o.checkOrphans, o.dryRun, timestamp)
      case Failure(e) =>
        Exit(1, if ci then CiError(SanitizeForCi(Message(e))) else Stderr("Error: " + Message(e)), fs1)
      case Success(s) =>
        var report := ReportText(Paths.Basename(o.envFile), s.missing, |Keys(s.envLines)|, s.orphans);
        var shown :=
          if ci then
            (if o.dryRun then CiDryRun(s.missing)
             else CiReport(s.missing, |Keys(s.envLines)|, s.orphans, |s.missing|))
          else if o.quiet then Silent
          else if o.dryRun then Stdout(PreviewText(o.envFile, s.missing))
          else Stdout(report);
        Exit(0, shown, s.fs)
  }

  /** The exit status is 0 after a successful sync and 1 after any
      failure, bootstrap or sync; a failure is always reported, on
      standard error or, in CI, as an error payload. */
  lemma ExitStatus(fs: FileSystem, o: Options, ci: bool, timestamp: string)
    ensures var e := Run(fs, o, ci, timestamp);
      var examplePath := ExamplePath(fs, o.envFile, o.exampleFile, o.exampleName);
      && (e.status == 0 || e.status == 1)
      && (e.status == 0 <==>
            Prepared(fs, o).Success?
            && SyncOutcome(Prepared(fs, o).value, o.envFile, examplePath, o.checkOrphans, o.dryRun, timestamp).Success?)
      && (e.status == 1 <==> (if ci then e.shown.CiError? else e.shown.Stderr?))
  {
  }

  /** In CI a sync failure's message is sanitised: one line, the same
      length, every other character kept. (A bootstrap failure's message
      is passed on as it is.) */
  lemma CiErrorIsOneLine(fs: FileSystem, o: Options, timestamp: string)
    requires Prepared(fs, o).Success?
    requires SyncOutcome(Prepared(fs, o).value, o.envFile, ExamplePath(fs, o.envFile, o.exampleFile, o.exampleName),
                         o.checkOrphans, o.dryRun, timestamp).Failure?
    ensures var e := SyncOutcome(Prepared(fs, o).value, o.envFile, ExamplePath(fs, o.envFile, o.exampleFile, o.exampleName),
                                 o.checkOrphans, o.dryRun, timestamp).error;
      var m := Run(fs, o, true, timestamp).shown;
      && m.CiError?
      && '\n' !in m.message && '\r' !in m.message
      && |m.message| == |Message(e)|
      && forall i :: 0 <= i < |Message(e)| && Message(e)[i] != '\n' && Message(e)[i] != '\r' ==> m.message[i] == Message(e)[i]
  {
  }

  /** A dry run writes nothing beyond a bootstrapped template: the files
      are those before the sync, and outside CI and quiet mode it shows
      the preview of exactly the keys a real run would append. */
  lemma DryRunShowsPreview(fs: FileSystem, o: Options, timestamp: string)
    requires o.dryRun && Prepared(fs, o).Success?
    ensures var e := Run(fs, o, false, timestamp);
      var wet := SyncOutcome(Prepared(fs, o).value, o.envFile, ExamplePath(fs, o.envFile, o.exampleFile, o.exampleName),
                              o.checkOrphans, false, timestamp);
      && (e.status == 0 ==> e.fs == Prepared(fs, o).value)
      && (e.status == 0 <==> wet.Success?)
      && (e.status == 0 && !o.quiet ==> e.shown == Stdout(PreviewText(o.envFile, wet.value.missing)))
  {
    DryRunWritesNothing(Prepared(fs, o).value, o.envFile, ExamplePath(fs, o.envFile, o.exampleFile, o.exampleName),
                        o.checkOrphans, timestamp);
  }

  /** In CI a successful run prints a payload instead of the report: the
      dry-run preview or the success summary, both listing exactly the
      template keys the working file lacks, ascending; the summary also
      counts them, counts the working file's keys, and lists the orphans. */
  lemma CiPayload(fs: FileSystem, o: Options, timestamp: string)
    requires Run(fs, o, true, timestamp).status == 0
    ensures var m := Run(fs, o, true, timestamp).shown;
      var s := SyncOutcome(Prepared(fs, o).value, o.envFile, ExamplePath(fs, o.envFile, o.exampleFile, o.exampleName),
                           o.checkOrphans, o.dryRun, timestamp).value;
      && (m.CiDryRun? || m.CiReport?)
      && (m.CiDryRun? <==> o.dryRun)
      && Ascending(m.addedKeys)
      && (forall k :: k in m.addedKeys <==> k in Keys(s.exampleLines) && k !in Keys(s.envLines))
      && (m.CiReport? ==>
            && m.changesCount == |m.addedKeys|
            && m.existingKeys == |Keys(s.envLines)|
            && (forall k :: k in m.orphanedKeys <==> o.checkOrphans && k in Keys(s.envLines) && k !in Keys(s.exampleLines)))
  {
  }
}
