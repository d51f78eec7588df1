/** Reading back what `sync_files` wrote: every appended `KEY=value` line
    parses as a key/value line for its key, so a second run over the same
    template finds nothing missing and leaves the working file as it is.
    The one exception is a key that itself starts with `export `. */
module Idempotence {
  import opened Wrappers
  import opened Strings
  import opened Utils
  import opened Parser
  import opened Sync
  import opened Order

  // ---------------------------------------------------------------------
  // Lines that came from parsing

  /** Lines exactly as parsing their own text yields them. */
  predicate FromText(lines: seq<EnvLine>) {
    lines == ParseContent(RawText(lines))
  }

  /** What a successful `parse_env_file` returns came from its text, and
      that text passed the pre-validator. */
  lemma ParseFileFromText(fs: FileSystem, path: string)
    requires ParseFile(fs, path).Success?
    ensures FromText(ParseFile(fs, path).value)
    ensures ValidateEnvSyntax(RawText(ParseFile(fs, path).value)).Pass?
    ensures '\r' !in RawText(ParseFile(fs, path).value)
  {
    ParseFileContract(fs, path);
    if path !in fs {
      assert RawText([]) == [] && SplitLines([]) == [];
    }
  }

  /** Each such line is one physical line, parsed at its 1-based position. */
  lemma FromTextLines(lines: seq<EnvLine>)
    requires FromText(lines)
    ensures Raws(lines) == SplitLines(RawText(lines))
    ensures forall i :: 0 <= i < |lines| ==> IsLine(lines[i].raw) && lines[i] == ParseLine(lines[i].raw, i + 1)
  {
    var c := RawText(lines);
    RawsOfParse(c);
    ParseContentRoundTrip(c);
    ParseContentLines(c);
  }

  /** A key collected from such lines is clean, and so is the value the
      template supplies for it. */
  lemma TemplateKeyClean(example: seq<EnvLine>, k: string)
    requires FromText(example) && k in Keys(example)
    ensures CleanKey(k) && CleanValue(DefaultValue(example, k))
  {
    FromTextLines(example);
    KeysMembers(example, k);
    var i :| 0 <= i < |example| && Collected(example[i]) && example[i].key.value == k;
    ParsedFieldsClean(example[i].raw, i + 1);
    TemplateValuesLast(example, k);
    if k in TemplateValues(example) && TemplateValues(example)[k].Some? {
      var j :| 0 <= j < |example| && example[j].key == Some(k) && TemplateValues(example)[k] == example[j].value;
      ParsedFieldsClean(example[j].raw, j + 1);
    }
  }

  // ---------------------------------------------------------------------
  // The kept text

  /** The original text followed by the separator splits back into the
      original lines, the last one with the separator added, and ends at a
      line boundary. */
  lemma KeptLines(env: seq<EnvLine>)
    requires Raws(env) == SplitLines(RawText(env))
    ensures var p := RawText(env) + Separator(env);
      && (p == [] || EndsWithNewline(p))
      && |SplitLines(p)| == |env|
      && forall i :: 0 <= i < |env| ==>
           SplitLines(p)[i] == if i == |env| - 1 then env[i].raw + Separator(env) else env[i].raw
  {
    var c := RawText(env);
    SplitLinesTerminated(c);
    if Separator(env) == "" {
      assert c + Separator(env) == c;
    } else {
      SplitLinesAddNewline(c);
    }
  }

  /** Read back, the kept text gives every original line its kind and key. */
  lemma KeptLinesParse(env: seq<EnvLine>)
    requires FromText(env)
    ensures var p := RawText(env) + Separator(env);
      |SplitLines(p)| == |env| &&
      forall i :: 0 <= i < |env| ==>
        ParseLine(SplitLines(p)[i], i + 1).kind == env[i].kind
        && ParseLine(SplitLines(p)[i], i + 1).key == env[i].key
  {
    var p := RawText(env) + Separator(env);
    FromTextLines(env);
    KeptLines(env);
    forall i | 0 <= i < |env|
      ensures ParseLine(SplitLines(p)[i], i + 1).kind == env[i].kind
      ensures ParseLine(SplitLines(p)[i], i + 1).key == env[i].key
    {
      if i == |env| - 1 && Separator(env) == "\n" {
        ParseLineAddNewline(env[i].raw, i + 1, i + 1);
      } else {
        assert SplitLines(p)[i] == env[i].raw;
      }
    }
  }

  // ---------------------------------------------------------------------
  // The appended lines

  /** An appended line has an '=' before its '\n', so the pre-validator
      accepts it. */
  lemma RenderedLineValid(k: string, v: string)
    ensures !IsBadLine(Chomp(RenderLine(k, v)))
  {
    var t := k + "=" + v;
    assert RenderLine(k, v) == t + "\n";
    assert Chomp(t + "\n") == t;
    assert t[|k|] == '=';
  }

  /** Every line appended for template keys is one terminated physical
      line that the pre-validator accepts. */
  lemma AppendedLinesValid(missing: seq<string>, example: seq<EnvLine>)
    requires FromText(example)
    requires forall k :: k in missing ==> k in Keys(example)
    ensures var a := AppendedLines(missing, example);
      forall j :: 0 <= j < |a| ==> IsLine(a[j]) && EndsWithNewline(a[j]) && !IsBadLine(Chomp(a[j]))
  {
    var a := AppendedLines(missing, example);
    forall j | 0 <= j < |a|
      ensures IsLine(a[j]) && EndsWithNewline(a[j]) && !IsBadLine(Chomp(a[j]))
    {
      var k := missing[j];
      var v := DefaultValue(example, k);
      assert a[j] == RenderLine(k, v) == (k + "=" + v) + "\n";
      TemplateKeyClean(example, k);
      NewlineEndsLine(k + "=" + v);
      RenderedLineValid(k, v);
    }
  }

  /** Every appended line is one terminated physical line that reads back
      as a key/value line with exactly its key and value and no comment,
      as long as its key does not start with `export `. */
  lemma AppendedLinesParse(missing: seq<string>, example: seq<EnvLine>)
    requires FromText(example)
    requires forall k :: k in missing ==> k in Keys(example) && !(ExportPrefix <= k)
    ensures var a := AppendedLines(missing, example);
      forall j :: 0 <= j < |a| ==> IsLine(a[j]) && EndsWithNewline(a[j]) && !IsBadLine(Chomp(a[j]))
    ensures var a := AppendedLines(missing, example);
      forall j, n: nat :: 0 <= j < |a| ==>
        ParseLine(a[j], n) == EnvLine(a[j], n, KeyValue, Some(missing[j]), Some(DefaultValue(example, missing[j])), None)
  {
    var a := AppendedLines(missing, example);
    AppendedLinesValid(missing, example);
    forall j, n: nat | 0 <= j < |a|
      ensures ParseLine(a[j], n) == EnvLine(a[j], n, KeyValue, Some(missing[j]), Some(DefaultValue(example, missing[j])), None)
    {
      var k := missing[j];
      var v := DefaultValue(example, k);
      assert a[j] == RenderLine(k, v) == k + "=" + v + "\n";
      TemplateKeyClean(example, k);
      RenderedLineParses(k, v, n);
    }
  }

  /** Stand-in lines carrying just the given keys. */
  function KeyLines(keys: seq<string>): (r: seq<EnvLine>)
    ensures |r| == |keys|
  {
    seq(|keys|, j requires 0 <= j < |keys| => EnvLine([], 0, KeyValue, Some(keys[j]), None, None))
  }

  lemma {:induction false} KeysOfKeyLines(keys: seq<string>)
    requires forall j :: 0 <= j < |keys| ==> keys[j] != []
    ensures Keys(KeyLines(keys)) == keys
  {
    if keys != [] {
      KeysOfKeyLines(keys[1..]);
      assert KeyLines(keys)[1..] == KeyLines(keys[1..]);
    }
  }

  // ---------------------------------------------------------------------
  // The rewritten file

  /** The text a real run writes splits into the kept lines followed by
      the appended ones. */
  lemma RewrittenLines(env: seq<EnvLine>, example: seq<EnvLine>, missing: seq<string>)
    requires FromText(env) && FromText(example)
    requires forall k :: k in missing ==> k in Keys(example)
    ensures var p := RawText(env) + Separator(env);
      var a := AppendedLines(missing, example);
      SplitLines(NewContent(env, a)) == SplitLines(p) + a
  {
    var p := RawText(env) + Separator(env);
    var a := AppendedLines(missing, example);
    assert NewContent(env, a) == p + Concat(a);
    FromTextLines(env);
    KeptLines(env);
    AppendedLinesValid(missing, example);
    SplitLinesOfLines(a);
    SplitLinesAppend(p, Concat(a));
  }

  /** The kept lines pass the pre-validator when the original text did:
      a '\n' added to the last line changes nothing once it is cut off. */
  lemma KeptLinesValid(env: seq<EnvLine>)
    requires Raws(env) == SplitLines(RawText(env)) && ValidateEnvSyntax(RawText(env)).Pass?
    ensures var p := RawText(env) + Separator(env);
      forall i :: 0 <= i < |SplitLines(p)| ==> !IsBadLine(Chomp(SplitLines(p)[i]))
  {
    var c := RawText(env);
    if Separator(env) == "" {
      assert c + Separator(env) == c;
    } else {
      SplitLinesTerminated(c);
      assert Raws(env)[|env| - 1] == env[|env| - 1].raw;
      AddNewlineValid(c);
    }
  }

  /** Text whose physical lines all pass the pre-validator still does once
      its unterminated last line gets a '\n'. */
  lemma AddNewlineValid(c: string)
    requires c != [] && !EndsWithNewline(c)
    requires forall i :: 0 <= i < |SplitLines(c)| ==> !IsBadLine(Chomp(SplitLines(c)[i]))
    ensures forall i :: 0 <= i < |SplitLines(c + "\n")| ==> !IsBadLine(Chomp(SplitLines(c + "\n")[i]))
  {
    var ls := SplitLines(c);
    SplitLinesAddNewline(c);
    SplitLinesTerminated(c);
    var last := ls[|ls| - 1];
    var ls2 := SplitLines(c + "\n");
    forall i | 0 <= i < |ls2|
      ensures !IsBadLine(Chomp(ls2[i]))
    {
      if i < |ls| - 1 {
        assert ls2[i] == ls[i];
      } else {
        assert ls2[i] == last + "\n";
        assert Chomp(last + "\n") == last == Chomp(last);
      }
    }
  }

  /** The text a real run writes passes the pre-validator. */
  lemma RewrittenValid(env: seq<EnvLine>, example: seq<EnvLine>, missing: seq<string>)
    requires FromText(env) && ValidateEnvSyntax(RawText(env)).Pass?
    requires FromText(example)
    requires forall k :: k in missing ==> k in Keys(example)
    ensures ValidateEnvSyntax(NewContent(env, AppendedLines(missing, example))).Pass?
  {
    var p := RawText(env) + Separator(env);
    var a := AppendedLines(missing, example);
    var ls := SplitLines(NewContent(env, a));
    RewrittenLines(env, example, missing);
    FromTextLines(env);
    KeptLinesValid(env);
    AppendedLinesValid(missing, example);
    assert forall i :: 0 <= i < |ls| ==> !IsBadLine(Chomp(ls[i])) by {
      forall i | 0 <= i < |ls|
        ensures !IsBadLine(Chomp(ls[i]))
      {
        if i < |SplitLines(p)| {
          assert ls[i] == SplitLines(p)[i];
        } else {
          assert ls[i] == a[i - |SplitLines(p)|];
        }
      }
    }
  }

  /** A key collected from parsed lines, and the value the template
      supplies for it, take their characters from the template's text. */
  lemma TemplateFieldsFromText(example: seq<EnvLine>, k: string)
    requires FromText(example) && k in Keys(example)
    ensures forall c :: c in k ==> c in RawText(example)
    ensures forall c :: c in DefaultValue(example, k) ==> c in RawText(example)
  {
    FromTextLines(example);
    KeysMembers(example, k);
    var i :| 0 <= i < |example| && Collected(example[i]) && example[i].key.value == k;
    ParsedFieldsFromRaw(example[i].raw, i + 1);
    LineInRawText(example, i);
    TemplateValuesLast(example, k);
    if k in TemplateValues(example) && TemplateValues(example)[k].Some? {
      var j :| 0 <= j < |example| && example[j].key == Some(k) && TemplateValues(example)[k] == example[j].value;
      ParsedFieldsFromRaw(example[j].raw, j + 1);
      LineInRawText(example, j);
    }
  }

  /** The text a real run writes holds no '\r' when neither file as read
      did, so reading it back in text mode gives it unchanged. */
  lemma RewrittenReadsBack(env: seq<EnvLine>, example: seq<EnvLine>, missing: seq<string>)
    requires '\r' !in RawText(env)
    requires FromText(example) && '\r' !in RawText(example)
    requires forall k :: k in missing ==> k in Keys(example)
    ensures ReadText(NewContent(env, AppendedLines(missing, example))) == NewContent(env, AppendedLines(missing, example))
  {
    var a := AppendedLines(missing, example);
    assert '\r' !in Concat(a) by {
      ConcatChars(a, '\r');
      forall j | 0 <= j < |a|
        ensures '\r' !in a[j]
      {
        TemplateFieldsFromText(example, missing[j]);
        assert a[j] == missing[j] + "=" + DefaultValue(example, missing[j]) + "\n";
      }
    }
    assert '\r' !in Separator(env);
    ReadTextKeeps(NewContent(env, a));
  }

  /** Parsing gives one line per physical line, at its position. */
  lemma ParseContentLines(c: string)
    ensures |ParseContent(c)| == |SplitLines(c)|
    ensures forall i :: 0 <= i < |SplitLines(c)| ==> ParseContent(c)[i] == ParseLine(SplitLines(c)[i], i + 1)
  {
  }

  /** Lines made of a kept part that parses to the kinds and keys of
      `env` and an appended part that parses to key/value lines for
      `keys`, parsed at their positions, have the kinds and keys of `env`
      followed by stand-ins for `keys`. */
  lemma SplicedKeyFields(ls: seq<string>, kept: seq<string>, a: seq<string>, env: seq<EnvLine>, keys: seq<string>)
    requires ls == kept + a && |kept| == |env| && |a| == |keys|
    requires forall i :: 0 <= i < |env| ==>
      ParseLine(kept[i], i + 1).kind == env[i].kind && ParseLine(kept[i], i + 1).key == env[i].key
    requires forall j, n: nat :: 0 <= j < |a| ==>
      ParseLine(a[j], n).kind == KeyValue && ParseLine(a[j], n).key == Some(keys[j])
    ensures var stand := env + KeyLines(keys);
      forall i :: 0 <= i < |ls| ==>
        ParseLine(ls[i], i + 1).kind == stand[i].kind && ParseLine(ls[i], i + 1).key == stand[i].key
  {
    var stand := env + KeyLines(keys);
    forall i | 0 <= i < |ls|
      ensures ParseLine(ls[i], i + 1).kind == stand[i].kind && ParseLine(ls[i], i + 1).key == stand[i].key
    {
      if i < |env| {
        assert ls[i] == kept[i] && stand[i] == env[i];
      } else {
        assert ls[i] == a[i - |env|] && stand[i] == KeyLines(keys)[i - |env|];
      }
    }
  }

  /** Read back, the text a real run writes carries the original keys
      followed by the missing ones. */
  lemma RewrittenKeys(env: seq<EnvLine>, example: seq<EnvLine>, missing: seq<string>)
    requires FromText(env) && FromText(example)
    requires forall k :: k in missing ==> k in Keys(example) && !(ExportPrefix <= k)
    ensures Keys(ParseContent(NewContent(env, AppendedLines(missing, example)))) == Keys(env) + missing
  {
    var p := RawText(env) + Separator(env);
    var a := AppendedLines(missing, example);
    var ls := SplitLines(NewContent(env, a));
    var stand := env + KeyLines(missing);
    assert |ls| == |stand| && forall i :: 0 <= i < |ls| ==>
        ParseLine(ls[i], i + 1).kind == stand[i].kind && ParseLine(ls[i], i + 1).key == stand[i].key by {
      RewrittenLines(env, example, missing);
      KeptLinesParse(env);
      AppendedLinesParse(missing, example);
      SplicedKeyFields(ls, SplitLines(p), a, env, missing);
    }
    var parsed := ParseContent(NewContent(env, a));
    ParseContentLines(NewContent(env, a));
    assert SameKeyFields(parsed, stand);
    KeysOfSameKeyFields(parsed, stand);
    KeysAppend(env, KeyLines(missing));
    assert forall j :: 0 <= j < |missing| ==> missing[j] != [] by {
      forall j | 0 <= j < |missing|
        ensures missing[j] != []
      {
        TemplateKeyClean(example, missing[j]);
      }
    }
    KeysOfKeyLines(missing);
  }

  /** Text that ends at a line boundary is written back unchanged when
      nothing is missing: no separator and no appended line. */
  lemma NothingMissingKeepsText(c: string, example: seq<EnvLine>)
    requires c == [] || EndsWithNewline(c)
    ensures NewContent(ParseContent(c), AppendedLines([], example)) == c
  {
    var env := ParseContent(c);
    ParseContentRoundTrip(c);
    RawsOfParse(c);
    SplitLinesTerminated(c);
    assert Separator(env) == "";
    assert Concat(AppendedLines([], example)) == [];
  }

  // ---------------------------------------------------------------------
  // The second run

  /** Running the sync again with the same template right after a real
      run: the template reads the same, nothing is missing, the working
      file keeps the text the first run wrote, and its keys are the
      original ones followed by those the first run added (so, as a set,
      the original keys together with every template key). Keys starting
      with `export ` are excluded; see `ExportKeyReadsBackShorter`. */
  lemma SecondSyncAddsNothing(fs: FileSystem, envPath: string, examplePath: string, checkOrphans: bool,
                              timestamp: string, timestamp2: string)
    requires envPath != examplePath && examplePath != BackupPath(envPath, timestamp)
    requires SyncOutcome(fs, envPath, examplePath, checkOrphans, false, timestamp).Success?
    requires forall k :: k in SyncOutcome(fs, envPath, examplePath, checkOrphans, false, timestamp).value.missing ==>
      !(ExportPrefix <= k)
    ensures var s1 := SyncOutcome(fs, envPath, examplePath, checkOrphans, false, timestamp).value;
      var r2 := SyncOutcome(s1.fs, envPath, examplePath, checkOrphans, false, timestamp2);
      && r2.Success?
      && r2.value.exampleLines == s1.exampleLines
      && r2.value.missing == []
      && Keys(r2.value.envLines) == Keys(s1.envLines) + s1.missing
      && (forall k :: k in Keys(r2.value.envLines) <==> k in Keys(s1.envLines) || k in Keys(s1.exampleLines))
      && r2.value.fs[envPath] == s1.fs[envPath]
  {
    var s1 := SyncOutcome(fs, envPath, examplePath, checkOrphans, false, timestamp).value;
    var example := s1.exampleLines;
    var env := s1.envLines;
    assert ParseFile(fs, examplePath) == Success(example);
    assert ParseFile(fs, envPath) == Success(env);
    assert s1.missing == MissingKeys(example, env);
    SyncWrites(fs, envPath, examplePath, checkOrphans, timestamp);
    var c := s1.fs[envPath];
    assert c == NewContent(env, AppendedLines(s1.missing, example));

    assert ParseFile(s1.fs, examplePath) == ParseFile(fs, examplePath) by {
      assert examplePath in s1.fs <==> examplePath in fs;
      assert examplePath in fs ==> s1.fs[examplePath] == fs[examplePath];
    }
    ParseFileFromText(fs, examplePath);
    ParseFileFromText(fs, envPath);
    RewrittenValid(env, example, s1.missing);
    RewrittenKeys(env, example, s1.missing);
    AppendedLinesParse(s1.missing, example);
    NewContentShape(env, AppendedLines(s1.missing, example));
    RewrittenReadsBack(env, example, s1.missing);
    var env2 := ParseContent(c);
    assert ParseFile(s1.fs, envPath) == Success(env2);

    var missing2 := MissingKeys(example, env2);
    forall k
      ensures k !in missing2
    {
      if k in Keys(example) && k !in Keys(env) {
        assert k in s1.missing;
      }
    }
    AscendingUnique(missing2, []);
    NothingMissingKeepsText(c, example);
    SyncWrites(s1.fs, envPath, examplePath, checkOrphans, timestamp2);
  }

  // ---------------------------------------------------------------------
  // The `export ` exception

  /** A clean key and a clean value joined by '=' are cut back into that
      key and value, with no comment. */
  lemma AssignmentFields(k: string, v: string)
    requires CleanKey(k) && CleanValue(v)
    ensures SplitKeyValue(k + "=" + v) == Fields(Some(k), Some(v), None)
  {
    var t := k + "=" + v;
    AssignmentTextParts(k, v);
    assert KeyValuePart(t) == t by {
      NoCommentKeyValuePartOf(t);
    }
    StripTrimmed(k);
    StripTrimmed(v);
  }

  /** The text `k=v`: no '#', no newline, its first '=' right after `k`. */
  lemma AssignmentTextParts(k: string, v: string)
    requires CleanKey(k) && CleanValue(v)
    ensures var t := k + "=" + v;
      && '#' !in t && '\n' !in t
      && IndexOf(t, '=') == |k| && t[..|k|] == k && t[|k| + 1..] == v
  {
    var t := k + "=" + v;
    assert forall i :: 0 <= i < |k| ==> t[i] == k[i];
    assert t[|k|] == '=';
    assert forall i :: |k| < i < |t| ==> t[i] == v[i - |k| - 1];
  }

  /** Text without '#' or newline is its own key/value part. */
  lemma NoCommentKeyValuePartOf(t: string)
    requires '#' !in t && '\n' !in t
    ensures KeyValuePart(t) == t
  {
    assert IndexOf(t, '#') == |t|;
    if t != [] {
      assert t[|t| - 1] != '\n';
    }
  }

  /** Text after a prefix is what dropping the prefix leaves. */
  lemma DropPrefix(pre: string, rest: string)
    ensures (pre + rest)[|pre|..] == rest
  {
  }

  /** The template line `export export K=v` carries the key `export K`. */
  lemma DoubleExportKey(k: string, v: string, n: nat)
    requires CleanKey(k) && CleanValue(v)
    ensures ParseLine(ExportPrefix + ExportPrefix + k + "=" + v + "\n", n).kind == Export
    ensures ParseLine(ExportPrefix + ExportPrefix + k + "=" + v + "\n", n).key == Some(ExportPrefix + k)
  {
    var key := ExportPrefix + k;
    PrefixedKeyClean(k);
    ExportAssignmentLine(key, v, n);
    Regroup(ExportPrefix, ExportPrefix, k, "=", v, "\n");
  }

  /** `export ` followed by a clean key is still a clean key. */
  lemma PrefixedKeyClean(k: string)
    requires CleanKey(k)
    ensures CleanKey(ExportPrefix + k)
  {
    var key := ExportPrefix + k;
    assert forall i :: |ExportPrefix| <= i < |key| ==> key[i] == k[i - |ExportPrefix|];
    assert key[0] == 'e' && key[|key| - 1] == k[|k| - 1];
  }

  lemma Regroup(a: string, b: string, c: string, d: string, e: string, f: string)
    ensures a + (b + c) + d + e + f == a + b + c + d + e + f
  {
  }

  /** `export KEY=v` with a clean key and value reads back as an export
      line whose key is `KEY`. */
  lemma ExportAssignmentLine(key: string, v: string, n: nat)
    requires CleanKey(key) && CleanValue(v)
    ensures ParseLine(ExportPrefix + key + "=" + v + "\n", n).kind == Export
    ensures ParseLine(ExportPrefix + key + "=" + v + "\n", n).key == Some(key)
  {
    var rest := key + "=" + v;
    var body := ExportPrefix + rest;
    assert ExportPrefix + key + "=" + v + "\n" == body + "\n";
    ExportBodyText(key, v);
    DropPrefix(ExportPrefix, rest);
    ExportLineParses(body, n);
    AssignmentFields(key, v);
  }

  lemma ExportBodyText(key: string, v: string)
    requires CleanKey(key) && CleanValue(v)
    ensures var body := ExportPrefix + (key + "=" + v);
      IsTrimmed(body) && '\n' !in body && ExportPrefix <= body
  {
    var rest := key + "=" + v;
    var body := ExportPrefix + rest;
    assert forall i :: 0 <= i < |key| ==> rest[i] == key[i];
    assert forall i :: |key| < i < |rest| ==> rest[i] == v[i - |key| - 1];
    assert forall i :: |ExportPrefix| <= i < |body| ==> body[i] == rest[i - |ExportPrefix|];
    assert body[0] == 'e';
    assert v != [] ==> body[|body| - 1] == v[|v| - 1];
    assert v == [] ==> body[|body| - 1] == '=';
  }

  /** The line written for the key `export K`, `export K=v`, reads back as
      an export line whose key is `K`. */
  lemma RenderedExportKey(k: string, v: string, m: nat)
    requires CleanKey(k) && CleanValue(v)
    ensures ParseLine(RenderLine(ExportPrefix + k, v), m).kind == Export
    ensures ParseLine(RenderLine(ExportPrefix + k, v), m).key == Some(k)
  {
    assert RenderLine(ExportPrefix + k, v) == ExportPrefix + k + "=" + v + "\n";
    ExportAssignmentLine(k, v, m);
  }

  /** Why keys starting with `export ` are excluded above: the template
      line `export export K=v` carries the key `export K`, but the line
      written for that key, `export K=v`, reads back as an export line
      whose key is `K`. The key `export K` is then still missing, and a
      second run appends the same line again. */
  lemma ExportKeyReadsBackShorter(k: string, v: string, n: nat, m: nat)
    requires CleanKey(k) && CleanValue(v)
    ensures ParseLine(ExportPrefix + ExportPrefix + k + "=" + v + "\n", n).key == Some(ExportPrefix + k)
    ensures ParseLine(RenderLine(ExportPrefix + k, v), m).kind == Export
    ensures ParseLine(RenderLine(ExportPrefix + k, v), m).key != Some(ExportPrefix + k)
  {
    DoubleExportKey(k, v, n);
    RenderedExportKey(k, v, m);
    assert |ExportPrefix + k| != |k|;
  }
}
