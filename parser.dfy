/** The env-file dialect parser of `doteq/sync.py`: `EnvLine`,
    `_determine_type`, `_extract_key_value_comment` and `parse_env_file`. */
module Parser {
  import opened Wrappers
  import opened Strings
  import opened Utils
  import Paths

  datatype LineKind = Blank | Comment | Export | KeyValue

  /** One physical line. `raw` keeps its '\n' (if it has one), so the text
      as read can be written back unchanged. */
  datatype EnvLine = EnvLine(
    raw: string,
    number: nat,
    kind: LineKind,
    key: Option<string>,
    value: Option<string>,
    comment: Option<string>)

  /** The failures a parse can report (`FileNotFoundError`, `ParseError`). */
  datatype Error = NotFound(path: string) | ParseError(line: nat)

  /** `str(exc)` of each failure. */
  function Message(e: Error): string {
    match e
    case NotFound(p) => "Missing required file: " + p
    case ParseError(n) => SyntaxErrorMessage(n)
  }

  /** The basename under which a missing file counts as an empty one. */
  const WorkingFileName: string := ".env"

  /** `_determine_type(line)`. */
  function DetermineType(line: string): LineKind {
    var stripped := Strip(line);
    if stripped == [] then Blank
    else if stripped[0] == '#' then Comment
    else if ExportPrefix <= stripped then Export
    else KeyValue
  }

  /** The classification order: blank first, then a comment (first
      non-blank character '#'), then `export `, and everything else is a
      key/value line. */
  lemma DetermineTypeSpec(line: string)
    ensures DetermineType(line) == Blank <==> AllSpace(line)
    ensures DetermineType(line) == Comment <==> LStrip(line) != [] && LStrip(line)[0] == '#'
    ensures DetermineType(line) == Export <==>
      LStrip(line) != [] && LStrip(line)[0] != '#' && ExportPrefix <= Strip(line)
  {
    StripSpec(line);
    LStripSpec(line);
  }

  /** The parts `_extract_key_value_comment` returns. */
  datatype Fields = Fields(key: Option<string>, value: Option<string>, comment: Option<string>)

  /** The key/value part of the working text: up to the first '#' and
      right-trimmed when there is one, otherwise without trailing '\n's. */
  function KeyValuePart(working: string): string {
    var h := IndexOf(working, '#');
    if h < |working| then RStrip(working[..h]) else RStripChar(working, '\n')
  }

  /** The cut `_extract_key_value_comment` makes on its working text: at
      the first '#', then at the first '='. */
  function SplitKeyValue(working: string): Fields {
    var h := IndexOf(working, '#');
    var kv := KeyValuePart(working);
    var comment := if h < |working| then Some(working[h..]) else None;
    var e := IndexOf(kv, '=');
    if e == |kv| then Fields(None, None, comment)
    else Fields(Some(Strip(kv[..e])), Some(Strip(kv[e + 1..])), comment)
  }

  /** The key/value part takes its characters from before the first '#',
      and keeps every '=' found there. */
  lemma KeyValuePartSpec(working: string)
    ensures forall c :: c in KeyValuePart(working) ==> c in working[..IndexOf(working, '#')]
    ensures '=' in KeyValuePart(working) <==> '=' in working[..IndexOf(working, '#')]
    ensures NoInnerNewline(working) ==> '\n' !in KeyValuePart(working)
  {
    if IndexOf(working, '#') < |working| {
      KeyValuePartBeforeComment(working);
    } else {
      KeyValuePartWithoutComment(working);
    }
  }

  lemma KeyValuePartBeforeComment(working: string)
    requires IndexOf(working, '#') < |working|
    ensures forall c :: c in KeyValuePart(working) ==> c in working[..IndexOf(working, '#')]
    ensures '=' in KeyValuePart(working) <==> '=' in working[..IndexOf(working, '#')]
    ensures NoInnerNewline(working) ==> '\n' !in KeyValuePart(working)
  {
    var head := working[..IndexOf(working, '#')];
    RStripChars(head);
    if NoInnerNewline(working) {
      assert forall j :: 0 <= j < |head| ==> head[j] == working[j];
    }
  }

  lemma KeyValuePartWithoutComment(working: string)
    requires IndexOf(working, '#') == |working|
    ensures forall c :: c in KeyValuePart(working) ==> c in working[..IndexOf(working, '#')]
    ensures '=' in KeyValuePart(working) <==> '=' in working[..IndexOf(working, '#')]
    ensures NoInnerNewline(working) ==> '\n' !in KeyValuePart(working)
  {
    var kv := RStripChar(working, '\n');
    assert KeyValuePart(working) == kv;
    assert working[..|working|] == working;
    assert forall c :: c in kv ==> c in working;
  }

  /** Cutting at the first '=' gives two trimmed sides drawn from the
      text, the left one without '='. */
  lemma CutSpec(kv: string)
    requires IndexOf(kv, '=') < |kv|
    ensures var e := IndexOf(kv, '=');
      && IsTrimmed(Strip(kv[..e])) && IsTrimmed(Strip(kv[e + 1..]))
      && '=' !in Strip(kv[..e])
      && (forall c :: c in Strip(kv[..e]) ==> c in kv)
      && (forall c :: c in Strip(kv[e + 1..]) ==> c in kv)
  {
    var e := IndexOf(kv, '=');
    assert forall c :: c in kv[..e] ==> c in kv;
    assert forall c :: c in kv[e + 1..] ==> c in kv;
    StripSpec(kv[..e]);
    StripSpec(kv[e + 1..]);
  }

  /** The comment is everything from the first '#' on; there is a key (and
      then a value) exactly when an '=' precedes that '#'; key and value
      are trimmed, hold no '#', the key no '=', and neither holds a
      newline when the working text has none before its end. */
  lemma SplitKeyValueSpec(working: string)
    ensures var f := SplitKeyValue(working);
      && (f.key.Some? <==> f.value.Some?)
      && (f.comment.Some? <==> '#' in working)
      && ('#' in working ==> IndexOf(working, '#') < |working| && f.comment == Some(working[IndexOf(working, '#')..]))
      && (f.key.Some? <==> '=' in working[..IndexOf(working, '#')])
      && (f.key.Some? ==>
            && '#' !in f.key.value && '=' !in f.key.value && IsTrimmed(f.key.value)
            && '#' !in f.value.value && IsTrimmed(f.value.value))
      && (f.key.Some? && NoInnerNewline(working) ==> '\n' !in f.key.value && '\n' !in f.value.value)
      && (IndexOf(working, '=') < IndexOf(working, '#') ==>
            && f.key == Some(Strip(working[..IndexOf(working, '=')]))
            && f.value == Some(Strip(working[IndexOf(working, '=') + 1..IndexOf(working, '#')])))
  {
    SplitCommentSpec(working);
    SplitKeyPresence(working);
    SplitFieldsClean(working);
    if IndexOf(working, '=') < IndexOf(working, '#') {
      SplitAtFirstEquals(working);
    }
  }

  /** When an '=' comes before the first '#', the key is the stripped text
      before that '=' and the value the stripped text between it and the
      '#' (or the end). */
  lemma SplitAtFirstEquals(working: string)
    requires IndexOf(working, '=') < IndexOf(working, '#')
    ensures SplitKeyValue(working).key == Some(Strip(working[..IndexOf(working, '=')]))
    ensures SplitKeyValue(working).value ==
      Some(Strip(working[IndexOf(working, '=') + 1..IndexOf(working, '#')]))
  {
    var h, e := IndexOf(working, '#'), IndexOf(working, '=');
    var kv := KeyValuePart(working);
    assert e < |kv| && IndexOf(kv, '=') == e && kv[..e] == working[..e]
      && Strip(kv[e + 1..]) == Strip(working[e + 1..h]) by {
      KeyValuePartPrefix(working);
      CutBeforeSpace(working, kv, h);
    }
    assert SplitKeyValue(working) == Fields(Some(Strip(kv[..e])), Some(Strip(kv[e + 1..])), SplitKeyValue(working).comment);
  }

  /** The key/value part is a prefix of the text before the first '#',
      followed there only by whitespace. */
  lemma KeyValuePartPrefix(working: string)
    ensures var h, kv := IndexOf(working, '#'), KeyValuePart(working);
      |kv| <= h && kv == working[..|kv|] && AllSpace(working[|kv|..h])
  {
    var h, kv := IndexOf(working, '#'), KeyValuePart(working);
    if h < |working| {
      RStripSpec(working[..h]);
      assert working[|kv|..h] == working[..h][|kv|..];
    } else {
      assert forall i :: |kv| <= i < |working| ==> working[i] == '\n';
    }
  }

  /** Cutting a prefix `kv` of `t` at `t`'s first '=' gives the same two
      sides, once stripped, as cutting `t[..h]`, when only whitespace
      separates `kv` from `h` and that '=' comes before `h`. */
  lemma CutBeforeSpace(t: string, kv: string, h: nat)
    requires |kv| <= h <= |t| && kv == t[..|kv|] && AllSpace(t[|kv|..h])
    requires IndexOf(t, '=') < h
    ensures var e := IndexOf(t, '=');
      && e < |kv| && IndexOf(kv, '=') == e
      && kv[..e] == t[..e]
      && Strip(kv[e + 1..]) == Strip(t[e + 1..h])
  {
    SpaceHidesNoEquals(t, |kv|, h);
    FirstInPrefix(t, kv, '=');
    StripAcrossSpace(t, kv, h, IndexOf(t, '=') + 1);
  }

  /** The stripped text from `i` to the end of a prefix `kv` of `t` is
      the stripped text from `i` to `h` when only whitespace separates
      `kv` from `h`. */
  lemma StripAcrossSpace(t: string, kv: string, h: nat, i: nat)
    requires i <= |kv| <= h <= |t| && kv == t[..|kv|] && AllSpace(t[|kv|..h])
    ensures Strip(kv[i..]) == Strip(t[i..h])
  {
    var rest, gap := kv[i..], t[|kv|..h];
    assert t[i..h] == rest + gap;
    StripAppendSpace(rest, gap);
  }

  /** A first '=' before `h` lies before a whitespace run ending at `h`. */
  lemma SpaceHidesNoEquals(t: string, m: nat, h: nat)
    requires m <= h <= |t| && AllSpace(t[m..h]) && IndexOf(t, '=') < h
    ensures IndexOf(t, '=') < m
  {
    var e := IndexOf(t, '=');
    forall j | m <= j < h
      ensures IsSpace(t[j])
    {
      assert t[m..h][j - m] == t[j];
    }
  }

  /** A prefix holding the first `c` of a text finds it at the same place. */
  lemma FirstInPrefix(t: string, p: string, c: char)
    requires |p| <= |t| && p == t[..|p|] && IndexOf(t, c) < |p|
    ensures IndexOf(p, c) == IndexOf(t, c)
  {
    var e := IndexOf(t, c);
    assert p[e] == c;
    assert forall j :: 0 <= j < e ==> p[j] == t[j];
  }

  lemma SplitCommentSpec(working: string)
    ensures var f := SplitKeyValue(working);
      && (f.comment.Some? <==> '#' in working)
      && ('#' in working ==> IndexOf(working, '#') < |working| && f.comment == Some(working[IndexOf(working, '#')..]))
  {
    var h := IndexOf(working, '#');
    if h < |working| {
      assert working[h] == '#';
    }
  }

  lemma SplitKeyPresence(working: string)
    ensures var f := SplitKeyValue(working);
      && (f.key.Some? <==> f.value.Some?)
      && (f.key.Some? <==> '=' in working[..IndexOf(working, '#')])
  {
    KeyValuePartSpec(working);
  }

  lemma SplitFieldsClean(working: string)
    ensures var f := SplitKeyValue(working);
      && (f.key.Some? ==>
            && '#' !in f.key.value && '=' !in f.key.value && IsTrimmed(f.key.value)
            && '#' !in f.value.value && IsTrimmed(f.value.value))
      && (f.key.Some? && NoInnerNewline(working) ==> '\n' !in f.key.value && '\n' !in f.value.value)
  {
    var kv := KeyValuePart(working);
    if IndexOf(kv, '=') < |kv| {
      KeyValuePartSpec(working);
      assert '#' !in working[..IndexOf(working, '#')];
      CutSpec(kv);
    }
  }

  /** `_extract_key_value_comment(line)`. */
  function ExtractKeyValueComment(line: string): Fields {
    if DetermineType(line) in {Blank, Comment} then
      Fields(None, None, if Strip(line) != [] && Strip(line)[0] == '#' then Some(line) else None)
    else
      var working := if ExportPrefix <= Strip(line) then Strip(line)[|ExportPrefix|..] else line;
      SplitKeyValue(working)
  }

  /** Blank and comment lines carry no key; a comment line is its own
      comment; an `export ` line is cut after the 7-character prefix of its
      stripped text; any other line is cut as it stands. */
  lemma ExtractSpec(line: string)
    ensures DetermineType(line) in {Blank, Comment} ==>
      ExtractKeyValueComment(line).key.None? && ExtractKeyValueComment(line).value.None?
    ensures DetermineType(line) == Comment ==> ExtractKeyValueComment(line).comment == Some(line)
    ensures DetermineType(line) == Blank ==> ExtractKeyValueComment(line).comment.None?
    ensures DetermineType(line) == Export ==>
      ExtractKeyValueComment(line) == SplitKeyValue(Strip(line)[|ExportPrefix|..])
    ensures DetermineType(line) == KeyValue ==> ExtractKeyValueComment(line) == SplitKeyValue(line)
  {
  }

  /** What a key/value line yields: a key exactly when an '=' precedes
      the first '#', and everything from that '#' on as its comment. */
  lemma KeyValueLineFields(line: string, n: nat)
    requires DetermineType(line) == KeyValue
    ensures ParseLine(line, n).kind == KeyValue
    ensures ParseLine(line, n).key.Some? <==> '=' in line[..IndexOf(line, '#')]
    ensures '#' in line ==> ParseLine(line, n).comment == Some(line[IndexOf(line, '#')..])
  {
    SplitKeyValueSpec(line);
  }

  /** A key/value line is cut as it stands. */
  lemma ParseKeyValueLine(line: string, n: nat)
    requires DetermineType(line) == KeyValue
    ensures ParseLine(line, n) == EnvLine(line, n, KeyValue,
      SplitKeyValue(line).key, SplitKeyValue(line).value, SplitKeyValue(line).comment)
  {
  }

  /** The `EnvLine` built for physical line number `number`. */
  function ParseLine(raw: string, number: nat): EnvLine {
    var f := ExtractKeyValueComment(raw);
    EnvLine(raw, number, DetermineType(raw), f.key, f.value, f.comment)
  }

  /** The lines `parse_env_file` builds from contents that passed validation. */
  function ParseContent(content: string): seq<EnvLine> {
    ParseRaws(SplitLines(content))
  }

  /** One `EnvLine` per physical line, numbered from 1. */
  function ParseRaws(raws: seq<string>): seq<EnvLine> {
    seq(|raws|, i requires 0 <= i < |raws| => ParseLine(raws[i], i + 1))
  }

  /** The concatenation of the `raw` fields, in order. */
  function RawText(lines: seq<EnvLine>): string {
    if lines == [] then [] else lines[0].raw + RawText(lines[1..])
  }

  /** What `parse_env_file(path)` returns or raises. The file is read in
      text mode, so validation and parsing see its contents after newline
      translation. */
  function ParseFile(fs: FileSystem, path: string): Result<seq<EnvLine>, Error> {
    if path !in fs then
      if Paths.Basename(path) == WorkingFileName then Success([]) else Failure(NotFound(path))
    else
      var text := ReadText(fs[path]);
      match ValidateEnvSyntax(text)
      case Fail(n) => Failure(ParseError(n))
      case Pass => Success(ParseContent(text))
  }

  /** `parse_env_file`: checks existence, validates, then appends one
      `EnvLine` per physical line. */
  method ParseEnvFile(fs: FileSystem, path: string) returns (r: Result<seq<EnvLine>, Error>)
    ensures r == ParseFile(fs, path)
  {
    if path !in fs {
      if Paths.Basename(path) == WorkingFileName {
        return Success([]);
      }
      return Failure(NotFound(path));
    }
    var content := ReadText(fs[path]);
    var check := ValidateEnvSyntax(content);
    if check.Fail? {
      return Failure(ParseError(check.error));
    }
    var lines := ClassifyLines(SplitLines(content));
    r := Success(lines);
  }

  /** The loop of `parse_env_file`: one `EnvLine` per physical line,
      numbered from 1. */
  method ClassifyLines(raws: seq<string>) returns (lines: seq<EnvLine>)
    ensures lines == ParseRaws(raws)
  {
    lines := [];
    var idx := 0;
    while idx < |raws|
      invariant 0 <= idx <= |raws|
      invariant lines == ParseRaws(raws[..idx])
    {
      ParseRawsSnoc(raws, idx);
      lines := lines + [ParseLine(raws[idx], idx + 1)];
      idx := idx + 1;
    }
    assert raws[..idx] == raws;
  }

  /** Classifying one more line appends its `EnvLine`. */
  lemma ParseRawsSnoc(raws: seq<string>, i: nat)
    requires i < |raws|
    ensures ParseRaws(raws[..i + 1]) == ParseRaws(raws[..i]) + [ParseLine(raws[i], i + 1)]
  {
    var a := ParseRaws(raws[..i + 1]);
    var b := ParseRaws(raws[..i]) + [ParseLine(raws[i], i + 1)];
    forall j | 0 <= j < |a|
      ensures a[j] == b[j]
    {
      assert raws[..i + 1][j] == raws[j];
      if j < i {
        assert raws[..i][j] == raws[j];
      }
    }
  }

  /** The `raw` fields, in order. */
  function Raws(lines: seq<EnvLine>): (r: seq<string>)
    ensures |r| == |lines| && forall i :: 0 <= i < |lines| ==> r[i] == lines[i].raw
  {
    seq(|lines|, i requires 0 <= i < |lines| => lines[i].raw)
  }

  lemma {:induction false} RawTextOfLines(lines: seq<EnvLine>)
    ensures RawText(lines) == Concat(Raws(lines))
  {
    if lines != [] {
      RawTextOfLines(lines[1..]);
      assert Raws(lines)[1..] == Raws(lines[1..]);
    }
  }

  lemma {:induction false} RawTextAppend(a: seq<EnvLine>, b: seq<EnvLine>)
    ensures RawText(a + b) == RawText(a) + RawText(b)
  {
    if a == [] {
      assert a + b == b;
    } else {
      assert (a + b)[1..] == a[1..] + b;
      RawTextAppend(a[1..], b);
    }
  }

  /** The parsed lines give back the text unchanged, are numbered
      1..n in order, and each is one physical line. */
  lemma ParseContentRoundTrip(content: string)
    ensures RawText(ParseContent(content)) == content
    ensures forall i :: 0 <= i < |ParseContent(content)| ==> ParseContent(content)[i].number == i + 1
    ensures forall i :: 0 <= i < |ParseContent(content)| ==> IsLine(ParseContent(content)[i].raw)
    ensures |ParseContent(content)| == |SplitLines(content)|
  {
    var lines := ParseContent(content);
    var raws := SplitLines(content);
    RawTextOfLines(lines);
    RawsOfParse(content);
    SplitLinesConcat(content);
    SplitLinesAreLines(content);
  }

  lemma RawsOfParse(content: string)
    ensures Raws(ParseContent(content)) == SplitLines(content)
  {
  }

  /** The contract of `parse_env_file` in one place: a missing `.env` is
      empty, any other missing file is `NotFound`; a validation failure
      is a `ParseError` naming the first bad line and yields no lines;
      otherwise the lines reproduce the text as read, numbered 1..n, and
      hold no '\r'. */
  lemma ParseFileContract(fs: FileSystem, path: string)
    ensures path !in fs && Paths.Basename(path) == WorkingFileName ==> ParseFile(fs, path) == Success([])
    ensures path !in fs && Paths.Basename(path) != WorkingFileName ==> ParseFile(fs, path) == Failure(NotFound(path))
    ensures path in fs ==>
      (ParseFile(fs, path).Failure? <==> ValidateEnvSyntax(ReadText(fs[path])).Fail?)
    ensures path in fs && ParseFile(fs, path).Failure? ==>
      ParseFile(fs, path).error == ParseError(ValidateEnvSyntax(ReadText(fs[path])).error)
    ensures path in fs && ParseFile(fs, path).Success? ==>
      && RawText(ParseFile(fs, path).value) == ReadText(fs[path])
      && '\r' !in RawText(ParseFile(fs, path).value)
      && forall i :: 0 <= i < |ParseFile(fs, path).value| ==> ParseFile(fs, path).value[i].number == i + 1
  {
    if path in fs { ParseContentRoundTrip(ReadText(fs[path])); }
  }

  /** Every character of a line occurs in the text of the lines. */
  lemma LineInRawText(lines: seq<EnvLine>, i: nat)
    requires i < |lines|
    ensures forall c :: c in lines[i].raw ==> c in RawText(lines)
  {
    RawTextOfLines(lines);
    forall c | c in lines[i].raw
      ensures c in RawText(lines)
    {
      assert Raws(lines)[i] == lines[i].raw;
      ConcatChars(Raws(lines), c);
    }
  }

  /** Key and value take their characters from the working text. */
  lemma SplitFieldsFromText(working: string)
    ensures var f := SplitKeyValue(working);
      && (f.key.Some? ==> forall c :: c in f.key.value ==> c in working)
      && (f.value.Some? ==> forall c :: c in f.value.value ==> c in working)
  {
    var kv := KeyValuePart(working);
    if IndexOf(kv, '=') < |kv| {
      KeyValuePartSpec(working);
      CutSpec(kv);
      assert forall c :: c in working[..IndexOf(working, '#')] ==> c in working;
    }
  }

  /** The key and the value read from a line take their characters from
      that line. */
  lemma ParsedFieldsFromRaw(raw: string, n: nat)
    ensures var l := ParseLine(raw, n);
      && (l.key.Some? ==> forall c :: c in l.key.value ==> c in raw)
      && (l.value.Some? ==> forall c :: c in l.value.value ==> c in raw)
  {
    match DetermineType(raw)
    case Blank =>
    case Comment =>
    case KeyValue =>
      SplitFieldsFromText(raw);
    case Export =>
      var working := Strip(raw)[|ExportPrefix|..];
      StripSpec(raw);
      assert forall c :: c in working ==> c in Strip(raw);
      SplitFieldsFromText(working);
  }

  // ---------------------------------------------------------------------
  // Lines the tool writes, read back

  /** A key as extraction produces it from a physical line: non-empty,
      trimmed, free of '#', '=' and newlines. */
  predicate CleanKey(k: string) {
    k != [] && IsTrimmed(k) && '#' !in k && '=' !in k && '\n' !in k
  }

  /** A value as extraction produces it from a physical line. */
  predicate CleanValue(v: string) {
    IsTrimmed(v) && '#' !in v && '\n' !in v
  }

  /** Every key and value read from a physical line is clean. */
  lemma ParsedFieldsClean(raw: string, n: nat)
    requires IsLine(raw)
    ensures var l := ParseLine(raw, n);
      (l.key.Some? <==> l.value.Some?)
      && (l.key.Some? ==> l.kind in {KeyValue, Export})
      && (l.key.Some? && l.key.value != [] ==> CleanKey(l.key.value))
      && (l.value.Some? ==> CleanValue(l.value.value))
  {
    assert NoInnerNewline(raw);
    match DetermineType(raw)
    case Blank =>
    case Comment =>
    case KeyValue =>
      SplitKeyValueSpec(raw);
    case Export =>
      StripNoInnerNewline(raw);
      var working := Strip(raw)[|ExportPrefix|..];
      assert NoInnerNewline(working);
      SplitKeyValueSpec(working);
  }

  /** Text a `KEY=value` line can start with never starts with `export `
      unless its key does. */
  lemma NotExportLine(k: string, rest: string)
    requires !(ExportPrefix <= k)
    ensures !(ExportPrefix <= k + "=" + rest)
  {
    var t := k + "=" + rest;
    if |k| >= |ExportPrefix| {
      assert t[..|ExportPrefix|] == k[..|ExportPrefix|];
    } else {
      assert t[|k|] == '=';
      assert forall i :: 0 <= i < |ExportPrefix| ==> ExportPrefix[i] != '=';
    }
  }

  /** A trimmed, newline- and '#'-free text that is not an `export `
      line parses, with its '\n', as a key/value line cut at its first
      '=' and without comment. */
  lemma AssignmentLineParses(t: string, n: nat)
    requires IsTrimmed(t) && t != [] && '\n' !in t && '#' !in t
    requires !(ExportPrefix <= t) && IndexOf(t, '=') < |t|
    ensures IsLine(t + "\n")
    ensures ParseLine(t + "\n", n) == EnvLine(t + "\n", n, KeyValue,
      Some(Strip(t[..IndexOf(t, '=')])), Some(Strip(t[IndexOf(t, '=') + 1..])), None)
  {
    KeyValueTextLine(t);
    AssignmentSplit(t);
    ParseKeyValueLine(t + "\n", n);
    NewlineEndsLine(t);
  }

  /** Newline- and '#'-free text with an '=' is cut, given its '\n', at
      that '=' and has no comment. */
  lemma AssignmentSplit(t: string)
    requires t != [] && '\n' !in t && '#' !in t && IndexOf(t, '=') < |t|
    ensures SplitKeyValue(t + "\n") ==
      Fields(Some(Strip(t[..IndexOf(t, '=')])), Some(Strip(t[IndexOf(t, '=') + 1..])), None)
  {
    NoCommentKeyValuePart(t);
  }

  /** Newline-free text without '#', given its '\n', is its own key/value
      part and has no comment. */
  lemma NoCommentKeyValuePart(t: string)
    requires t != [] && '\n' !in t && '#' !in t
    ensures IndexOf(t + "\n", '#') == |t + "\n"|
    ensures KeyValuePart(t + "\n") == t
  {
    var line := t + "\n";
    IndexOfAppend(t, "\n", '#');
    assert line[..|line| - 1] == t;
    assert RStripChar(t, '\n') == t;
  }

  /** The text of a `key=value` line built from a clean key and value. */
  lemma AssignmentText(k: string, v: string)
    requires CleanKey(k) && !(ExportPrefix <= k) && CleanValue(v)
    ensures var t := k + "=" + v;
      IsTrimmed(t) && t != [] && '\n' !in t && '#' !in t && !(ExportPrefix <= t)
      && IndexOf(t, '=') == |k| && t[..|k|] == k && t[|k| + 1..] == v
  {
    var t := k + "=" + v;
    assert forall i :: 0 <= i < |k| ==> t[i] == k[i];
    assert t[|k|] == '=';
    assert forall i :: |k| < i < |t| ==> t[i] == v[i - |k| - 1];
    NotExportLine(k, v);
  }

  /** A `key=value\n` line with a clean key that does not start with
      `export ` and a clean value parses back as a key/value line carrying
      exactly that key and value, and no comment. */
  lemma RenderedLineParses(k: string, v: string, n: nat)
    requires CleanKey(k) && !(ExportPrefix <= k) && CleanValue(v)
    ensures IsLine(k + "=" + v + "\n")
    ensures ParseLine(k + "=" + v + "\n", n) == EnvLine(k + "=" + v + "\n", n, KeyValue, Some(k), Some(v), None)
  {
    var t := k + "=" + v;
    assert t + "\n" == k + "=" + v + "\n";
    AssignmentText(k, v);
    AssignmentLineParses(t, n);
    StripTrimmed(k);
    StripTrimmed(v);
  }

  /** Giving a physical line its missing final '\n' changes neither its
      kind nor its key nor its value. */
  lemma ParseLineAddNewline(l: string, n: nat, m: nat)
    requires IsLine(l) && !EndsWithNewline(l)
    ensures ParseLine(l + "\n", m).kind == ParseLine(l, n).kind
    ensures ParseLine(l + "\n", m).key == ParseLine(l, n).key
    ensures ParseLine(l + "\n", m).value == ParseLine(l, n).value
  {
    DetermineTypeAddNewline(l);
    ExtractAddNewline(l);
  }

  lemma DetermineTypeAddNewline(l: string)
    requires IsLine(l) && !EndsWithNewline(l)
    ensures DetermineType(l + "\n") == DetermineType(l)
  {
    StripAddNewline(l);
  }

  lemma ExtractAddNewline(l: string)
    requires IsLine(l) && !EndsWithNewline(l)
    ensures ExtractKeyValueComment(l + "\n").key == ExtractKeyValueComment(l).key
    ensures ExtractKeyValueComment(l + "\n").value == ExtractKeyValueComment(l).value
  {
    DetermineTypeAddNewline(l);
    StripAddNewline(l);
    if DetermineType(l) == KeyValue {
      assert '\n' !in l;
      SplitAddNewline(l);
    }
  }

  lemma SplitAddNewline(l: string)
    requires '\n' !in l
    ensures SplitKeyValue(l + "\n").key == SplitKeyValue(l).key
    ensures SplitKeyValue(l + "\n").value == SplitKeyValue(l).value
  {
    KeyValuePartAddNewline(l);
    SameKeyValuePart(l + "\n", l);
  }

  /** Key and value depend on the key/value part of the working text only. */
  lemma SameKeyValuePart(w1: string, w2: string)
    requires KeyValuePart(w1) == KeyValuePart(w2)
    ensures SplitKeyValue(w1).key == SplitKeyValue(w2).key
    ensures SplitKeyValue(w1).value == SplitKeyValue(w2).value
  {
  }

  /** A final '\n' does not change the key/value part of newline-free text. */
  lemma KeyValuePartAddNewline(l: string)
    requires '\n' !in l
    ensures KeyValuePart(l + "\n") == KeyValuePart(l)
  {
    var l2 := l + "\n";
    IndexOfAppend(l, "\n", '#');
    var h := IndexOf(l, '#');
    if h < |l| {
      assert l2[..h] == l[..h];
    } else {
      assert l2[..|l2| - 1] == l;
    }
  }

  // ---------------------------------------------------------------------
  // Documented corner cases

  /** A bare `export` has no space after the word, so it is a key/value
      line (and, having no '=', one the pre-validator rejects). */
  lemma BareExportIsKeyValue()
    ensures DetermineType("export") == KeyValue
    ensures IsBadLine("export")
  {
    assert Strip("export") == "export" by { StripTrimmed("export"); }
    assert !(ExportPrefix <= "export");
  }

  /** A one-line file whose only line passes the pre-validator is accepted. */
  lemma ValidateOneLine(t: string)
    requires '\n' !in t && !IsBadLine(t)
    ensures ValidateEnvSyntax(t + "\n") == Pass
  {
    var line := t + "\n";
    assert IsLine(line);
    SplitOneLine(line);
    assert Chomp(line) == t;
  }

  /** `export NAME` without '=' passes validation and is an export line,
      but has no key. */
  lemma ExportWithoutAssignment(name: string, n: nat)
    requires name != [] && IsTrimmed(name) && '=' !in name && '#' !in name && '\n' !in name
    ensures ValidateEnvSyntax(ExportPrefix + name + "\n") == Pass
    ensures ParseLine(ExportPrefix + name + "\n", n).kind == Export
    ensures ParseLine(ExportPrefix + name + "\n", n).key.None?
  {
    var t := ExportPrefix + name;
    assert t + "\n" == ExportPrefix + name + "\n";
    assert IsTrimmed(t) && '\n' !in t && ExportPrefix <= t && t[|ExportPrefix|..] == name by {
      assert forall i :: |ExportPrefix| <= i < |t| ==> t[i] == name[i - |ExportPrefix|];
    }
    assert Strip(t) == t by { StripTrimmed(t); }
    ValidateOneLine(t);
    ExportLineParses(t, n);
    assert SplitKeyValue(name).key.None? by {
      assert IndexOf(name, '#') == |name|;
      assert name[..|name|] == name;
      SplitKeyValueSpec(name);
    }
  }

  /** A trimmed, newline-free text starting with `export ` parses, with its
      '\n', as an export line cut after the prefix. */
  lemma ExportLineParses(t: string, n: nat)
    requires IsTrimmed(t) && '\n' !in t && ExportPrefix <= t
    ensures ParseLine(t + "\n", n).kind == Export
    ensures ParseLine(t + "\n", n).key == SplitKeyValue(t[|ExportPrefix|..]).key
  {
    assert Strip(t + "\n") == t by { StripTrailing(t, "\n"); }
  }

  /** Text made of something other than `export`, a space and more text
      does not start with `export `. */
  lemma NotExportAfterSpace(k: string, rest: string)
    requires !("export" <= k)
    ensures !(ExportPrefix <= k + " " + rest)
  {
    var t := k + " " + rest;
    assert ExportPrefix[..6] == "export";
    if |k| >= 6 {
      assert t[..6] == k[..6];
      assert k[..6] != ExportPrefix[..6];
    } else {
      assert t[|k|] == ' ' && ExportPrefix[|k|] != ' ';
    }
  }

  /** The text of a `KEY #note` line: trimmed, free of newlines, not an
      `export ` line, and with an '=' in it. */
  lemma CommentLineText(k: string, note: string)
    requires CleanKey(k) && !("export" <= k)
    requires '=' in note && '\n' !in note && IsTrimmed(note)
    ensures var t := k + " #" + note;
      IsTrimmed(t) && '\n' !in t && '=' in t && !(ExportPrefix <= t)
      && t[0] == k[0] && IndexOf(t, '#') == |k| + 1
      && t[..|k| + 1] == k + " " && t[|k| + 1..] == "#" + note
  {
    var t := k + " #" + note;
    assert t == k + " " + ("#" + note);
    NotExportAfterSpace(k, "#" + note);
    assert forall i :: 0 <= i < |k| ==> t[i] == k[i];
    assert t[|k|] == ' ' && t[|k| + 1] == '#';
    assert forall i :: |k| + 2 <= i < |t| ==> t[i] == note[i - |k| - 2];
  }

  /** The pre-validator looks for '=' in the whole line, trailing comment
      included, while the parser cuts the comment off first: `KEY #note`
      with an '=' inside the note is accepted, then yields no key. */
  lemma CommentHidesAssignment(k: string, note: string, n: nat)
    requires CleanKey(k) && !("export" <= k)
    requires '=' in note && '\n' !in note && IsTrimmed(note)
    ensures ValidateEnvSyntax(k + " #" + note + "\n") == Pass
    ensures ParseLine(k + " #" + note + "\n", n).kind == KeyValue
    ensures ParseLine(k + " #" + note + "\n", n).key.None?
    ensures ParseLine(k + " #" + note + "\n", n).comment == Some("#" + note + "\n")
  {
    var t := k + " #" + note;
    assert t + "\n" == k + " #" + note + "\n";
    CommentLineText(k, note);
    assert Strip(t) == t by { StripTrimmed(t); }
    ValidateOneLine(t);
    assert '=' !in t[..|k| + 1];
    CommentLineParses(t, |k| + 1, n);
    assert t[|k| + 1..] + "\n" == "#" + note + "\n";
  }

  /** A trimmed, newline-free key/value text whose first '#' comes after
      no '=' parses, with its '\n', as a keyless key/value line. */
  lemma CommentLineParses(t: string, h: nat, n: nat)
    requires IsTrimmed(t) && t != [] && '\n' !in t
    requires t[0] != '#' && !(ExportPrefix <= t)
    requires h < |t| && IndexOf(t, '#') == h && '=' !in t[..h]
    ensures ParseLine(t + "\n", n).kind == KeyValue
    ensures ParseLine(t + "\n", n).key.None?
    ensures ParseLine(t + "\n", n).comment == Some(t[h..] + "\n")
  {
    KeyValueTextLine(t);
    CommentCut(t, h);
    KeyValueLineFields(t + "\n", n);
  }

  /** A final '\n' moves no '#' and joins the comment. */
  lemma CommentCut(t: string, h: nat)
    requires h < |t| && IndexOf(t, '#') == h
    ensures IndexOf(t + "\n", '#') == h
    ensures (t + "\n")[..h] == t[..h] && (t + "\n")[h..] == t[h..] + "\n"
  {
    IndexOfAppend(t, "\n", '#');
    SliceAppend(t, "\n", h);
  }

  /** Trimmed, newline-free text that starts neither with '#' nor with
      `export ` is, given its '\n', a key/value line. */
  lemma KeyValueTextLine(t: string)
    requires IsTrimmed(t) && t != [] && '\n' !in t
    requires t[0] != '#' && !(ExportPrefix <= t)
    ensures DetermineType(t + "\n") == KeyValue
  {
    StripTrailing(t, "\n");
  }
}
