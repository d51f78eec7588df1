/** `doteq/utils.py`: the syntax pre-validator, CI message sanitising and
    the backup rule. Files are a map from path to contents; a path exists
    exactly when it is a key of the map. */
module Utils {
  import opened Wrappers
  import opened Strings

  /** Path -> contents; existence is membership. */
  type FileSystem = map<string, string>

  const ExportPrefix: string := "export "

  /** A line the pre-validator refuses: not blank, not a comment, with no
      '=' anywhere (a trailing comment included) and, once stripped, not
      starting with `export `. */
  predicate IsBadLine(line: string) {
    var s := Strip(line);
    s != [] && s[0] != '#' && '=' !in line && !(ExportPrefix <= s)
  }

  /** A physical line without its '\n' (what `splitlines()` yields). */
  function Chomp(l: string): (r: string)
    ensures r <= l && (r == l || l == r + "\n")
    ensures '\n' !in r ==> (r == l || EndsWithNewline(l))
    ensures EndsWithNewline(l) ==> l == r + "\n"
    ensures !EndsWithNewline(l) ==> r == l
  {
    if EndsWithNewline(l) then
      assert l == l[..|l| - 1] + "\n";
      l[..|l| - 1]
    else l
  }

  /** The first index at or after `from` whose line is bad, or `|lines|`. */
  function FirstBadLine(lines: seq<string>, from: nat): (r: nat)
    requires from <= |lines|
    ensures from <= r <= |lines|
    ensures r < |lines| ==> IsBadLine(Chomp(lines[r]))
    ensures forall i :: from <= i < r ==> !IsBadLine(Chomp(lines[i]))
    decreases |lines| - from
  {
    if from == |lines| || IsBadLine(Chomp(lines[from])) then from
    else FirstBadLine(lines, from + 1)
  }

  /** `validate_env_syntax(content)`: passes exactly when no line is bad;
      otherwise fails with the 1-based number of the FIRST bad line. */
  function ValidateEnvSyntax(content: string): (r: Outcome<nat>)
    ensures r.Pass? <==>
      forall i :: 0 <= i < |SplitLines(content)| ==> !IsBadLine(Chomp(SplitLines(content)[i]))
    ensures r.Fail? ==>
      && 1 <= r.error <= |SplitLines(content)|
      && IsBadLine(Chomp(SplitLines(content)[r.error - 1]))
      && forall i :: 0 <= i < r.error - 1 ==> !IsBadLine(Chomp(SplitLines(content)[i]))
  {
    var lines := SplitLines(content);
    var k := FirstBadLine(lines, 0);
    if k == |lines| then Pass else Fail(k + 1)
  }

  /** The text of the error `validate_env_syntax` raises. */
  function SyntaxErrorMessage(line: nat): string {
    "Syntax error on line " + NatToString(line) + ": Missing '='"
  }

  /** `sanitize_for_ci(text)`: every '\n' and '\r' becomes a space. */
  function SanitizeForCi(text: string): (r: string)
    ensures |r| == |text|
    ensures '\n' !in r && '\r' !in r
    ensures forall i :: 0 <= i < |text| && text[i] != '\n' && text[i] != '\r' ==> r[i] == text[i]
    ensures forall i :: 0 <= i < |text| && (text[i] == '\n' || text[i] == '\r') ==> r[i] == ' '
  {
    ReplaceChar(ReplaceChar(text, '\n', ' '), '\r', ' ')
  }

  /** Where `backup_file` puts the copy of `path`. */
  function BackupPath(path: string, timestamp: string): (r: string)
    ensures path < r
  {
    path + ".bak." + timestamp
  }

  datatype Backup = Backup(fs: FileSystem, path: Option<string>)

  /** `backup_file(path)` with the clock reading passed in: nothing when
      `path` does not exist; otherwise a copy of its contents at
      `path.bak.<timestamp>`, every other file untouched. */
  function BackupFile(fs: FileSystem, path: string, timestamp: string): (b: Backup)
    ensures b.path.None? <==> path !in fs
    ensures path !in fs ==> b.fs == fs
    ensures path in fs ==>
      && b.path == Some(BackupPath(path, timestamp))
      && b.fs.Keys == fs.Keys + {BackupPath(path, timestamp)}
      && b.fs[BackupPath(path, timestamp)] == fs[path]
      && forall p :: p in fs && p != BackupPath(path, timestamp) ==> b.fs[p] == fs[p]
  {
    if path !in fs then Backup(fs, None)
    else
      var target := BackupPath(path, timestamp);
      Backup(fs[target := fs[path]], Some(target))
  }
}
