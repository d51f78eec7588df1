# doteq, modelled in Dafny

doteq keeps a working environment file (`.env`) in step with its template
(`.env.example` or `example.env`). It reads both files as lists of
classified lines: blank, comment, `export ` and `KEY=value`. It then finds
the template keys the working file lacks and appends one `KEY=value` line
for each of them, in sorted order. Every line already in the working file
is kept as a text-mode read gives it (`\r\n` and a lone `\r` read as
`\n`), and the old file is backed up unchanged before it is replaced. It can also
list orphans (keys found only in the working file), preview a run
(`--dry-run`), create a missing template from the working file's keys
(`--create-example`), and report in a CI-friendly form.

This project models that core in Dafny and proves what it promises:

- the line classifier and the key/value/comment extraction;
- the syntax pre-validator;
- the two sorted key differences;
- the new file content: the old text as an exact prefix, at most one
  inserted newline, then the appended lines;
- the effect of a sync on the files;
- the report, the dry-run preview, the template bootstrap and the choice
  of template path;
- the exit status and what is shown.

It also proves that the written file reads back with every key it was
given, so a second sync appends nothing.

Files are a `map<string, string>` from path to contents, and a path
exists exactly when it is a key of the map. The clock reading used for
backup names is a `timestamp` parameter. Whether the process runs in CI is
a boolean parameter `ci`.

| file | models |
|---|---|
| `wrappers.dfy` | `Option`, `Result`, and `Outcome` (pass, or fail with an error) |
| `strings.dfy` | the Python `str` operations used: `strip`/`lstrip`/`rstrip`, `find`, `splitlines(True)`, `join`, `replace`, integer formatting; the newline translation of a text-mode read |
| `order.dfy` | Python's code-point order on strings; `sorted(set(a) - set(b))` |
| `paths.dfy` | POSIX `os.path.basename`, `dirname` and `join` |
| `utils.dfy` | `doteq/utils.py`: `validate_env_syntax`, `sanitize_for_ci`, `backup_file` |
| `parser.dfy` | `doteq/sync.py`: `EnvLine`, `_determine_type`, `_extract_key_value_comment`, `parse_env_file` |
| `sync.dfy` | `doteq/sync.py`: `_collect_keys`, `find_missing_keys`, `find_orphaned_keys`, `_build_appended_lines`, `sync_files`, `generate_report`, and class `DoteqSync` as `DoteqSyncer` |
| `idempotence.dfy` | reading back what `sync_files` writes; a second sync |
| `cli.dfy` | `doteq/cli.py` `main`: template path resolution, `--create-example`, `--dry-run` preview, exit status and output |

## Model

| member | source | states |
|---|---|---|
| Strings.LStripSpec | doteq/sync.py:50 | `lstrip()` drops exactly the leading whitespace: the result is a suffix of the input that is empty or starts with a non-blank, and all before it is whitespace |
| Strings.RStripSpec | doteq/sync.py:68 | `rstrip()` drops exactly the trailing whitespace: the result is a prefix of the input that is empty or ends with a non-blank, and all after it is whitespace |
| Strings.StripSpec | doteq/sync.py:50 | `strip()` gives trimmed text drawn from the input, empty exactly when the input is all whitespace, starting where `lstrip()` does |
| Strings.SplitLinesConcat | doteq/sync.py:98 | the physical lines of a text, concatenated, give back the text |
| Strings.SplitLinesAreLines | doteq/sync.py:98 | every physical line is non-empty and has a '\n' at most at its end |
| Strings.ReadText | doteq/sync.py:85-86 | the text a text-mode read returns holds no '\r', is no longer than the file, and has a '\n' whenever the file does |
| Strings.ReadTextKeeps | doteq/sync.py:85-86 | a file without '\r' reads back exactly as it is |
| Strings.ReadTextIdempotent | doteq/sync.py:85-86 | reading text that was already read changes nothing |
| Strings.ReadTextAppend | doteq/sync.py:85-86 | the read works piece by piece: text not ending in '\r' followed by any text reads as the two pieces read separately |
| Strings.ReadTextBreaks | doteq/sync.py:85-86 | a `\r\n` between two texts, and a lone `\r` not followed by '\n', each read as a single '\n' between the texts as read |
| Strings.NatToString | doteq/cli.py:106 | `f"{n}"` is a non-empty string of decimal digits without a leading zero whose value is `n` |
| Order.LessTransitive | doteq/sync.py:118 | the code-point string order that `sorted` uses is transitive |
| Order.LessTotal | doteq/sync.py:118 | any two distinct strings are ordered one way or the other |
| Order.SortedUnique | doteq/sync.py:116-118 | `sorted(set(xs))` is strictly ascending and holds exactly the elements of `xs` |
| Order.AscendingUnique | doteq/sync.py:118 | two strictly ascending lists with the same elements are equal, so the sorted list of a set is unique |
| Order.SortedDifference | doteq/sync.py:116-118 | `sorted(set(xs) - set(ys))` is strictly ascending and holds exactly the elements of `xs` not in `ys` |
| Paths.BasenameSpec | doteq/sync.py:81 | `basename` is the suffix after the last '/': it holds no '/', and a '/' precedes it unless it is the whole path |
| Paths.Dirname | doteq/cli.py:34 | `dirname` is the path up to its last '/' without the trailing '/'s: a prefix of that head followed only by '/'s in it, not ending in '/' unless the head is all '/'s (then the whole head), and empty when the path has no '/' |
| Paths.JoinPath | doteq/cli.py:35 | an absolute second part replaces the first; otherwise the result is the first part, a '/' exactly when the first part is non-empty and does not end with one, then the second part; a plain file name is the basename of the result |
| Utils.Chomp | doteq/utils.py:28 | `splitlines()` without ends: a line loses exactly its final '\n', if it has one |
| Utils.FirstBadLine | doteq/utils.py:29-33 | the scan stops at the first bad line; every line before it is good |
| Utils.ValidateEnvSyntax | doteq/utils.py:27-33 | passes exactly when no line is non-blank, non-comment, without '=' and not `export `; otherwise fails with the 1-based number of the first such line |
| Utils.SanitizeForCi | doteq/utils.py:53-54 | same length, no '\n' or '\r', each of those replaced by a space, every other character unchanged |
| Utils.BackupPath | doteq/utils.py:21 | the backup path strictly extends the original path |
| Utils.BackupFile | doteq/utils.py:17-24 | no backup exactly when the file is missing; otherwise a copy of its contents at `path.bak.<timestamp>`, with every other file untouched |
| Parser.DetermineTypeSpec | doteq/sync.py:49-57 | blank exactly when all whitespace; a comment when the first non-blank character is '#'; `export ` only after those two checks fail; otherwise key/value |
| Parser.BareExportIsKeyValue | doteq/sync.py:55-57 | a bare `export` is a key/value line, and the pre-validator rejects it |
| Parser.KeyValuePartSpec | doteq/sync.py:65-72 | the key/value part comes from before the first '#' and keeps every '=' found there |
| Parser.CutSpec | doteq/sync.py:75-76 | the two sides of the cut at the first '=' are trimmed, drawn from the text, and the left one has no '=' |
| Parser.SplitKeyValueSpec | doteq/sync.py:65-76 | the comment is everything from the first '#' on; a key (and then a value) exists exactly when an '=' precedes that '#'; the key is then the trimmed text before the first '=' and the value the trimmed text between that '=' and the first '#' |
| Parser.SplitAtFirstEquals | doteq/sync.py:65-76 | when an '=' precedes the first '#', the key is the trimmed text before the first '=' and the value the trimmed text from after it up to the '#' |
| Parser.ExtractSpec | doteq/sync.py:59-64 | blank and comment lines have no key or value; a comment line is its own comment and a blank line has none; an `export ` line is cut after the 7-character prefix of its stripped text; any other line is cut as it stands |
| Parser.KeyValueLineFields | doteq/sync.py:65-76 | a key/value line has a key exactly when an '=' precedes its first '#', and its comment runs from that '#' to the end |
| Parser.ExportLineParses | doteq/sync.py:62-64 | a trimmed `export ` line is an export line, keyed by the cut of the text after the prefix |
| Parser.ExportWithoutAssignment | doteq/sync.py:63-74 | `export NAME` without '=' passes validation and is an export line with no key |
| Parser.ClassifyLines | doteq/sync.py:97-102 | the loop builds one `EnvLine` per physical line, numbered from 1 |
| Parser.ParseEnvFile | doteq/sync.py:78-102 | `parse_env_file`: existence check, then a text-mode read, validation, and classification, with the result of `ParseFile` |
| Parser.ParseContentRoundTrip | doteq/sync.py:97-102 | the `raw` fields concatenate to the parsed text unchanged, are numbered 1..n, and each is one physical line |
| Parser.ParseFileContract | doteq/sync.py:78-102 | a missing `.env` reads as empty and any other missing file is `NotFound`; the parse fails exactly when validation of the text as read fails, with the first bad line's number; otherwise the lines reproduce the text as read (which holds no '\r'), numbered 1..n |
| Parser.ParsedFieldsFromRaw | doteq/sync.py:59-76 | the key and the value read from a line take their characters from that line |
| Parser.ParsedFieldsClean | doteq/sync.py:59-76 | on any physical line, key and value are present together, only on key/value and export lines, and are trimmed and free of '#' and newlines, the key also of '=' |
| Parser.AssignmentLineParses | doteq/sync.py:65-76 | a trimmed, '#'-free text that is not an `export ` line and has an '=' reads, with its '\n', as a key/value line cut at that '=' with no comment |
| Parser.RenderedLineParses | doteq/sync.py:140 | a `KEY=value\n` line with a clean key (not `export `-prefixed) and a clean value reads back as a key/value line with exactly that key and value and no comment |
| Parser.ParseLineAddNewline | doteq/sync.py:164-165 | giving the last line its missing '\n' changes neither its kind, nor its key, nor its value |
| Parser.ValidateOneLine | doteq/utils.py:27-33 | a one-line file whose line is not bad passes validation |
| Parser.CommentLineParses | doteq/sync.py:65-74 | a line whose first '#' comes before any '=' is a key/value line with no key, and its comment runs from that '#' |
| Parser.CommentHidesAssignment | doteq/utils.py:32 | `KEY #note` with an '=' in the note passes the pre-validator, yet parses as a key/value line with no key and the note as its comment |
| Sync.KeysMembers | doteq/sync.py:104-109 | a key is collected exactly when some key/value or export line carries it, non-empty |
| Sync.KeysAppend | doteq/sync.py:104-109 | the keys of two runs of lines are the keys of the first followed by those of the second |
| Sync.CollectKeys | doteq/sync.py:104-109 | the loop collects the keys of `Keys`, in file order, duplicates kept |
| Sync.MissingKeys | doteq/sync.py:111-119 | strictly ascending; a key is in it exactly when the template has it and the working file does not |
| Sync.OrphanedKeys | doteq/sync.py:121-132 | strictly ascending; a key is in it exactly when orphans are checked and the working file has it but the template does not |
| Sync.MissingKeysUnique | doteq/sync.py:116-118 | any strictly ascending list holding exactly the missing keys is the missing list |
| Sync.TemplateValuesLast | doteq/sync.py:137 | the key-to-value map holds exactly the non-empty keys, each bound to the value of the last line carrying it |
| Sync.AppendedLinesShape | doteq/sync.py:134-142 | appended line i is `KEY=value\n` for missing key i; a non-empty value is that of the last template line with the key, and for a non-empty key the value is always the last such line's value, or empty when that line has none |
| Sync.NewContentShape | doteq/sync.py:159-168 | the original text as read is an exact prefix of the new one; at most one '\n' is inserted; the result is empty or ends in '\n'; on non-empty lines the '\n' is inserted exactly when the text is non-empty and does not end in '\n' |
| Sync.SeparatorRule | doteq/sync.py:164-165 | on non-empty lines, the separator is '\n' exactly when the original text is non-empty and does not end in '\n' |
| Sync.WriteContent | doteq/sync.py:159-168 | the write loops produce the raw lines, the separator, then the appended lines |
| Sync.DryRunWritesNothing | doteq/sync.py:144-152 | a dry run succeeds exactly when a real run does, changes no file, and finds the same missing keys |
| Sync.WriteEnvSpec | doteq/sync.py:171-174 | after the write, the working file holds the new text and the backup path the old text (when there was one); every other file is unchanged |
| Sync.SyncWrites | doteq/sync.py:144-176 | a real run writes the new content built from the lines it parsed (which give back the working file's text as read), backs up the old contents unchanged, and touches no other file |
| Sync.BackupPathDiffers | doteq/utils.py:21 | the backup never overwrites the file it copies |
| Sync.NoChangesHeading | doteq/sync.py:196-202 | no line before the change section reads `Changes made:` |
| Sync.ReportStructure | doteq/sync.py:189-208 | the report opens with its title, the added count and the preserved count; the orphan line appears exactly when there are orphans; the change list appears exactly when keys were added, one line per key in order, at the end |
| Sync.ReportOpening | doteq/sync.py:196-200 | the lines before the change section are the title, the added count, the preserved count and, only when there are orphans, the orphan line |
| Sync.ChangeTail | doteq/sync.py:203-207 | the change section is a blank line, its heading, then `  + KEY (added)` for each added key in order |
| Sync.ReportFront | doteq/sync.py:189-202 | the report's opening lines: the title, the two counts, and the orphan hint only when there are orphans |
| Sync.AppendChangeSection | doteq/sync.py:203-207 | nothing is appended when no key was added; otherwise the change section is |
| Sync.AppendChangeLines | doteq/sync.py:206-207 | the loop appends one change line per added key, in order |
| Sync.DoteqSyncer.constructor | doteq/sync.py:39-47 | the paths and the orphan switch are as given; every list starts empty |
| Sync.DoteqSyncer.FindMissingKeys | doteq/sync.py:111-119 | sets and returns the missing keys of the parsed lines; no other field changes |
| Sync.DoteqSyncer.FindOrphanedKeys | doteq/sync.py:121-132 | sets and returns the orphans of the parsed lines (none unless orphans are checked); no other field changes |
| Sync.DoteqSyncer.BuildAppendedLines | doteq/sync.py:134-142 | returns one rendered line per missing key, with the template's value for it |
| Sync.DoteqSyncer.SyncFiles | doteq/sync.py:144-176 | returns the outcome of the run: the new files, or the first parse error. The fields then hold the parsed lines, the missing keys, the orphans and the added keys (equal to the missing keys); on an error, the fields set before it |
| Sync.DoteqSyncer.GenerateReport | doteq/sync.py:189-208 | the report for the added keys, the number of keys in the working file (duplicates counted) and the orphans, naming the working file by its basename |
| Idempotence.TemplateKeyClean | doteq/sync.py:134-142 | every template key, and the value the template gives it, is clean enough to be written as `KEY=value` |
| Idempotence.KeptLinesParse | doteq/sync.py:161-165 | read back, the kept text (with the separator) gives every original line its kind and key, at the same position |
| Idempotence.RenderedLineValid | doteq/sync.py:140 | a rendered `KEY=value` line is never rejected by the pre-validator |
| Idempotence.AppendedLinesValid | doteq/sync.py:134-142 | every appended line is one terminated physical line that the pre-validator accepts |
| Idempotence.AppendedLinesParse | doteq/sync.py:134-142 | every appended line is one terminated, valid physical line that reads back as a key/value line with exactly its key and value |
| Idempotence.RewrittenValid | doteq/sync.py:159-168 | the text a real run writes passes the pre-validator |
| Idempotence.RewrittenKeys | doteq/sync.py:159-168 | read back, the written text carries the original keys followed by the missing ones |
| Idempotence.TemplateFieldsFromText | doteq/sync.py:134-142 | a template key, and the value the template gives it, take their characters from the template's text |
| Idempotence.RewrittenReadsBack | doteq/sync.py:159-168 | the text a real run writes holds no '\r', so the next text-mode read returns it unchanged |
| Idempotence.NothingMissingKeepsText | doteq/sync.py:159-168 | with nothing missing, a file ending at a line boundary is written back unchanged |
| Idempotence.SecondSyncAddsNothing | doteq/sync.py:144-176 | a second real run succeeds, reads the same template, finds nothing missing and keeps the text; its keys are the original ones plus the added ones |
| Idempotence.DoubleExportKey | doteq/sync.py:62-76 | the template line `export export K=v` is an export line with the key `export K` |
| Idempotence.ExportKeyReadsBackShorter | doteq/sync.py:62-76 | the line written for the key `export K` reads back as an export line whose key is not `export K`, so that key stays missing |
| Cli.EnvDir | doteq/cli.py:34 | the directory of the working file is never empty (`.` stands in) |
| Cli.ResolveExamplePath | doteq/cli.py:33-45 | the search loop picks the path of `ExamplePath` |
| Cli.ExamplePathChoice | doteq/cli.py:33-45 | an explicit template is used as given; otherwise `.env.example` next to the working file if it exists, else `example.env` if it exists, else the `--example-name` choice, which then does not exist |
| Cli.CollectBootstrapKeys | doteq/cli.py:51-57 | the loop collects every non-empty key, in file order, duplicates kept |
| Cli.BootstrapText | doteq/cli.py:59-62 | the write loop produces one `KEY=\n` line per key |
| Cli.Bootstrap | doteq/cli.py:48-70 | an empty template when the working file is missing; otherwise one `KEY=` line per key; a parse failure gives the `Failed to create example file at ...` message |
| Cli.BootstrapKeysAreKeys | doteq/cli.py:55-57 | on parsed lines, the bootstrap keys are exactly the keys a sync collects |
| Cli.BootstrapLinesValid | doteq/cli.py:61-62 | each template line is one terminated physical line that the pre-validator accepts |
| Cli.BootstrapLinesShape | doteq/cli.py:61-62 | each template line is a valid, terminated key/value line for its key |
| Cli.BootstrapTemplateValid | doteq/cli.py:59-62 | the template written from clean keys passes validation, and a text-mode read returns it unchanged when its keys hold no '\r' |
| Cli.BootstrapTemplateKeys | doteq/cli.py:59-62 | the template written passes validation and reads back with exactly the keys it was written from, in order |
| Cli.BootstrapWritesKeys | doteq/cli.py:48-62 | the bootstrapped template is written from no keys when the working file is missing, and otherwise from the keys of the working file, all clean and free of '\r' |
| Cli.BootstrapThenSyncAddsNothing | doteq/cli.py:48-75 | a sync right after the bootstrap finds nothing missing; with a separate template it succeeds exactly when the working file parses, and with the working file as its own template it always succeeds |
| Cli.SameFileSyncAddsNothing | doteq/cli.py:48-75 | when the template path is the working file, the sync reads the rewritten file on both sides, succeeds and finds nothing missing |
| Cli.SeparateTemplateSyncAddsNothing | doteq/cli.py:48-75 | with a separate template, the working file is untouched, the sync succeeds exactly when it parses, and finds nothing missing |
| Cli.DryRunPreview | doteq/cli.py:102-112 | the preview loop builds the lines of `PreviewText` |
| Cli.PreviewStructure | doteq/cli.py:104-111 | the title; `Would add N keys to <env_file>:` with the path as given; one `  + KEY=` per missing key in order; a blank line; the closing sentence |
| Cli.ExitStatus | doteq/cli.py:74-100 | status 0 exactly when bootstrap and sync succeed, 1 otherwise; a failure is always shown, on standard error or as a CI error payload |
| Cli.CiErrorIsOneLine | doteq/cli.py:76-83 | in CI a sync failure's message is sanitised: one line, same length, other characters kept |
| Cli.DryRunShowsPreview | doteq/cli.py:102-113 | a dry run leaves the files as the bootstrap left them, succeeds exactly when a real run would, and previews the keys a real run would add |
| Cli.CiPayload | doteq/cli.py:85-97 | in CI a success shows the dry-run payload or the summary; both list exactly the missing keys, ascending; the summary also counts them, counts the working file's keys and lists the orphans |

## Left out

- File I/O is not modelled: `open`, `os.path.exists`, the temporary file, `os.makedirs`, `shutil.copy2`, `os.chmod` and `os.replace`. Files are a map from path to contents. Directories, permissions and the atomicity of the rename are outside the model.
- Read and write failures are not modelled: `OSError`, the module's own `PermissionError` and `DoteqError`, a failing rename, and a failing `makedirs` or write during `--create-example`. Only a missing file and a validation failure are modelled as errors.
- The generic exception handler around `--create-example` is modelled only for parse failures of the working file.
- The clock (`time.strftime`) is not read: the backup timestamp is a parameter.
- `is_ci_environment` is not modelled: whether the run is in CI is a boolean parameter.
- JSON encoding is not modelled. The CI payloads are modelled by their variable fields (`added_keys`, `existing_keys`, `orphaned_keys`, `changes_count`, `message`). Their constant `status` and `message` strings and `json.dumps` are left out.
- `colorize_output` (colorama escape codes), click option parsing, `click.echo`, `sys.exit` and `--verbose` are not modelled. `--verbose` has no effect in the source.
- The lazy re-parse in `find_missing_keys` and `find_orphaned_keys` is not modelled; they work on the lines already parsed. It runs only when a line list is empty, and it would then re-read the same unchanged file. The CI dry-run payload therefore lists the missing keys the sync computed.
- Files are read in text mode, so the model validates, parses and writes back the text after Python's universal newline translation (`\r\n` and a lone `\r` become `\n`): a working file with `\r\n` or `\r` line endings is rewritten with `\n` endings, while its backup keeps the original bytes. UTF-8 decoding is not modelled; contents are strings of characters.
- Line splitting breaks at '\n' only; no '\r' is left after the read. Python's `splitlines` also breaks at '\x0b', '\x0c', '\x1c'-'\x1e', '\x85', '\u2028' and '\u2029'.
- Whitespace is the ten ASCII characters Python's `str.isspace` accepts. Non-ASCII Unicode whitespace is not modelled.
- Paths follow POSIX `posixpath` ('/' only).
- Idempotence.SecondSyncAddsNothing: assumes no added key starts with `export `. The source breaks here: such a key is appended again on every run, as Idempotence.ExportKeyReadsBackShorter shows. It also assumes the template is neither the working file itself nor the backup path of the first run; in those runs the first run's write or backup replaces the template.
- Idempotence.AppendedLinesParse: assumes no added key starts with `export `, for the same reason.
- Idempotence.RewrittenKeys: assumes no added key starts with `export `, for the same reason.
- Cli.BootstrapThenSyncAddsNothing: assumes no key of the working file starts with `export `, for the same reason. Only the separate-template case needs it; Cli.SameFileSyncAddsNothing proves the other case without it.
- Cli.BootstrapTemplateKeys: assumes no key starts with `export `, for the same reason. Cli.BootstrapTemplateValid proves the validation part without that assumption.
- Cli.BootstrapLinesShape: its read-back clause assumes no key starts with `export `, for the same reason. Cli.BootstrapLinesValid proves the rest without that assumption.
