# EMBARK importer and archive helper in Dafny

EMBARK is the web dashboard around the EMBA firmware analyser. This project models two pieces of its
backend: the porter, which reads EMBA's CSV logs into result records, and the uploader's archive
helper, which unpacks uploaded firmware. Both are stated over values; the database, the file system
and the Python standard library calls they lean on are parameters or left out.

The modules are:

- `Outcomes`: `Option` and `Result`, so `:-` can carry a Python exception as an error value.
- `Strings`: the POSIX path and suffix helpers both files use (`str.endswith`, `os.path.join`,
  `os.path.split(...)[-1]`, a relative path printed as components).
- `CsvRead`: `read_csv`. It cleans the trailer of every row (one trailing `''`, then one trailing
  `'NA'`). After each new row it folds the whole accumulated row list into a nested dictionary of
  `Str | Map` values again. `ReadCsv` is that loop as written, with both nested loops. It is proved
  equal to the recursive specification `ReadCsvSpec`. There are three error outcomes: `EmptyRow` is
  the `IndexError` of `row[-1]`. `StrHasNoKeys` is the `AttributeError` of `.keys()` on a string
  entry. `StrItemAssignment` is the `TypeError` of assigning an item into a string entry.
- `CsvReplay`: what the fold means.
  - A 2-field row wins on first occurrence.
  - A 3-field row wins on last occurrence.
  - A row of four or more fields stores the map of its field pairs under `res[k][f1][f2]`.
  - Replaying after every row gives the same dictionary as one pass, as long as no key or sub-key
    is used by rows of different lengths (`ReadCsvIsOnePass`). The proof goes through algebraic
    laws of a single row: idempotence, commutation, overwrite and no-op.
  - `ReplayCanRaise` shows that the same replay can also raise on a file that a single pass reads
    without error.
- `Porter`:
  - `f20_csv` up to the database writes. The header is skipped; every row of at least 12 fields
    gives one CVE record keyed by column 2; the last row of a repeated CVE wins.
  - The entropy extraction of `f50_csv`. It takes the greedy leftmost match of `\d+\.?\d*` with the
    dots stripped, proved to be the longest number token at the first digit.
  - The defaults of the `f50_csv` summary.
  - The file dispatch of `result_read_in`, with the directory listing given as a list of names and
    is-file flags.
- `Archive`:
  - The unpack-format registry as a class with a `seq` of `(name, extensions, description)`, and
    the `Archiver` constructor that registers `gz`.
  - The format and extension listings, and the `check_extensions` search loop.
  - The name `gunzip_file` writes, with `re.sub(r"\.gz$", "", …, flags=re.IGNORECASE)` written out,
    including `$` matching before a final newline.
  - The exception mapping of `unpack` over an abstract outcome of `shutil.unpack_archive`.
  - The entries `make_zipfile` writes for a given `os.walk` listing.

Two behaviours of the code are captured as written:

- In `unpack`, the `ReadError` handler evaluates `file_location.split('.', 1)[1]` for its log line.
  For a name without a dot this raises `IndexError`, so `ValueError` is never reached (see Findings).
- `check_extensions` returns `False` for an unsupported name, though its docstring says
  `ValueError`. The model follows the code.

## Model

| member | source | states |
|---|---|---|
| `CsvRead.Clean` | embark/porter/importer.py:52-55 | The cleanup raises exactly for `[]` and `[""]`. Otherwise it returns a prefix at most two shorter. The dropped part is one of `[]`, `[""]`, `["NA"]`, `["NA", ""]`. `""` is dropped iff the row ended in `""`, and `"NA"` iff the field before that trailer is `"NA"`. |
| `CsvRead.PairsKeys` | embark/porter/importer.py:67 | The names in the pair map are exactly the even-indexed fields that have a partner. An unpaired last field is dropped. |
| `CsvRead.PairsLastWins` | embark/porter/importer.py:67 | When a name occurs in several pairs, its value is the partner of its last occurrence. |
| `CsvRead.Apply` | embark/porter/importer.py:57-69 | A row shorter than 2 changes nothing. One row raises exactly when it has 3+ fields and its key holds a string, or 4+ fields and its sub-key holds a string. The error is `StrHasNoKeys` when `.keys()` meets the string, else `StrItemAssignment`. |
| `CsvRead.FoldRow` | embark/porter/importer.py:57-69 | The level-by-level in-place writes of one row produce `Apply`'s result. |
| `CsvRead.ReadCsv` | embark/porter/importer.py:41-72 | The loop with its in-place pops, the growing list and the replay inner loop returns exactly `ReadCsvSpec`. |
| `CsvReplay.ApplyFrame` | embark/porter/importer.py:57-69 | A successful row adds at most its own key and leaves every other key as it was. |
| `CsvReplay.ApplyFirstWins` | embark/porter/importer.py:58-60 | A 2-field row sets a key only when it is absent, and never changes a present one. |
| `CsvReplay.ApplySetsSubKey` | embark/porter/importer.py:61-69 | A 3-field row `[k, s, v]` makes `res[k]` a map with `res[k][s] == v`, keeps its other sub-keys, and its keys are the old ones plus `s`. |
| `CsvReplay.ApplySetsSubSubKey` | embark/porter/importer.py:64-67 | A row of 4+ fields stores its pair map under `res[k][f1][f2]` and keeps the other entries at both levels. The keys of `res[k]` are the old ones plus `f1`, and the keys of `res[k][f1]` are the old ones plus `f2`. |
| `CsvReplay.ApplyPresent` | embark/porter/importer.py:58-60 | A 2-field row whose key is present is a no-op. |
| `CsvReplay.ApplyIdempotent` | embark/porter/importer.py:57-69 | Folding the same row twice is folding it once. |
| `CsvReplay.ApplyOverwrites` | embark/porter/importer.py:57-69 | A later row that writes the same spot as an earlier one erases the earlier row's effect. |
| `CsvReplay.ApplyCommutes` | embark/porter/importer.py:57-69 | Two rows that agree on their lengths at a shared key or sub-key, do not conflict, and do not clash with the dictionary commute. |
| `CsvReplay.ReplayIdempotent` | embark/porter/importer.py:57-69 | For a consistent list, folding it twice over a start it fits is folding it once. |
| `CsvReplay.ReplayFirstWins` | embark/porter/importer.py:58-60 | If `k` is absent from the starting dictionary, no earlier row has key `k`, and the fold succeeds, the first 2-field row `[k, v]` leaves `res[k] == v`. |
| `CsvReplay.ReplayLastWinsSubKey` | embark/porter/importer.py:61-69 | The last 3-field row `[k, s, v]` for `(k, s)` decides `res[k][s]`. |
| `CsvReplay.ReplayLastWinsSubSubKey` | embark/porter/importer.py:64-67 | The last row of 4+ fields for `(k, f1, f2)` decides `res[k][f1][f2]`, unless a later 3-field row for `(k, f1)` replaces that level. |
| `CsvReplay.CleanAll` | embark/porter/importer.py:50-56 | Cleaning every row fails iff some row fails. Otherwise the i-th cleaned row is the cleanup of the i-th row. |
| `CsvReplay.ReadLoopIsOnePass` | embark/porter/importer.py:50-69 | When the rows accumulated so far and the cleaned remaining rows are consistent together, the replaying outer loop ends where one pass over all of them ends. |
| `CsvReplay.ReadCsvIsOnePass` | embark/porter/importer.py:50-69 | For a file whose cleaned rows are consistent, `read_csv` succeeds and equals a single in-order pass. |
| `CsvReplay.ReadCsvFirstWins` | embark/porter/importer.py:58-60 | In a consistent file, `read_csv` maps `k` to the value of the first 2-field row with key `k`. |
| `CsvReplay.ReadCsvLastWinsSubKey` | embark/porter/importer.py:61-69 | In a consistent file, `read_csv` maps `(k, s)` to the value of the last 3-field row for them. |
| `CsvReplay.ReadCsvRaisesOnEmptyRow` | embark/porter/importer.py:52-55 | A file with a row that is `[]` or `[""]` makes `read_csv` raise. |
| `CsvReplay.ReadCsvRaisesOnStrKey` | embark/porter/importer.py:57-63 | A file raises when a 2-field row `[k, v]`, with no earlier row of 3+ fields on `k`, is followed by a row of 3+ fields on `k`. |
| `CsvReplay.ReadCsvRaisesOnStrSubKey` | embark/porter/importer.py:61-66 | A file raises when a 3-field row `[k, s, v]` is followed by a row of 4+ fields on `k` and `s`. |
| `CsvReplay.ReplayCanRaise` | embark/porter/importer.py:50-69 | On a concrete inconsistent file, one pass succeeds but the replay raises `StrItemAssignment`. |
| `Porter.RowInfo` | embark/porter/importer.py:143-155 | The record holds exactly the eleven named columns, each with the field of its index (0, 1, 3 to 11). |
| `Porter.F20Csv` | embark/porter/importer.py:136-159 | The loop returns `F20Spec`: an empty file raises, and otherwise the rows after the header are folded. |
| `Porter.F20Keys` | embark/porter/importer.py:140-158 | The CVEs in the map are exactly column 2 of the rows after the header that have at least 12 fields. |
| `Porter.F20Records` | embark/porter/importer.py:140-158 | If no later full row has the same CVE, that CVE maps to the record of its row: the last row wins. |
| `Porter.F20SkipsShortRow` | embark/porter/importer.py:142-158 | Removing a row of fewer than 12 fields after the header does not change the result. |
| `Porter.F20FoldAppend` | embark/porter/importer.py:141-155 | Folding two parts of a file in sequence is folding the whole. |
| `Porter.MatchEnd` | embark/porter/importer.py:87 | From a digit, the match of `\d+\.?\d*` is a number token, and no longer stretch there is one. |
| `Porter.FirstDigit` | embark/porter/importer.py:87 | This is where the leftmost match starts: the first digit, or none when the string has no digit. |
| `Porter.StripDots` | embark/porter/importer.py:88 | `strip('.')` returns the span of the input between its leading dots and its trailing dots, and that span neither starts nor ends with a dot. |
| `Porter.StripDotsExactly` | embark/porter/importer.py:88 | Any span with only dots outside it and no dot at either end is what `strip('.')` returns. |
| `Porter.TokenStrip` | embark/porter/importer.py:88 | Stripping a number token removes at most one dot, at its end, and leaves a token. |
| `Porter.EntropyDigits` | embark/porter/importer.py:87-88 | It raises iff the string has no digit. Otherwise the result is the stripped greedy match at the first digit: a substring of the input, a token, not ending in a dot. |
| `Porter.EntropyExample` | embark/porter/importer.py:86-88 | `" 7.55 bits per byte."` gives `"7.55"`. |
| `Porter.EntropyOf` | embark/porter/importer.py:83-88 | A missing entropy is the integer 0. A string becomes its extracted number, or raises when it has no digit. A nested value passes on unchanged. |
| `Porter.CountOf` | embark/porter/importer.py:96 | A missing count is 0; a present one is the value in the file. |
| `Porter.F50Record` | embark/porter/importer.py:82-125 | It raises iff the entropy string holds no digit, and the error is then `NoDigits`. Otherwise the entropy is the extracted one, and every one of the 28 counts, the 3 text values and the strcpy listing is the file's value or its default (0, `''`, `{}`). |
| `Porter.F50Spec` | embark/porter/importer.py:80-98 | `f50_csv` passes on a `read_csv` error unchanged. After a successful read it raises `NoDigits` exactly when the entropy string holds no digit, and otherwise the summary holds the extracted entropy. |
| `Porter.F50IgnoresFwPath` | embark/porter/importer.py:82 | Whatever the file holds under `FW_path` does not affect the summary. |
| `Porter.F50CountFromRow` | embark/porter/importer.py:80-96 | In a consistent file, a count is the value of the first 2-field row with its name. |
| `Porter.CsvLogDir` | embark/porter/importer.py:25 | The log directory ends with `/` and starts with the log root. |
| `Porter.TryImport` | embark/porter/importer.py:29-36 | One path: nothing unless it is a file; the f50 importer when the path ends with `f50_base_aggregator.csv`, otherwise the f20 importer when it ends with `f20_vul_aggregator.csv`, otherwise nothing. |
| `Porter.ResultReadIn` | embark/porter/importer.py:18-38 | The loop makes exactly the imports `Imports` lists, in listing order, and returns the last of them, or None. |
| `Porter.DispatchByName` | embark/porter/importer.py:26-36 | For a listed name without `/`, the suffix test on the joined path is the suffix test on the name. |
| `Porter.ImportsAreMatches` | embark/porter/importer.py:27-36 | An import is made iff some entry is a matching file. |
| `Porter.LastMatchWins` | embark/porter/importer.py:24-38 | The returned result is the import of the last matching entry. |
| `Porter.ImportsEmpty` | embark/porter/importer.py:24-38 | No import is made, and None is returned, exactly when no entry matches. |
| `Archive.WithFormatContents` | embark/uploader/archiver.py:27 | Registering adds the format, keeps every format of another name and brings in nothing else. |
| `Archive.WithFormatNames` | embark/uploader/archiver.py:27 | Re-registering a name keeps the supported-format listing; a new name is appended to the registry. |
| `Archive.WithFormatReplaces` | embark/uploader/archiver.py:27 | Re-registering a name held at some index keeps the length and the name at every index. |
| `Archive.WithFormatUnique` | embark/uploader/archiver.py:27 | Registration keeps format names unique. |
| `Archive.WithFormatIdempotent` | embark/uploader/archiver.py:27 | In the name-keyed registry model, registering the same format twice is registering it once. |
| `Archive.UnpackRegistry.Register` | embark/uploader/archiver.py:27 | The registry loop replaces a same-named format where it stands or appends, as `WithFormat` says. |
| `Archive.Archiver.constructor` | embark/uploader/archiver.py:23-27 | Construction registers `("gz", [".gz"], "")` with the shared registry. |
| `Archive.SupportedFormats` | embark/uploader/archiver.py:119 | There is one name per registered format, in registry order. |
| `Archive.SupportedExtensions` | embark/uploader/archiver.py:129-132 | An extension is listed iff some registered format claims it. |
| `Archive.SupportedExtensionsAppend` | embark/uploader/archiver.py:129-132 | The listing is the in-order concatenation of the formats' extension lists. |
| `Archive.CheckExtensions` | embark/uploader/archiver.py:144-149 | It returns true iff some supported extension is a case-sensitive suffix of the name. |
| `Archive.GzNamesSupported` | embark/uploader/archiver.py:144-146 | After the `gz` registration, every name ending in `.gz` has a supported extension. |
| `Archive.StripGz` | embark/uploader/archiver.py:43 | At most three characters are removed, and a name that keeps its length is unchanged. |
| `Archive.StripGzSuffix` | embark/uploader/archiver.py:43 | `stem + g` becomes `stem` for every letter-case spelling `g` of `.gz`. |
| `Archive.StripGzBeforeNewline` | embark/uploader/archiver.py:43 | `stem + g + "\n"` becomes `stem + "\n"`, because `$` matches before a final newline. |
| `Archive.StripGzKeeps` | embark/uploader/archiver.py:43 | A name with the suffix in neither place is unchanged. |
| `Archive.GunzipStemRelative` | embark/uploader/archiver.py:42-43 | The stem holds no `/` and so does not start with one: `os.path.join` keeps it inside `work_dir`. |
| `Archive.GunzipTarget` | embark/uploader/archiver.py:42-47 | For every `work_dir`, the output is the stem inside it: `work_dir + stem` when `work_dir` is empty or ends with `/`, and `work_dir + "/" + stem` otherwise. The stem holds no `/`. |
| `Archive.GunzipStemOf` | embark/uploader/archiver.py:42-43 | The stem of `dir/stem.gz`, with any letter case of `.gz` and `dir` empty or ending in `/`, is `stem`. |
| `Archive.GunzipTargetOf` | embark/uploader/archiver.py:42-47 | `dir/stem.gz`, in any letter case, is written to `stem` inside `work_dir`, with one `/` added only when `work_dir` is non-empty and lacks a trailing one. The input name is taken apart as directory, stem and suffix so that the stem appears in the result. |
| `Archive.UnpackArgs` | embark/uploader/archiver.py:96-99 | The extraction directory is passed on iff it is given and non-empty. |
| `Archive.SplitFirstDot` | embark/uploader/archiver.py:104 | There is no split iff the name has no dot. Otherwise it is the part before the first dot and the rest. |
| `Archive.Unpack` | embark/uploader/archiver.py:95-109 | It returns true iff the call succeeds. A `ReadError` becomes `ValueError`, or `IndexError` for a name without a dot. Any other exception is re-raised unchanged. |
| `Archive.UnpackIntended` | embark/uploader/archiver.py:92-109 | In the corrected mapping, `ValueError` is raised exactly for a `ReadError`. |
| `Archive.UnpackNoDotExample` | embark/uploader/archiver.py:102-105 | `"firmware"` with a `ReadError` escapes as `IndexError` where `ValueError` is meant. |
| `Archive.MakeZipfile` | embark/uploader/archiver.py:70-81 | The loop writes exactly the `ZipEntries` of the walk, in order, and returns `output_filename`. |
| `Archive.ZipEntriesCount` | embark/uploader/archiver.py:73-80 | There is one entry per walked directory plus one per regular file. |
| `Archive.FileEntriesAre` | embark/uploader/archiver.py:76-80 | A directory's file entries are exactly its regular files, with the path and the archive name each joined to the file's name. |
| `Archive.RelName` | embark/uploader/archiver.py:71-75 | A directory's archive name begins with the base name of the source. `RelNameUnderParent` states the whole name. |
| `Archive.RelNameUnderParent` | embark/uploader/archiver.py:70-75 | The source's parent path joined with a directory's archive name is that directory's absolute path, so the name is relative to the parent. |
| `Archive.ArcnameOfFile` | embark/uploader/archiver.py:71-79 | A file's archive name is the components `[base of source] + sub-directories + [file]`. |
| `Strings.Join` | embark/uploader/archiver.py:47 | An absolute second part replaces the first. Otherwise the result is the first part, then one `/` unless the first part is empty or already ends with `/`, then the second part. |
| `Strings.JoinPathConcat` | embark/uploader/archiver.py:71-75 | Joining two non-empty component lists with `/` is joining each and putting one `/` between. |
| `Strings.Tail` | embark/uploader/archiver.py:42 | The last component is a suffix without `/`, preceded by `/` when shorter than the path. |
| `Strings.TailUnderDir` | embark/uploader/archiver.py:42 | The last component of `dir/name` is `name`. |
| `Strings.EndsWithThroughDir` | embark/porter/importer.py:26-34 | When the directory ends in `/` and the suffix holds no `/`, `dir + name` has the suffix iff `name` does. |

## Left out

- The Django ORM is left out: `Result`/`Vulnerability.objects.update_or_create`,
  `FirmwareAnalysis.objects.get` and `res.vulnerability.add`. `F20Csv` returns the CVE map that
  would be stored. `F50Record` returns the summary that would be stored. `ResultReadIn` returns
  which importer was called on which path instead of a database object.
- File opening and `csv.reader` quoting and tokenisation are left out; rows come in as
  `seq<seq<string>>`. `os.listdir` and `os.path.isfile` are left out too: the listing is a
  sequence of names with an is-file flag.
- `float(entropy_value)`, `int(...)` and `json.dumps(strcpy_bin)` are library conversions. The
  model keeps the value that would be converted (`Entropy`, `Count`) and not the conversion or its
  errors.
- `IsDigit`: Python's `\d` also matches non-ASCII decimal digits; only `'0'..'9'` are modelled.
- Exceptions raised inside the importers called from `result_read_in` are not modelled. Its loop
  is modelled assuming every import returns.
- `f10_csv` is an unimplemented stub, and the `__main__` block only prints test output.
- Logging has no effect on results.
- `Archiver.pack` and `Archiver.copy` are thin calls into `shutil.make_archive`, `Path.mkdir` and
  `shutil.copy`. The decompression inside `gunzip_file`, the bytes `zipfile` writes and the work
  inside `shutil.unpack_archive` are also left out. Only the outcome of `unpack_archive` is a
  parameter, as `UnpackCall -> UnpackOutcome`.
- `Archive.UnpackRegistry.Register`: `shutil`'s own checks are not modelled.
  `register_unpack_format` raises `shutil.RegistryError` for an extension that any registered
  format already claims, the format being re-registered included. So a second `Archiver()` raises,
  because `.gz` is already claimed. The model never raises there. It keys the registry by name,
  replacing in place or else appending, and keeps registration order where `shutil` returns the
  formats sorted. The callback stored with a format is not modelled.
- `Archive.WithFormatIdempotent` is a property of the name-keyed model only. In `shutil` the second
  registration raises instead.
- `Archive.MakeZipfile`: the walk is given as input. It is a list of directories, each given as
  components below `source_dir`, with their files and their is-regular flags. `source_dir`'s
  absolute form is given as components, so `os.path.abspath` and the current directory are left
  out. Symbolic links and the walk order are whatever the input says.
- `CsvReplay.ReadCsvIsOnePass` holds only for consistent files, where no key or sub-key is used by
  rows of different lengths. For other files the replay's result is the specification
  `ReadCsvSpec` itself, and `ReplayCanRaise` shows one where the two differ.

## Findings

| source | as written | input that shows it | evidently intended | confidence | as-written member | corrected member |
|---|---|---|---|---|---|---|
| embark/uploader/archiver.py:102-105 | The `ReadError` handler evaluates `file_location.split('.', 1)[1]` for its log message before it raises `ValueError`. | `unpack("firmware")` with an unknown format: `split` returns one part, so `[1]` raises `IndexError`, and that escapes instead of `ValueError`. | Every format error becomes `ValueError`, as the docstring says. | high; not executed | `Archive.UnpackNoDotExample` | `Archive.UnpackIntended` |
