# csvtoron — a Dafny model of the type-inferring CSV-to-RON conversion

csvtoron reads a CSV file and writes a RON document whose name is derived from the CSV
file's path. Each data record becomes a
map from header label to a typed cell. This project models the conversion core:

- `matcher` is the cell classifier. It tries `str::parse::<f64>` first, then `str::parse::<u64>`.
  If neither succeeds, the cell stays `Str` with its text unchanged.
- `convert` is the document assembler. It walks the header iterator alongside each record's
  fields. Each `label -> matcher(field)` pair goes into a fresh map, and the map is pushed
  onto the output in record order.
- The name computation of `create_ron_file` takes the text before the first `.` of the
  input file name and appends `.ron`.

Modules, one per component:

- `Wrappers` (`wrappers.dfy`): `Option` and `Result`.
- `Strings` (`strings.dfy`): `FindFirst`, plus `Split` as `str::split` with a `char`
  separator, and `Join`, which undoes it (`Join(Split(s)) == s`; the converse need not hold).
- `RustNumbers` (`rust_numbers.dfy`): the two standard-library parsers.
  - `ParsesF64` is the grammar that Rust documents for `f64::from_str`:
    `Sign? ('inf' | 'infinity' | 'nan' | Number)`. It is matched case-insensitively and
    models syntax only, never a float value.
  - `ParseU64` is the checked digit loop of `u64::from_str`: an optional `+`, decimal
    digits, and failure on overflow past `u64::MAX`.
- `Cells` (`cells.dfy`): `OutType`, `Default`, and `Matcher`. The `F64` payload is the cell's
  literal text, not a float.
- `Conversion` (`conversion.dfy`): `Csvinput`, `OutRecord`, `Ronfile` and the `Convert`
  method.
  - The method has nested loops over `seq<seq<string>>` and builds `map<string, OutType>`
    values in a `seq`.
  - The panic of `field.next().unwrap()` is the outcome `Panicked(row)`.
  - `IsOutRecord` describes one output map independently of the loop, through `Zipped`
    (what a sequence of inserts leaves in a map). `OutRecordUnique` proves that this
    description determines the map.
- `RonName` (`ron_name.dfy`): `RonFileName`, the pure part of `create_ron_file`.

The main results:

- Float-first precedence makes `U64` unreachable. Whatever `u64` accepts, `f64` accepts too,
  so every cell is either `F64(text)` or `Str(text)` (`Cells.Matcher`).
- `Convert` yields one map per record, in order. Each map's key set is the labels of that
  record's fields, and a repeated label keeps the value of its last field.
- In `convert`, a record longer than the header panics. A shorter one yields only the first
  `|record|` labels.
- The output name always exists, so the "Failed to get the ron filename" branch is dead.

`src/main.rs` holds a verbatim copy of the same logic, and one model serves both files. The
table cites `src/lib.rs`. The `src/main.rs` counterparts are:

- `OutType`: 65-71
- `Default`: 73-77
- `matcher`: 88-96
- `convert`: 98-112
- the name computation: 52-56

Three behaviours of the code worth stating plainly:

- A record longer than the header makes `convert` panic at `field.next().unwrap()`.
  `convert` itself accepts a shorter record and gives it fewer keys. This is about `convert`
  taken alone: in the whole program, `csvreader` reads with the `csv` crate's default
  non-flexible mode. That mode rejects any record whose length differs from the header's,
  and the `.unwrap()` at src/lib.rs:49 panics before `convert` runs. So from `to_ron`
  (src/lib.rs:142-143), `convert`'s own panic at src/lib.rs:115 is never reached.
- A file name with no `.` is still named: `data` becomes `data.ron`.
- The cut at the first `.` applies to the whole path, so a `.` in a directory name moves the
  output elsewhere (see "## Findings").

## Model

| member | source | states |
|---|---|---|
| `Cells.MatcherFloatFirst` | src/lib.rs:97-99 | a cell is classified `F64` exactly when `f64` parsing accepts it (however it might parse otherwise), and the `F64` carries the cell text |
| `Cells.MatcherNeverU64` | src/lib.rs:100-101 | `U64` needs `f64` parsing to fail and `u64` parsing to succeed; since that never happens, no cell is ever `U64` |
| `Cells.MatcherTextFallback` | src/lib.rs:102-103 | a cell is `Str` exactly when neither parser accepts it, and then it holds the identical text |
| `Cells.Matcher` | src/lib.rs:97-105 | for every cell, the classification is `F64(cell)` if `f64` parsing accepts it and `Str(cell)` otherwise: the `u64` branch is dead and no text is lost |
| `Cells.Default` | src/lib.rs:80-84 | `OutType::default()` is the value an empty cell is classified as |
| `Cells.EmptyCellIsDefault` | src/lib.rs:80-84 | `OutType::default()` is `Str("")`, and an empty cell is classified as that same value |
| `Cells.IntegersAreFloats` | src/lib.rs:98-99 | a nonempty digit string, bare or with `+` or `-`, is classified `F64` and never as an integer |
| `Cells.WordsAreText` | src/lib.rs:102-103 | a cell whose first character starts no number (not a digit, sign, `.`, or the first letter of `inf`/`nan`) is `Str` of its own text |
| `RustNumbers.ParsesF64` | src/lib.rs:98 | `f64` parsing succeeds on the documented grammar (an optional sign, then `inf`, `infinity`, `nan` or a decimal number with optional exponent), case-insensitively; an accepted string is `inf`, `infinity` or `nan` up to sign and case, or holds a digit |
| `RustNumbers.ParseU64` | src/lib.rs:100 | whatever `u64` parsing accepts is an optional `+` followed by digits, and the result is the value of those digits |
| `RustNumbers.Accumulate` | src/lib.rs:100 | the checked digit loop succeeds only on all-digit input, and its result is never below the starting value |
| `RustNumbers.U64ParseImpliesF64Parse` | src/lib.rs:98-101 | every string that `u64` parsing accepts is accepted by `f64` parsing |
| `RustNumbers.UnsignedIsFloat` | src/lib.rs:98-100 | an optional `+` followed by one or more digits matches the `f64` grammar |
| `RustNumbers.ParseU64Meaning` | src/lib.rs:100 | `u64` parsing succeeds exactly on an optional `+` followed by digits whose value is at most `u64::MAX`, and then returns that value |
| `RustNumbers.AccumulateValue` | src/lib.rs:100 | the checked multiply-by-ten digit loop computes `acc * 10^n + value`, and fails exactly on a non-digit or a result above `u64::MAX` |
| `RustNumbers.U64Examples` | src/lib.rs:100 | `+42` parses as 42; `-1` and the empty string do not parse as `u64` |
| `Conversion.Convert` | src/lib.rs:108-121 | panics exactly when some record is longer than the header, and then at the first such record; otherwise yields one map per record, in input order, each satisfying `IsOutRecord` (keys are the labels of the record's fields; each label holds `matcher` of its last field) |
| `Conversion.ZipStep` | src/lib.rs:114-117 | one `insert` of the next label and value extends what the map holds by exactly that position: the keys gain the label, and the label now holds the new value |
| `Conversion.HasLastOccurrence` | src/lib.rs:113-118 | every label inserted while walking a record has a last position among its fields |
| `Conversion.OutRecordUnique` | src/lib.rs:111-119 | the description of an output map determines it: one record yields exactly one map |
| `Conversion.LaterDuplicateWins` | src/lib.rs:114-117 | when a label repeats, the later field's value is the one stored, and the earlier field's is not |
| `Conversion.DistinctLabelsCount` | src/lib.rs:113-118 | `n` distinct header labels give a key set of exactly `n` labels |
| `Conversion.DistinctLabelsZip` | src/lib.rs:113-118 | with distinct labels, field `i` is stored under `header[i]`, and a record of `n` fields gives a map of `n` entries |
| `Conversion.ShortRecordKeys` | src/lib.rs:113-115 | every key of an output map is the label of one of the record's own fields, so a short record gets only its first labels |
| `Conversion.TwoFieldRecord` | src/lib.rs:111-118 | a two-field record under two distinct labels becomes the two-entry map of its classified fields |
| `Conversion.NameAgeRecord` | src/lib.rs:108-121 | under header `name,age`, record `Alice,30` becomes `{name: Str("Alice"), age: F64("30")}` |
| `Conversion.EmptyFieldRecord` | src/lib.rs:108-121 | under header `id,label`, record `1,` becomes `{id: F64("1"), label: Str("")}` |
| `Conversion.RepeatedLabelRecord` | src/lib.rs:114-117 | two fields under one repeated label give a one-entry map holding the second field's value |
| `Conversion.RepeatedLabelExample` | src/lib.rs:114-117 | under header `a,a`, record `x,y` becomes `{a: Str("y")}` |
| `RonName.RonFileName` | src/lib.rs:57-61 | the error branch is never taken; the name is the text before the first `.` plus `.ron` |
| `RonName.RonFileNameStem` | src/lib.rs:57-61 | the stem is a prefix of the file name that contains no `.` and is followed by a `.` whenever it is shorter than the name |
| `RonName.DotFreeName` | src/lib.rs:57-61 | a name without a `.` gives `name + ".ron"` |
| `RonName.FirstDotName` | src/lib.rs:57-61 | the name is cut at its first `.`, whatever follows it (`data.v2.csv` gives `data.ron`) |
| `RonName.CutAtFirstDot` | src/lib.rs:57-61 | a name `before.after` with no `.` in `before` gives `before.ron`, so `my.dir/data.csv` gives `my.ron` |
| `RonName.DottedPathName` | src/lib.rs:57-61 | a path whose first directory starts with `.` gives `.ron`: `./data.csv` gives `.ron` |
| `RonName.RonFileNameInDirectory` | src/lib.rs:124-126 | the corrected name keeps the csv file's directory part unchanged and appends a plain file name (no `/`, no `.`) that is the csv file's own name cut at its first `.`, plus `.ron` |
| `RonName.InDirectoryAgreesOnPlainNames` | src/lib.rs:57-61 | on a name without a directory part, the corrected name equals the one the code computes |
| `Strings.FindFirst` | src/lib.rs:57 | the position found is the first of a stop character, or the length when there is none |
| `Strings.Split` | src/lib.rs:57 | `split` yields at least one piece, the first piece is the text before the first separator, and no piece holds the separator |
| `Strings.JoinSplit` | src/lib.rs:57 | splitting loses nothing: re-joining the pieces with the separator gives the input back |

## Left out

- `get_file_content` (src/lib.rs:11-26): opening and reading the file and UTF-8 decoding are I/O.
- `csvreader` (src/lib.rs:36-53) is a wrapper around the `csv` crate, whose code is not part
  of this model. That crate handles RFC 4180 quoting, `Trim::All`, and the rejection of
  unequal row lengths in its default non-flexible mode. Its output enters the model as the
  `CsvInput` argument of `Convert`, which may hold any records at all.
- `File::create` and `BufWriter` in `create_ron_file` (src/lib.rs:63-67) are I/O. Only the name
  is modelled.
- RON serialization (`to_writer_pretty`, `PrettyConfig`, serde's `untagged`; src/lib.rs:145-151)
  is a foreign library.
- `to_ron` (src/lib.rs:140-153) and `main` (src/main.rs:114-132) chain I/O steps.
  `main`'s argument-count check is command-line plumbing.
- `examples/converter.rs` is command-line plumbing. It calls `csvtoron::master`, which the
  library does not define.
- Float semantics are left out: the numeric value of a float, rounding, and the value that
  `inf`/`nan` denote. `ParsesF64` models which strings parse and nothing more; it is the
  grammar of current Rust releases.
- `HashMap` iteration order carries no meaning, so an output record is a Dafny `map`.
- Ownership and moves (`convert` consumes its `Csvinput`) have no counterpart. Dafny values
  are immutable.
- `RonName.RonFileNameInDirectory` treats only `/` as a path separator. Windows `\`
  separators and `std::path` parsing are not modelled.

## Findings

| source | as written | input that shows it | evidently intended | confidence | as-written member | corrected member |
|---|---|---|---|---|---|---|
| src/lib.rs:57 | `filename.split('.').next()` cuts the whole path at its first `.`, directory part included | `./data.csv` gives `.ron`; `my.dir/data.csv` gives `my.ron` | the output lies in the csv file's directory and is named after the csv file (doc comment at src/lib.rs:124-126) | not executed | `RonName.DottedPathName` | `RonName.RonFileNameInDirectory` |
