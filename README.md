# China Study raw data conversion, modelled in Dafny

This project models the conversion step of the China Study raw-data repository,
`src/convert.py`. The step has three parts:

- **The column-name dictionary `ColNames`.** It is built from the two-line
  records of the `CHNAME.TXT` listing. Each record has an original column name,
  a short "nice" name and a description. The class keeps three `OrderedDict`s:
  original → nice, nice → original, and nice → description.
- **The cell rule of `convert_column`.** A cell that is `"."` or blank after
  stripping is missing (NaN). Any other cell is passed to the numeric parse.
- **The header step of `extract_dataset`.** For every CSV file it:
  - drops a trailing blank dummy column;
  - strips the column names;
  - rejects any name that is neither a key column (`County`, `Sex`, `Xiang`)
    nor a known original name;
  - converts and renames every data column;
  - refuses a dataset that has no files.

Files:

- `wrappers.dfy`: `Option` and `Result`.
- `py_str.dfy`: Python's `str.isspace`, `strip`, `split()`, `" ".join` and
  `replace` of one character, with their laws.
- `ordered_dict.dfy`: an `OrderedDict` with string keys, as a key order plus a map.
- `convert.dfy`: the conversion itself.

Python's exceptions become values:

- A getter's `KeyError` is `None`.
- The `ValueError`s are `Error.ColumnNameExists` and `Error.UnexpectedColumn`.
- The `IndexError` of `df.columns[-1]` on a frame without columns is `Error.NoColumns`.
- The `TypeError` of `reduce` over an empty list of frames is `Error.NoFiles`.

`ColNames` is a class with the three dictionaries as fields:

- The constructor makes the empty dictionaries.
- `Load` runs the body of `__init__` over the lines of the listing.
- `Load` and `AddRecord` are proved against the pure function `Parse`, which is
  a fold (`Build`) over the entries of the records. The properties are proved
  about `Build`.

The per-file loop and the per-column loop of `extract_dataset` are the methods
`NormalizeFiles` and `RenameColumns`. They are proved against the functions
`Collect` and `NormalizedFrame`.

One detail of the record rule deserves a note. The two lines of a record are
joined as the first line, then the second without its first four characters
and stripped, and only then are the newlines removed. So when the first line
ends directly in its newline, its last word and the first word of the second
line run together. `JoinPair` models exactly this.

## Model

| member | source | states |
|---|---|---|
| Convert.EveryOtherAt | src/convert.py:36-37 | `lines[start::2]` has `(len - start + 1) / 2` elements, and element k is `lines[start + 2k]` |
| Convert.ZipAt | src/convert.py:41 | `zip` stops at the shorter list and pairs the elements at the same index |
| Convert.JoinRecordsAt | src/convert.py:36-42 | there are `len(lines) // 2` records, a trailing odd line is dropped, and record k joins line 2k with line 2k+1 cut after four characters and stripped, with every newline removed |
| Convert.RecordEntryFields | src/convert.py:44-49 | a record yields an entry iff it has at least two fields; the original name is the first field, a non-empty word; the nice name is its first character, `_` and the second field; the description's words are exactly the remaining fields, and it is empty iff there are exactly two fields |
| Convert.AddEntry | src/convert.py:50-56 | adding one entry keeps the three dictionaries consistent: the same order, and each original and nice name mapped to the other |
| Convert.Build | src/convert.py:44-56 | the parse loop, when it succeeds, leaves consistent dictionaries |
| Convert.BuildContents | src/convert.py:44-56 | the listing loads iff no original name and no nice name occurs twice; on success the original names, in file order, are the keys of `nice_names`, the nice names are the keys of `orig_names` and `descriptions`, and each entry's names map to each other and its nice name to its description, so no entry is overwritten |
| Convert.BuildErrStays | src/convert.py:50-53 | once a duplicate has raised, the records after it cannot change the outcome |
| Convert.FirstErrorStays | src/convert.py:44-53 | the error of a prefix of the records is the error of the whole listing |
| Convert.ColNames.constructor | src/convert.py:30-32 | a new `ColNames` starts with three empty, consistent dictionaries |
| Convert.ColNames.Load | src/convert.py:27-56 | loading fails iff the listing has a duplicate name, with the first duplicate's error; otherwise the dictionaries become exactly `Parse(lines)`, which is consistent |
| Convert.ColNames.AddRecord | src/convert.py:45-56 | one iteration: a record with fewer than two fields changes nothing; a repeated original or nice name raises, original name checked first; otherwise the three dictionaries are extended as `Step` says |
| Convert.OrigNiceRoundTrip | src/convert.py:58-62 | `get_nice_name` succeeds exactly on the names listed by `get_orig_names` (`KeyError` otherwise), and `get_orig_name(get_nice_name(o)) == o` |
| Convert.NiceOrigRoundTrip | src/convert.py:58-71 | `get_orig_name` succeeds exactly on `get_nice_names`; `get_description` succeeds exactly where `get_orig_name` does; `get_nice_name(get_orig_name(n)) == n`; both listings have the same length |
| Convert.ConvertCell | src/convert.py:74-78 | a cell is missing iff it is `"."` after stripping or all whitespace; otherwise the value is the stripped text, which is neither `"."` nor padded |
| Convert.ConvertCellStable | src/convert.py:74-78 | converting an already converted value's text changes nothing |
| Convert.FirstUnexpectedSpec | src/convert.py:103-105 | the search finds the first column that is neither a key column nor a known original name, or runs off the end when there is none |
| Convert.KeptAt | src/convert.py:94-95 | dropping the dummy column removes exactly the last column when its stripped name is blank and keeps every other column in place |
| Convert.RenamedFrameSpec | src/convert.py:101-108 | the schema check fails iff some column is not allowed, naming the first such column; on success each data column is converted and renamed to its nice name and each key column is kept unchanged, in the same positions |
| Convert.NormalizedFrameSpec | src/convert.py:93-108 | a frame without columns fails; otherwise the header step succeeds iff every kept, stripped name is allowed, fails with the first name that is not, and on success gives one column per kept column, with the data columns under their nice names as converted cells and the key columns untouched |
| Convert.RenameColumns | src/convert.py:101-108 | the in-place loop over the columns computes the renamed frame or the first unexpected name |
| Convert.NormalizeColumns | src/convert.py:93-108 | one file's header step computes `NormalizedFrame` |
| Convert.CollectSpec | src/convert.py:88-111 | the files succeed iff every file does, giving their frames in order; otherwise the error is the first failing file's |
| Convert.NormalizeFiles | src/convert.py:88-111 | the loop over the files computes `Collect` of the per-file results, with one frame per file on success |
| Convert.ExtractDataset | src/convert.py:81-114 | a duplicate in the listing fails first; then no files is an error; otherwise the result is that of the files under the loaded names |
| PyStr.LStripSpec | src/convert.py:40 | `lstrip` removes a prefix made only of whitespace and leaves text that does not start with whitespace |
| PyStr.RStripSpec | src/convert.py:40 | `rstrip` removes a suffix made only of whitespace and leaves text that does not end with whitespace |
| PyStr.StripUnique | src/convert.py:98 | stripping whitespace padding off trimmed text gives that text exactly |
| PyStr.StripEmpty | src/convert.py:94 | a string strips to `""` iff it is all whitespace |
| PyStr.StripIdempotent | src/convert.py:76 | stripping twice is stripping once |
| PyStr.SplitJoin | src/convert.py:45-49 | splitting the space-join of non-empty, space-free words gives the words back |
| PyStr.JoinTrimmed | src/convert.py:49 | the space-join of words is empty iff there are no words, and it is never padded |

## Left out

- File I/O is not modelled: `get_data_path`, `open(...).readlines()`, `glob` and the sorting of its paths, `pd.read_csv`, `to_csv`, `main` and `DATASETS`. The listing's lines and each file's columns are parameters.
- The `print` calls are not modelled; they are output only.
- `pd.merge` over `County`, `Sex` and `Xiang` is not modelled; it is pandas' join algorithm. `ExtractDataset` returns the list of normalized frames that `reduce` would merge; the empty list is the modelled `TypeError`.
- ConvertCell: the `astype(float)` parse is not modelled, because floating point is out of scope. A `Value` keeps the stripped text, so the `ValueError` for text that is not a number is not raised.
- `read_csv`'s own handling is not modelled: its NA detection, its dtype inference, and the `AttributeError` of `.str` on a column pandas already read as numbers. Every cell is text.
- RenameColumns: renames by position. This matches pandas for the unique labels `read_csv` produces. Two columns whose names become equal after stripping are not modelled. Neither is a nice name that equals a later original name, where `rename` by label would also hit the later column.
- The text is Python 3 `str` with its whitespace set. Under Python 2, `readlines` gives byte strings and `split`/`strip` use ASCII whitespace only.
- `from __future__` imports, `os.path` handling and the rest of the repository, including `src/analyze.py`, are not part of this model.
