# german-parliament: the plenary minutes parser, in Dafny

This project models `PlenaryMinutesParser` of `src/parse.py`. The parser turns
the XML minutes of the German Bundestag's plenary sessions into one uniform
record per session (`PlenaryMinutes`) and writes the records to a CSV file.
Two XML schemas exist:

- the old one (periods 1 to 18) has a `DOKUMENT` root whose flat children
  `DATUM`, `TITEL`, `TEXT`, `WAHLPERIODE`, `DOKUMENTART` and `NR` hold the fields;
- the new one (period 19) has a `dbtplenarprotokoll` root. Its attributes hold
  the date and the numbers. The title and the text are the whole character
  data of two nested subtrees.

The model starts from an already parsed element tree. Its modules:

- `Wrappers`: `Option` and `Result`.
- `Strings`: the Python string operations the parser uses (`split`, `join`,
  `[-1]` of a split, `''.join`, one-character `replace`, `int()` and `str()`
  on decimals, zero padding).
- `Dates`: `datetime.date` with its range checks, `time.min`,
  `datetime.combine`, and `str()` of a date and of a date-time.
- `ElementTree`: the element datatype and `find`, `get` and `itertext`.
  `find` is given a reference meaning (going down through tagged children)
  and `itertext` another (the character data between a start tag and the
  matching end tag, read left to right). A lemma ties each one to its
  reference.
- `Csv`: the values a row dictionary holds, `str()` of each, and a
  `DictWriter` class whose `rows` field collects what is written.
- `Parser`: the record, `asdict`, `parse_date`, `clean_text`, both
  extractors, `parse`, `parse_all` and `save_as_csv`.
- `ParserLemmas`: what these promise.

Python exceptions become the `Parser.Error` values of a `Result`. An unusable
`find` result is `NoSuchElement`. A `None` reaching `split`, `replace` or
`int` is `NoneValue`. The other errors are `NotAnInteger`, `WrongFieldCount`,
`InvalidDate`, `UnrecognizedRoot`, and `DebuggerFallback` for the new
schema's date handler (see below).

The model follows the code as written; in particular:

- `parse_all` has no per-file recovery. The first file that fails makes the
  whole batch fail with that file's error (`Parser.ParseAll`).
- The old schema copies `TITEL` and `DOKUMENTART` texts unchecked, so the
  record's `title` and `type` are `None` for an empty element. They are
  `Option<string>` in the model, and `None` becomes an empty CSV cell.
- A missing old-schema element is an `AttributeError` on `None`, not a named
  missing-field error. The model's `NoSuchElement` carries the path that was
  looked up.
- The new schema catches every date failure and stops in `pdb.set_trace()`.
  When execution resumes, `date` is unbound and the function fails. The model
  makes this the error `DebuggerFallback(cause)`, with the date error as cause.
- A missing `wahlperiode` or `sitzung-nr` attribute is `int(None)`, a
  `TypeError`. The model reports it as `NoneValue("int")`.
- `parse_date` accepts zero-padded components (`01.12.2019`). It also accepts
  any number of digits per component, up to the length limit of `int()` (see
  `Parser.Int` under "## Left out"), as long as the resulting date is valid.

## Model

| member | source | states |
|---|---|---|
| Parser.AsDict | src/parse.py:29-38 | the dictionary has exactly the seven column names as keys, so `writerow` accepts it; the cells it gives are stated by `Parser.CsvRowColumns` |
| Parser.Int | src/parse.py:105-107 | `int(x)` succeeds exactly on a decimal string (of any length; see "## Left out") and gives its value; `None` is the `TypeError` case and any other string the `ValueError` case naming it |
| Parser.ParseDate | src/parse.py:119-126 | a parsed date is valid; a missing string fails in `split`; the failures are never about elements, the debugger or the root (the exact condition is `ParserLemmas.ParseDateSpec`) |
| Parser.ParseOldFormat | src/parse.py:69-89 | every record has a valid date, a midnight timestamp of it and a text without line breaks; it never fails with a debugger fallback or an unknown root (field by field: `ParserLemmas.OldFormatFieldMapping`) |
| Parser.ParseNewFormat | src/parse.py:91-117 | every record has a valid date, a midnight timestamp of it, a text without line breaks, a title, and the root's tag as type; it never fails with an unknown root (field by field: `ParserLemmas.NewFormatFieldMapping`) |
| Parser.Parse | src/parse.py:49-61 | a record comes only from a `DOKUMENT` or `dbtplenarprotokoll` root and has the record invariants; the unknown-root error naming the file occurs exactly when the tag is neither |
| Parser.PathJoin | src/parse.py:134 | `os.path.join` on POSIX (`posixpath.join`): the joined path ends with the file name; an absolute name replaces the directory; otherwise it is the directory followed by the name, with a `/` just before the name when the directory is non-empty; that `/` is added only when the directory does not already end in one |
| ElementTree.Find | src/parse.py:73-79 | an element found carries the last tag of the path; a path without `/` looks only among the children (reference meaning: `ElementTree.FindDescends`) |
| ElementTree.IterText | src/parse.py:100-104 | no fragment `itertext` yields is empty (their concatenation is stated by `ElementTree.IterTextIsDocumentText`) |
| Parser.CleanText | src/parse.py:128-130 | the result has no line break; it is longer by one character per line break; it is the input itself when the input has no line break |
| ParserLemmas.CleanTextIsEscaping | src/parse.py:130 | cleaning works piecewise over a concatenation; a line break becomes the two characters `\` `n`; every other character is kept |
| ParserLemmas.CleanTextLineBreak | src/parse.py:128-130 | a two-line text becomes its two lines joined by a literal `\n` |
| Parser.IntAll | src/parse.py:125 | the comprehension `[int(x) for x in parts]` succeeds exactly when every part is decimal; each value is its part's number; otherwise the error names the first part that is not decimal |
| ParserLemmas.ParseDateSpec | src/parse.py:119-126 | `parse_date` succeeds exactly on three dot-separated decimal components that form a valid date as day, month, year; the date has exactly those components and is valid |
| ParserLemmas.ParseDateComponents | src/parse.py:125-126 | for any three decimal components joined by dots, the result is the date of those numbers when it is valid and `InvalidDate` of them otherwise |
| ParserLemmas.ParseDateRoundTrip | src/parse.py:119-126 | every valid date, written as `day.month.year`, parses back to itself |
| ParserLemmas.ParseDateZeroPadded | src/parse.py:122-126 | `01.12.2019` parses to 2019-12-01, so leading zeros are accepted |
| ParserLemmas.ParseDateNoFebruary31 | src/parse.py:126 | `31.2.2020` fails with `InvalidDate(2020, 2, 31)` |
| ParserLemmas.ParseDateCenturyNotLeap | src/parse.py:126 | `29.2.1900` fails: 1900 is not a leap year |
| ParserLemmas.ParseDateQuadricentennialLeap | src/parse.py:126 | `29.2.2000` parses: 2000 is a leap year |
| ParserLemmas.ParseDateFieldCount | src/parse.py:125 | `1.12` fails with two fields instead of three; a missing string fails in `split` |
| ParserLemmas.ParseDateErrorKinds | src/parse.py:125-126 | `parse_date` fails only in `split`, in `int`, in unpacking the three fields or in `date()` |
| ParserLemmas.OldFormatFieldMapping | src/parse.py:69-89 | the old extractor succeeds exactly when all six children exist and the date, `TEXT`, `WAHLPERIODE` and `NR` texts are usable; on success: the date is `DATUM`'s, at midnight; the title is `TITEL`'s text; the text is `TEXT` cleaned, with no line break; the period is `int(WAHLPERIODE)`; the type is `DOKUMENTART`'s text; the session number is the integer after the last `/` of `NR` |
| ParserLemmas.OldFormatErrors | src/parse.py:73-79 | a missing `DATUM` is reported as such; a missing-element error always names one of the six children, and that child is absent; the old extractor never reports a debugger fallback or an unknown root |
| ParserLemmas.OldFormatMissingChild | src/parse.py:73-79 | any one of the six children missing makes the old extractor fail |
| ParserLemmas.SessionNumberAfterLastSlash | src/parse.py:79 | for `NR` = anything + `/` + digits, the session number is the digits' value (`18/5` gives 5) |
| ParserLemmas.NewFormatFieldMapping | src/parse.py:91-117 | the new extractor succeeds exactly when the date attribute parses, both subtrees exist and both number attributes are decimal; on success: the date is at midnight; the title is all the character data inside the title element in document order; the text is the same flatten of `sitzungsverlauf`, cleaned; the type is the root's tag; the numbers are `int` of `wahlperiode` and `sitzung-nr` |
| ParserLemmas.NewFormatErrors | src/parse.py:94-107 | a date that does not parse gives the debugger fallback carrying the date error; a missing-element error names the title path or the body, and that element is absent; the new extractor never reports an unknown root |
| ParserLemmas.TitlePathTags | src/parse.py:100-101 | `find('vorspann/kopfdaten/sitzungstitel')` finds what its three tags find: the first element reached through those children in turn |
| ParserLemmas.BodyPathTags | src/parse.py:102-104 | `find('sitzungsverlauf')` is the first `sitzungsverlauf` child |
| ParserLemmas.DispatchRouting | src/parse.py:53-59 | a `DOKUMENT` root goes to the old extractor and a `dbtplenarprotokoll` root to the new one; the unknown-root error naming the file occurs exactly when the tag is neither; a record implies one of the two tags |
| ParserLemmas.ParsedRecordInvariants | src/parse.py:49-61 | every record `parse` yields has a valid date, a timestamp at midnight of that date, and a text without line breaks |
| Parser.ParseAll | src/parse.py:63-67 | the batch succeeds exactly when every file parses; it then gives one record per file, in file order, each the file's own record; otherwise it fails with the error of the first failing file, after files that all parsed |
| ParserLemmas.FlatDocumentParses | src/parse.py:69-89 | a flat old-schema document with a date string, a decimal period and an `NR` ending in `/digits` parses to the record of its own texts |
| ParserLemmas.LegacyExample | src/parse.py:69-89 | the legacy document with `01.12.2019`, `Sitzung 5`, a two-line text, `18`, `Plenarprotokoll` and `18/5` gives 2019-12-01 at midnight, period 18, session 5, that type, and the text with a literal `\n` |
| ParserLemmas.LegacyExampleRow | src/parse.py:132-148 | that record's CSV row is `2019-12-01`, `2019-12-01 00:00:00`, the title, `18`, the type, the text, `5` |
| Parser.CsvRowColumns | src/parse.py:136-148 | a record's row holds, in the order date, datetime, title, period, type, text, period_number: `str(date)`, `str(datetime)`, the title or empty for `None`, the period, the type or empty for `None`, the text, the session number |
| Parser.CsvRowsInOrder | src/parse.py:147-148 | one row per record, in record order, each the record's own row |
| Parser.SaveAsCsv | src/parse.py:132-150 | the returned path is `path` joined with `plenary-minutes.csv`; the file holds the header row of the seven column names followed by each record's row, in order |
| Parser.PathJoinFileName | src/parse.py:134 | the last path component of the returned path is `plenary-minutes.csv`, whatever the directory |
| ParserLemmas.RecordRow | src/parse.py:145-148 | for a record with those invariants, the row has seven cells; the date cell is ten characters `YYYY-MM-DD` that read back as the date; the datetime cell is the date cell followed by ` 00:00:00`; the text cell has no line break (the title and type cells are not escaped and may hold one) |
| Csv.DictWriter.constructor | src/parse.py:145 | a new writer has the given field names and has written nothing |
| Csv.DictWriter.WriteHeader | src/parse.py:146 | appends the row of field names and changes nothing else |
| Csv.DictWriter.WriteRow | src/parse.py:148 | accepts a row exactly when all its keys are field names; then it appends the cells in field-name order, with empty cells for missing keys; otherwise nothing is written |
| ElementTree.IterTextIsDocumentText | src/parse.py:100-104 | `''.join(e.itertext())` at any nesting depth is the character data between `e`'s start tag and its own end tag, in document order, with `e`'s tail left out |
| ElementTree.FindChild | src/parse.py:73-79 | `find(tag)` for one tag gives a result exactly when some child has the tag, and then it is the first such child |
| ElementTree.FindChildAt | src/parse.py:73-79 | the first child carrying a tag is what `find(tag)` returns |
| ElementTree.FindDescends | src/parse.py:100-101 | `find` on a multi-step path is the first element reached by going down through children bearing each tag in turn |
| ElementTree.IterFindIsDescent | src/parse.py:100-101 | applying the path steps one after the other reaches exactly the descent's elements, in the same order |
| ElementTree.FindJoinedPath | src/parse.py:100-101 | a path written as its tags joined by `/` finds what those tags find |
| Dates.MidnightFormat | src/parse.py:74 | a date at `time.min` is written as the date followed by ` 00:00:00` |
| Dates.IsoFormatReadsBack | src/parse.py:148 | `str()` of a valid date is ten characters with `-` at positions 4 and 7, and its groups read back as year, month and day |
| Strings.JoinSplit | src/parse.py:125 | joining the pieces of a split with the same separator gives back the string |
| Strings.SplitJoin | src/parse.py:125 | splitting a join of separator-free pieces gives back the pieces |
| Strings.LastPartIsFinalPiece | src/parse.py:79 | `s.split(sep)[-1]` is separator-free, is a suffix of `s`, and is preceded by the separator when it is not all of `s` |
| Strings.LastPartAfterSeparator | src/parse.py:79 | the last piece of `p + sep + r` is `r` when `r` has no separator |
| Strings.DecimalRoundTrip | src/parse.py:125 | `int(str(n)) == n` |
| Strings.DecimalCanonical | src/parse.py:125 | a decimal without a leading zero is `str()` of its own value |
| Strings.LeadingZerosIgnored | src/parse.py:125 | leading zeros do not change the number a digit string denotes |
| Strings.ReplaceCharFacts | src/parse.py:130 | no replaced character survives; the length grows by `len(r) - 1` per occurrence; a string without the character is unchanged |
| Strings.ZeroPadReadsBack | src/parse.py:148 | a zero-padded number that fits is exactly the width long and reads back as the number |

## Left out

- Raw XML parsing (`ET.parse(file_path).getroot()`): the model starts from the parsed root, paired with its path in `Parser.InputFile`. Comments, processing instructions and namespaces do not occur in the element datatype.
- ElementPath beyond plain tags (`*`, `.`, `//`, predicates, a trailing `/` (read as `/*`), a leading `/` (a SyntaxError)): the parser uses none of them, and `ElementTree.Find` treats an empty step as a tag like any other. The parser's own paths are given as their tags (`Parser.TitlePath`, `Parser.BodyPath`). `ParserLemmas.TitlePathTags` and `ParserLemmas.BodyPathTags` show these equal the source's path strings.
- `Parser.Int`: does not model the leniency of Python's `int()`, which also accepts surrounding whitespace, a sign, underscores and non-ASCII Unicode decimal digits (`int('١٢') == 12`); only ASCII decimal digit strings (zero padding allowed) convert. Nor does it model the limit on the string's length (`sys.int_max_str_digits`, 4300 digit characters by default, leading zeros included), beyond which `int()` raises ValueError; the model converts digit strings of any length.
- `Parser.SaveAsCsv`: the default argument `path='../data/'` is not modelled; the directory is always passed.
- `Parser.ParseNewFormat`: the interactive `pdb.set_trace()` session is not modelled; a date failure ends in the `DebuggerFallback` error.
- The CSV file itself: opening and writing the file, and the `csv` module's quoting, are I/O and library code. `Parser.SaveAsCsv` returns the rows the file would hold, as lists of cell texts before quoting.
- `tqdm` progress bars, `logging`, `glob` file discovery and `main()`: orchestration and I/O.
- `PlenaryMinutes.tokens`: it raises `NotImplementedError`.
- `src/download.py`, `src/analyze.py`, `src/script.py` and the test files: network, file-system and pandas code that is not part of this model.
