/** `PlenaryMinutesParser` of src/parse.py: one uniform record per plenary
    minutes document, whichever of the two XML schemas the document uses. The
    old schema (periods 1 to 18) has a `DOKUMENT` root with flat children; the
    new one (period 19) has a `dbtplenarprotokoll` root whose attributes hold
    the date and numbers and whose nested markup holds the title and text. */
module Parser {
  import opened Wrappers
  import Strings
  import Dates
  import ET = ElementTree
  import Csv

  // ---------------------------------------------------------------------------
  // The record

  /** `PlenaryMinutes`. The old schema copies the title and the type straight
      from an element's text, which is `None` for an empty element. */
  datatype PlenaryMinutes = PlenaryMinutes(
    title: Option<string>,
    date: Dates.Date,
    datetime: Dates.DateTime,
    text: string,
    period: nat,
    docType: Option<string>,
    periodNumber: nat)

  function OptionValue(s: Option<string>): Csv.Value
  {
    match s
    case Some(v) => Csv.StrValue(v)
    case None => Csv.NoneValue
  }

  /** A record as `parse` produces it: a valid date, a timestamp at midnight
      of that date, and a text without line breaks. */
  predicate WellFormed(pm: PlenaryMinutes)
  {
    && Dates.Valid(pm.date)
    && pm.datetime == Dates.Combine(pm.date, Dates.TimeMin)
    && '\n' !in pm.text
  }

  /** `PlenaryMinutes.asdict`: exactly the columns of the CSV file as keys,
      so `writerow` accepts it. */
  function AsDict(pm: PlenaryMinutes): (r: map<string, Csv.Value>)
    ensures r.Keys == set k | k in Fieldnames
    ensures Csv.KeysAreFields(r, Fieldnames)
  {
    map[
      "date" := Csv.DateValue(pm.date),
      "datetime" := Csv.DateTimeValue(pm.datetime),
      "title" := OptionValue(pm.title),
      "text" := Csv.StrValue(pm.text),
      "period" := Csv.IntValue(pm.period),
      "type" := OptionValue(pm.docType),
      "period_number" := Csv.IntValue(pm.periodNumber)]
  }

  // ---------------------------------------------------------------------------
  // Errors

  /** The exceptions the parser lets escape. */
  datatype Error =
      /** `find(path)` gave `None` and `.text` or `.itertext()` was taken of it;
          `path` is the path as its list of tags. */
    | NoSuchElement(path: seq<string>)
      /** A missing text or attribute (`None`) reached `split`, `replace` or `int`. */
    | NoneValue(operation: string)
      /** `int(literal)` raised ValueError. */
    | NotAnInteger(literal: string)
      /** `day, month, year = ...` got a list of another length. */
    | WrongFieldCount(count: nat)
      /** `date(year, month, day)` raised ValueError. */
    | InvalidDate(year: nat, month: nat, day: nat)
      /** The new schema's date did not parse: the source stops in the debugger
          and, once resumed, fails on the unbound `date`. */
    | DebuggerFallback(cause: Error)
      /** The root tag is neither schema's (RuntimeError naming the file). */
    | UnrecognizedRoot(filePath: string)

  /** `int(x)` where `x` may be `None`: the value of a decimal, `TypeError`
      for `None` and `ValueError` for anything else. */
  function Int(x: Option<string>): (r: Result<nat, Error>)
    ensures r.Ok? <==> x.Some? && Strings.IsDecimal(x.value)
    ensures r.Ok? ==> r.value == Strings.DigitsValue(x.value)
    ensures x.None? ==> r == Err(NoneValue("int"))
    ensures x.Some? && !Strings.IsDecimal(x.value) ==> r == Err(NotAnInteger(x.value))
  {
    match x
    case None => Err(NoneValue("int"))
    case Some(s) =>
      match Strings.ParseDecimal(s)
      case Some(n) => Ok(n)
      case None => Err(NotAnInteger(s))
  }

  /** `[int(x) for x in parts]`: every part converted, or the error of the
      first part that is not an integer. */
  function IntAll(parts: seq<string>): (r: Result<seq<nat>, Error>)
    ensures r.Ok? <==> forall i :: 0 <= i < |parts| ==> Strings.IsDecimal(parts[i])
    ensures r.Ok? ==> (|r.value| == |parts|
      && forall i :: 0 <= i < |parts| ==> Strings.ParseDecimal(parts[i]) == Some(r.value[i]))
    ensures r.Err? ==> exists k :: (0 <= k < |parts| && !Strings.IsDecimal(parts[k])
      && r.error == NotAnInteger(parts[k])
      && forall i :: 0 <= i < k ==> Strings.IsDecimal(parts[i]))
  {
    if parts == [] then Ok([])
    else
      var n :- Int(Some(parts[0]));
      var rest :- IntAll(parts[1..]);
      Ok([n] + rest)
  }

  /** In-text requirement: a text that may be `None` is passed to `operation`. */
  function Present(x: Option<string>, operation: string): Result<string, Error>
  {
    match x
    case Some(s) => Ok(s)
    case None => Err(NoneValue(operation))
  }

  /** `root.find(path)` whose result is then used, for the path whose tags
      are `path`. */
  function FindElement(root: ET.Element, path: seq<string>): Result<ET.Element, Error>
  {
    match ET.FindPath(root, path)
    case Some(e) => Ok(e)
    case None => Err(NoSuchElement(path))
  }

  // ---------------------------------------------------------------------------
  // parse_date and clean_text

  /** `parse_date(date_str)`: `<day>.<month>.<year>`. */
  function ParseDate(dateStr: Option<string>): (r: Result<Dates.Date, Error>)
    ensures r.Ok? ==> Dates.Valid(r.value)
    ensures dateStr.None? ==> r == Err(NoneValue("split"))
    ensures r.Err? ==> !r.error.NoSuchElement? && !r.error.DebuggerFallback? && !r.error.UnrecognizedRoot?
  {
    var s :- Present(dateStr, "split");
    var nums :- IntAll(Strings.Split(s, '.'));
    if |nums| != 3 then Err(WrongFieldCount(|nums|))
    else
      var day, month, year := nums[0], nums[1], nums[2];
      match Dates.MakeDate(year, month, day)
      case Some(d) => Ok(d)
      case None => Err(InvalidDate(year, month, day))
  }

  /** `clean_text(text)`: every line break becomes the two characters `\` `n`.
      The result has no line break, is longer by one character per line break,
      and is the input itself when there is none. */
  function CleanText(text: string): (r: string)
    ensures '\n' !in r
    ensures |r| == |text| + Strings.Count(text, '\n')
    ensures '\n' !in text ==> r == text
  {
    Strings.ReplaceCharFacts(text, '\n', "\\n");
    Strings.ReplaceChar(text, '\n', "\\n")
  }

  // ---------------------------------------------------------------------------
  // The two extractors

  const OldRootTag: string := "DOKUMENT"
  const NewRootTag: string := "dbtplenarprotokoll"
  /** The children the old schema reads, in the order it reads them. */
  const DatumTag: string := "DATUM"
  const TitelTag: string := "TITEL"
  const TextTag: string := "TEXT"
  const WahlperiodeTag: string := "WAHLPERIODE"
  const DokumentartTag: string := "DOKUMENTART"
  const NrTag: string := "NR"
  const OldFormatChildren: seq<string> := [DatumTag, TitelTag, TextTag, WahlperiodeTag, DokumentartTag, NrTag]
  /** The paths the new schema reads, `vorspann/kopfdaten/sitzungstitel` and
      `sitzungsverlauf`, as their tags. */
  const TitlePath: seq<string> := ["vorspann", "kopfdaten", "sitzungstitel"]
  const BodyPath: seq<string> := ["sitzungsverlauf"]

  /** `parse_old_format`: fields from the `DATUM`, `TITEL`, `TEXT`,
      `WAHLPERIODE`, `DOKUMENTART` and `NR` children, in that order. */
  function ParseOldFormat(root: ET.Element): (r: Result<PlenaryMinutes, Error>)
    ensures r.Ok? ==> WellFormed(r.value)
    ensures r.Err? ==> !r.error.DebuggerFallback? && !r.error.UnrecognizedRoot?
  {
    var datum :- FindElement(root, [DatumTag]);
    var date :- ParseDate(datum.text);
    var dt := Dates.Combine(date, Dates.TimeMin);
    var titel :- FindElement(root, [TitelTag]);
    var textElement :- FindElement(root, [TextTag]);
    var rawText :- Present(textElement.text, "replace");
    var text := CleanText(rawText);
    var wahlperiode :- FindElement(root, [WahlperiodeTag]);
    var period :- Int(wahlperiode.text);
    var dokumentart :- FindElement(root, [DokumentartTag]);
    var nr :- FindElement(root, [NrTag]);
    var nrText :- Present(nr.text, "split");
    var periodNumber :- Int(Some(Strings.LastPart(nrText, '/')));
    Ok(PlenaryMinutes(titel.text, date, dt, text, period, dokumentart.text, periodNumber))
  }

  /** `parse_new_format`: date and numbers from the root's attributes, title
      and text from the whole character data of two subtrees. */
  function ParseNewFormat(root: ET.Element): (r: Result<PlenaryMinutes, Error>)
    ensures r.Ok? ==> WellFormed(r.value) && r.value.title.Some? && r.value.docType == Some(root.tag)
    ensures r.Err? ==> !r.error.UnrecognizedRoot?
  {
    var date :- match ParseDate(ET.Get(root, "sitzung-datum"))
      case Ok(d) => Ok(d)
      case Err(e) => Err(DebuggerFallback(e));
    var dt := Dates.Combine(date, Dates.TimeMin);
    var titleElement :- FindElement(root, TitlePath);
    var title := Strings.Concat(ET.IterText(titleElement));
    var body :- FindElement(root, BodyPath);
    var text := CleanText(Strings.Concat(ET.IterText(body)));
    var period :- Int(ET.Get(root, "wahlperiode"));
    var periodNumber :- Int(ET.Get(root, "sitzung-nr"));
    Ok(PlenaryMinutes(Some(title), date, dt, text, period, Some(root.tag), periodNumber))
  }

  // ---------------------------------------------------------------------------
  // parse and parse_all

  /** `parse(file_path)` on the root element of the parsed file. */
  function Parse(filePath: string, root: ET.Element): (r: Result<PlenaryMinutes, Error>)
    ensures r.Ok? ==> (root.tag == OldRootTag || root.tag == NewRootTag) && WellFormed(r.value)
    ensures r == Err(UnrecognizedRoot(filePath)) <==> root.tag != OldRootTag && root.tag != NewRootTag
  {
    if root.tag == OldRootTag then ParseOldFormat(root)
    else if root.tag == NewRootTag then ParseNewFormat(root)
    else Err(UnrecognizedRoot(filePath))
  }

  /** An input file: its path and the root element it parses to. */
  datatype InputFile = InputFile(path: string, root: ET.Element)

  /** `parse_all(files)`: one record per file, in order. The first file that
      fails makes the whole batch fail with that file's error. */
  function ParseAll(files: seq<InputFile>): (r: Result<seq<PlenaryMinutes>, Error>)
    ensures r.Ok? <==> forall i :: 0 <= i < |files| ==> Parse(files[i].path, files[i].root).Ok?
    ensures r.Ok? ==> (|r.value| == |files|
      && forall i :: 0 <= i < |files| ==> Parse(files[i].path, files[i].root) == Ok(r.value[i]))
    ensures r.Err? ==> exists k :: (0 <= k < |files| && Parse(files[k].path, files[k].root) == Err(r.error)
      && forall i :: 0 <= i < k ==> Parse(files[i].path, files[i].root).Ok?)
  {
    if files == [] then Ok([])
    else
      var pm :- Parse(files[0].path, files[0].root);
      var rest :- ParseAll(files[1..]);
      Ok([pm] + rest)
  }

  // ---------------------------------------------------------------------------
  // save_as_csv

  /** The column order of `save_as_csv`. */
  const Fieldnames: seq<string> := ["date", "datetime", "title", "period", "type", "text", "period_number"]

  const CsvFileName: string := "plenary-minutes.csv"

  /** `os.path.join(dir, name)` on POSIX (`posixpath.join`): `name` at the
      end; an absolute `name` replaces `dir`, otherwise the path starts with
      `dir` and at most one `/` is put between the two. */
  function PathJoin(dir: string, name: string): (r: string)
    ensures |name| <= |r| && r[|r| - |name|..] == name
    ensures name != [] && name[0] == '/' ==> r == name
    ensures !(name != [] && name[0] == '/') ==> |dir| <= |r| <= |dir| + 1 + |name| && r[..|dir|] == dir
    ensures !(name != [] && name[0] == '/') ==> r == dir + name || r == dir + "/" + name
    ensures dir != [] && !(name != [] && name[0] == '/') ==> r[|r| - |name| - 1] == '/'
    ensures !(name != [] && name[0] == '/') && (dir == [] || dir[|dir| - 1] == '/') ==> r == dir + name
  {
    if name != [] && name[0] == '/' then name
    else if dir == [] || dir[|dir| - 1] == '/' then dir + name
    else dir + "/" + name
  }

  /** The last path component of `os.path.join(dir, name)` is `name`. */
  lemma PathJoinFileName(dir: string, name: string)
    requires name != [] && '/' !in name
    ensures Strings.LastPart(PathJoin(dir, name), '/') == name
  {
    if dir == [] {
      assert PathJoin(dir, name) == name;
      Strings.SplitNoSeparator(name, '/');
    } else if dir[|dir| - 1] == '/' {
      assert dir + name == dir[..|dir| - 1] + ['/'] + name;
      Strings.LastPartAfterSeparator(dir[..|dir| - 1], name, '/');
    } else {
      assert PathJoin(dir, name) == dir + ['/'] + name;
      Strings.LastPartAfterSeparator(dir, name, '/');
    }
  }

  /** The cells `writer.writerow(pm.asdict())` writes for a record. */
  function CsvRow(pm: PlenaryMinutes): seq<string>
  {
    Csv.DictRow(Fieldnames, AsDict(pm))
  }

  /** The rows of the records, in order. */
  function CsvRows(pms: seq<PlenaryMinutes>): seq<seq<string>>
  {
    if pms == [] then [] else CsvRows(pms[..|pms| - 1]) + [CsvRow(pms[|pms| - 1])]
  }

  /** One row per record, in the records' order. */
  lemma {:induction false} CsvRowsInOrder(pms: seq<PlenaryMinutes>)
    ensures |CsvRows(pms)| == |pms|
    ensures forall i :: 0 <= i < |pms| ==> CsvRows(pms)[i] == CsvRow(pms[i])
  {
    if pms != [] {
      var init := pms[..|pms| - 1];
      CsvRowsInOrder(init);
      assert forall i :: 0 <= i < |init| ==> init[i] == pms[i];
    }
  }

  /** `save_as_csv(pms, path)`: the file it writes at `path/plenary-minutes.csv`
      holds a header row of the column names and then each record's row, in
      order. */
  method SaveAsCsv(pms: seq<PlenaryMinutes>, path: string) returns (filepath: string, table: seq<seq<string>>)
    ensures filepath == PathJoin(path, CsvFileName)
    ensures table == [Fieldnames] + CsvRows(pms)
  {
    filepath := PathJoin(path, CsvFileName);
    var writer := new Csv.DictWriter(Fieldnames);
    writer.WriteHeader();
    var i := 0;
    while i < |pms|
      invariant 0 <= i <= |pms|
      invariant writer.rows == [Fieldnames] + CsvRows(pms[..i])
    {
      var ok := writer.WriteRow(AsDict(pms[i]));
      assert pms[..i + 1][..i] == pms[..i];
      i := i + 1;
    }
    assert pms[..i] == pms;
    table := writer.rows;
  }

  /** A record's row holds, in column order: the date as `YYYY-MM-DD`, the
      timestamp, the title (empty for `None`), the period, the type (empty for
      `None`), the text and the session number. */
  lemma CsvRowColumns(pm: PlenaryMinutes)
    ensures CsvRow(pm) == [
      Dates.IsoFormat(pm.date),
      Dates.DateTimeFormat(pm.datetime),
      pm.title.GetOr(""),
      Strings.NatToDecimal(pm.period),
      pm.docType.GetOr(""),
      pm.text,
      Strings.NatToDecimal(pm.periodNumber)]
  {
    DateCell(pm);
    DateTimeCell(pm);
    TitleCell(pm);
    PeriodCell(pm);
    TypeCell(pm);
    TextCell(pm);
    PeriodNumberCell(pm);
  }

  // One lemma per column: what `DictWriter` puts in that column of the row.

  lemma DateCell(pm: PlenaryMinutes)
    ensures CsvRow(pm)[0] == Dates.IsoFormat(pm.date)
  {
  }

  lemma DateTimeCell(pm: PlenaryMinutes)
    ensures CsvRow(pm)[1] == Dates.DateTimeFormat(pm.datetime)
  {
  }

  lemma TitleCell(pm: PlenaryMinutes)
    ensures CsvRow(pm)[2] == pm.title.GetOr("")
  {
  }

  lemma PeriodCell(pm: PlenaryMinutes)
    ensures CsvRow(pm)[3] == Strings.NatToDecimal(pm.period)
  {
  }

  lemma TypeCell(pm: PlenaryMinutes)
    ensures CsvRow(pm)[4] == pm.docType.GetOr("")
  {
  }

  lemma TextCell(pm: PlenaryMinutes)
    ensures CsvRow(pm)[5] == pm.text
  {
  }

  lemma PeriodNumberCell(pm: PlenaryMinutes)
    ensures CsvRow(pm)[6] == Strings.NatToDecimal(pm.periodNumber)
  {
  }
}
