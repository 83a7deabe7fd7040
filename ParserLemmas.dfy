/** What `PlenaryMinutesParser` guarantees, stated over the model in Parser. */
module ParserLemmas {
  import opened Wrappers
  import Strings
  import Dates
  import ET = ElementTree
  import opened Parser

  // ---------------------------------------------------------------------------
  // clean_text

  /** `clean_text` works character by character: a line break becomes `\n`,
      any other character stays, and a concatenation is cleaned piecewise. */
  lemma CleanTextIsEscaping(a: string, b: string, c: char)
    ensures CleanText(a + b) == CleanText(a) + CleanText(b)
    ensures CleanText(['\n']) == ['\\', 'n']
    ensures c != '\n' ==> CleanText([c]) == [c]
  {
    Strings.ReplaceCharAppend(a, b, '\n', "\\n");
    assert CleanText(['\n']) == "\\n" + Strings.ReplaceChar([], '\n', "\\n");
  }

  /** A text of two lines becomes one line with `\n` written out between them. */
  lemma CleanTextLineBreak(a: string, b: string)
    requires '\n' !in a && '\n' !in b
    ensures CleanText(a + "\n" + b) == a + "\\n" + b
  {
    CleanTextIsEscaping(a + "\n", b, '\n');
    CleanTextIsEscaping(a, "\n", '\n');
    assert CleanText("\n") == "\\n" by {
      assert "\n" == ['\n'];
    }
  }

  // ---------------------------------------------------------------------------
  // parse_date

  /** A string `parse_date` accepts: three decimal components separated by
      dots, naming a valid calendar date as day, month and year. */
  predicate IsDateString(s: string)
  {
    var parts := Strings.Split(s, '.');
    && |parts| == 3
    && Strings.IsDecimal(parts[0]) && Strings.IsDecimal(parts[1]) && Strings.IsDecimal(parts[2])
    && Dates.IsValidDate(Strings.DigitsValue(parts[2]), Strings.DigitsValue(parts[1]), Strings.DigitsValue(parts[0]))
  }

  /** `parse_date` succeeds exactly on date strings, and then returns the date
      whose day, month and year are the three components; every date it
      returns is valid. */
  lemma ParseDateSpec(s: string)
    ensures ParseDate(Some(s)).Ok? <==> IsDateString(s)
    ensures IsDateString(s) ==>
      var parts := Strings.Split(s, '.');
      ParseDate(Some(s)) == Ok(Dates.Date(
        Strings.DigitsValue(parts[2]), Strings.DigitsValue(parts[1]), Strings.DigitsValue(parts[0])))
    ensures ParseDate(Some(s)).Ok? ==> Dates.Valid(ParseDate(Some(s)).value)
  {
    var parts := Strings.Split(s, '.');
    var nums := IntAll(parts);
    if nums.Ok? {
      forall i | 0 <= i < |parts| ensures nums.value[i] == Strings.DigitsValue(parts[i]) {
        assert Strings.ParseDecimal(parts[i]) == Some(nums.value[i]);
      }
    }
  }

  /** For any three digit strings, zero-padded or not, whose `int` values are
      `day`, `month` and `year`, `parse_date` of `day.month.year` gives that
      date, or fails with InvalidDate when they do not form a calendar date. */
  lemma ParseDateComponents(ds: string, ms: string, ys: string, day: nat, month: nat, year: nat)
    requires Strings.ParseDecimal(ds) == Some(day)
    requires Strings.ParseDecimal(ms) == Some(month)
    requires Strings.ParseDecimal(ys) == Some(year)
    ensures ParseDate(Some(ds + "." + ms + "." + ys)) ==
      if Dates.IsValidDate(year, month, day) then Ok(Dates.Date(year, month, day))
      else Err(InvalidDate(year, month, day))
  {
    assert '.' !in ds && '.' !in ms && '.' !in ys;
    var s := ds + "." + ms + "." + ys;
    assert Strings.Join([ds, ms, ys], '.') == s by {
      assert Strings.Join([ds, ms, ys], '.') == ds + ['.'] + Strings.Join([ms, ys], '.');
      assert Strings.Join([ms, ys], '.') == ms + ['.'] + Strings.Join([ys], '.');
    }
    Strings.SplitJoin([ds, ms, ys], '.');
    ParseDateSpec(s);
  }

  /** `parse_date(f"{d.day}.{d.month}.{d.year}")` gives back every valid date. */
  lemma ParseDateRoundTrip(d: Dates.Date)
    requires Dates.Valid(d)
    ensures ParseDate(Some(Strings.NatToDecimal(d.day) + "." + Strings.NatToDecimal(d.month)
      + "." + Strings.NatToDecimal(d.year))) == Ok(d)
  {
    Strings.DecimalRoundTrip(d.day);
    Strings.DecimalRoundTrip(d.month);
    Strings.DecimalRoundTrip(d.year);
    ParseDateComponents(Strings.NatToDecimal(d.day), Strings.NatToDecimal(d.month), Strings.NatToDecimal(d.year),
      d.day, d.month, d.year);
  }

  lemma DecimalLiteral(n: nat, s: string)
    requires Strings.NatToDecimal(n) == s
    ensures Strings.ParseDecimal(s) == Some(n)
  {
    Strings.DecimalRoundTrip(n);
  }

  // The literal is a parameter pinned by `requires` because written into the
  // `ensures` it would be split and converted in every proof obligation.
  /** Zero padding is accepted: `01.12.2019` is the first of December 2019. */
  lemma ParseDateZeroPadded(s: string)
    requires s == "01.12.2019"
    ensures ParseDate(Some(s)) == Ok(Dates.Date(2019, 12, 1))
  {
    assert Strings.ParseDecimal("01") == Some(1) by {
      Strings.LeadingZerosIgnored(1, "1");
      assert Strings.Zeros(1) + "1" == "01";
    }
    DecimalLiteral(12, "12");
    DecimalLiteral(2019, "2019");
    ParseDateComponents("01", "12", "2019", 1, 12, 2019);
    assert s == "01" + "." + "12" + "." + "2019" by {}
  }

  // The literal is a parameter pinned by `requires` because written into the
  // `ensures` it would be split and converted in every proof obligation.
  /** There is no 31st of February: `31.2.2020` fails with InvalidDate. */
  lemma ParseDateNoFebruary31(s: string)
    requires s == "31.2.2020"
    ensures ParseDate(Some(s)) == Err(InvalidDate(2020, 2, 31))
  {
    DecimalLiteral(31, "31");
    DecimalLiteral(2, "2");
    DecimalLiteral(2020, "2020");
    ParseDateComponents("31", "2", "2020", 31, 2, 2020);
    assert s == "31" + "." + "2" + "." + "2020" by {}
  }

  // The literal is a parameter pinned by `requires` because written into the
  // `ensures` it would be split and converted in every proof obligation.
  /** 1900 is a century year that is not a leap year: no 29th of February. */
  lemma ParseDateCenturyNotLeap(s: string)
    requires s == "29.2.1900"
    ensures ParseDate(Some(s)) == Err(InvalidDate(1900, 2, 29))
  {
    DecimalLiteral(29, "29");
    DecimalLiteral(2, "2");
    DecimalLiteral(1900, "1900");
    ParseDateComponents("29", "2", "1900", 29, 2, 1900);
    assert s == "29" + "." + "2" + "." + "1900" by {}
  }

  // The literal is a parameter pinned by `requires` because written into the
  // `ensures` it would be split and converted in every proof obligation.
  /** 2000 is divisible by 400, so it is a leap year with a 29th of February. */
  lemma ParseDateQuadricentennialLeap(s: string)
    requires s == "29.2.2000"
    ensures ParseDate(Some(s)) == Ok(Dates.Date(2000, 2, 29))
  {
    DecimalLiteral(29, "29");
    DecimalLiteral(2, "2");
    DecimalLiteral(2000, "2000");
    ParseDateComponents("29", "2", "2000", 29, 2, 2000);
    assert s == "29" + "." + "2" + "." + "2000" by {}
  }

  /** A string with two parts fails on the unpacking into day, month and year;
      a missing string fails on `split`. */
  lemma ParseDateFieldCount()
    ensures ParseDate(Some("1.12")) == Err(WrongFieldCount(2))
    ensures ParseDate(None) == Err(NoneValue("split"))
  {
    Strings.SplitAfterPiece("1", "12", '.');
    Strings.SplitNoSeparator("12", '.');
    assert "1.12" == "1" + ['.'] + "12";
  }

  // ---------------------------------------------------------------------------
  // parse_old_format

  /** What an old-schema document must hold for a record to be extracted:
      every one of the six children, a `DATUM` text that is a date string, a
      `TEXT` text, a decimal `WAHLPERIODE` text, and an `NR` text whose part
      after the last `/` is decimal. `TITEL` and `DOKUMENTART` may be empty. */
  predicate OldFormatReadable(root: ET.Element)
  {
    && ET.FindPath(root, [DatumTag]).Some? && ET.FindPath(root, [DatumTag]).value.text.Some?
    && IsDateString(ET.FindPath(root, [DatumTag]).value.text.value)
    && ET.FindPath(root, [TitelTag]).Some?
    && ET.FindPath(root, [TextTag]).Some? && ET.FindPath(root, [TextTag]).value.text.Some?
    && ET.FindPath(root, [WahlperiodeTag]).Some? && ET.FindPath(root, [WahlperiodeTag]).value.text.Some?
    && Strings.IsDecimal(ET.FindPath(root, [WahlperiodeTag]).value.text.value)
    && ET.FindPath(root, [DokumentartTag]).Some?
    && ET.FindPath(root, [NrTag]).Some? && ET.FindPath(root, [NrTag]).value.text.Some?
    && Strings.IsDecimal(Strings.LastPart(ET.FindPath(root, [NrTag]).value.text.value, '/'))
  }

  /** `parse_old_format` produces a record exactly when the document is
      readable, and then each field comes from its own child: the date parsed
      from `DATUM` at midnight, the `TITEL` text, the cleaned `TEXT` text (no
      line break left), `int` of `WAHLPERIODE`, the `DOKUMENTART` text, and
      `int` of what follows the last `/` of `NR`. */
  lemma OldFormatFieldMapping(root: ET.Element)
    ensures ParseOldFormat(root).Ok? <==> OldFormatReadable(root)
    ensures ParseOldFormat(root).Ok? ==>
      var pm := ParseOldFormat(root).value;
      && ParseDate(ET.FindPath(root, [DatumTag]).value.text) == Ok(pm.date)
      && Dates.Valid(pm.date)
      && pm.datetime == Dates.Combine(pm.date, Dates.TimeMin)
      && pm.title == ET.FindPath(root, [TitelTag]).value.text
      && pm.text == CleanText(ET.FindPath(root, [TextTag]).value.text.value)
      && '\n' !in pm.text
      && Strings.ParseDecimal(ET.FindPath(root, [WahlperiodeTag]).value.text.value) == Some(pm.period)
      && pm.docType == ET.FindPath(root, [DokumentartTag]).value.text
      && Strings.ParseDecimal(Strings.LastPart(ET.FindPath(root, [NrTag]).value.text.value, '/')) == Some(pm.periodNumber)
  {
    var datum := ET.FindPath(root, [DatumTag]);
    if datum.Some? && datum.value.text.Some? {
      ParseDateSpec(datum.value.text.value);
    }
  }

  /** `parse_date` fails only with the errors of splitting, converting and
      building a date. */
  lemma ParseDateErrorKinds(dateStr: Option<string>)
    ensures ParseDate(dateStr).Err? ==>
      || ParseDate(dateStr).error == NoneValue("split")
      || ParseDate(dateStr).error.NotAnInteger?
      || ParseDate(dateStr).error.WrongFieldCount?
      || ParseDate(dateStr).error.InvalidDate?
  {
  }

  /** `parse_old_format` fails on the first child that is missing, reporting
      it; an error about a missing element always names one of the six
      children, absent from the document; and the old schema never reports
      a debugger fallback or an unrecognised root. */
  lemma OldFormatErrors(root: ET.Element)
    ensures ET.FindPath(root, [DatumTag]).None? ==> ParseOldFormat(root) == Err(NoSuchElement([DatumTag]))
    ensures ParseOldFormat(root).Err? && ParseOldFormat(root).error.NoSuchElement? ==>
      var path := ParseOldFormat(root).error.path;
      |path| == 1 && path[0] in OldFormatChildren && ET.FindPath(root, [path[0]]).None?
    ensures ParseOldFormat(root).Err? ==>
      !ParseOldFormat(root).error.DebuggerFallback? && !ParseOldFormat(root).error.UnrecognizedRoot?
  {
    var datum := ET.FindPath(root, [DatumTag]);
    if datum.Some? {
      ParseDateErrorKinds(datum.value.text);
    }
  }

  /** A missing child makes `parse_old_format` fail. */
  lemma OldFormatMissingChild(root: ET.Element, i: nat)
    requires i < |OldFormatChildren| && ET.FindPath(root, [OldFormatChildren[i]]).None?
    ensures ParseOldFormat(root).Err?
  {
    OldFormatFieldMapping(root);
  }

  /** The session number is the number after the last `/` of `NR`, whatever
      precedes it: `18/5` gives 5. */
  lemma SessionNumberAfterLastSlash(prefix: string, digits: string)
    requires Strings.IsDecimal(digits)
    ensures Int(Some(Strings.LastPart(prefix + "/" + digits, '/'))) == Ok(Strings.DigitsValue(digits))
  {
    assert '/' !in digits;
    Strings.LastPartAfterSeparator(prefix, digits, '/');
  }

  // ---------------------------------------------------------------------------
  // parse_new_format

  /** What a new-schema document must hold for a record to be extracted: a
      `sitzung-datum` attribute that is a date string, a title element under
      `vorspann/kopfdaten/sitzungstitel`, a `sitzungsverlauf` child, and
      decimal `wahlperiode` and `sitzung-nr` attributes. */
  predicate NewFormatReadable(root: ET.Element)
  {
    && ET.Get(root, "sitzung-datum").Some? && IsDateString(ET.Get(root, "sitzung-datum").value)
    && ET.FindPath(root, TitlePath).Some?
    && ET.FindPath(root, BodyPath).Some?
    && ET.Get(root, "wahlperiode").Some? && Strings.IsDecimal(ET.Get(root, "wahlperiode").value)
    && ET.Get(root, "sitzung-nr").Some? && Strings.IsDecimal(ET.Get(root, "sitzung-nr").value)
  }

  /** `parse_new_format` produces a record exactly when the document is
      readable, and then: the date parsed from `sitzung-datum` at midnight,
      the title is all the character data inside the title element in
      document order, the text is all the character data inside
      `sitzungsverlauf` in document order, cleaned, the type is the root's
      tag, and the two numbers are `int` of their attributes. */
  lemma NewFormatFieldMapping(root: ET.Element)
    ensures ParseNewFormat(root).Ok? <==> NewFormatReadable(root)
    ensures ParseNewFormat(root).Ok? ==>
      var pm := ParseNewFormat(root).value;
      && ParseDate(ET.Get(root, "sitzung-datum")) == Ok(pm.date)
      && Dates.Valid(pm.date)
      && pm.datetime == Dates.Combine(pm.date, Dates.TimeMin)
      && pm.title == Some(ET.DocumentText(ET.FindPath(root, TitlePath).value))
      && pm.text == CleanText(ET.DocumentText(ET.FindPath(root, BodyPath).value))
      && '\n' !in pm.text
      && pm.docType == Some(root.tag)
      && Strings.ParseDecimal(ET.Get(root, "wahlperiode").value) == Some(pm.period)
      && Strings.ParseDecimal(ET.Get(root, "sitzung-nr").value) == Some(pm.periodNumber)
  {
    if ET.Get(root, "sitzung-datum").Some? {
      ParseDateSpec(ET.Get(root, "sitzung-datum").value);
    }
    var title := ET.FindPath(root, TitlePath);
    if title.Some? {
      ET.IterTextIsDocumentText(title.value);
    }
    var body := ET.FindPath(root, BodyPath);
    if body.Some? {
      ET.IterTextIsDocumentText(body.value);
    }
  }

  /** A date that does not parse ends in the debugger fallback, carrying the
      parse error; an error about a missing element names the title path or
      the body, absent from the document; the new schema never reports an
      unrecognised root. */
  lemma NewFormatErrors(root: ET.Element)
    ensures ParseDate(ET.Get(root, "sitzung-datum")).Err? ==>
      ParseNewFormat(root) == Err(DebuggerFallback(ParseDate(ET.Get(root, "sitzung-datum")).error))
    ensures ParseNewFormat(root).Err? && ParseNewFormat(root).error.NoSuchElement? ==>
      var path := ParseNewFormat(root).error.path;
      (path == TitlePath || path == BodyPath) && ET.FindPath(root, path).None?
    ensures ParseNewFormat(root).Err? ==> !ParseNewFormat(root).error.UnrecognizedRoot?
  {
  }

  lemma TitlePathTagsPlain()
    ensures forall i :: 0 <= i < |TitlePath| ==> '/' !in TitlePath[i]
  {
    assert '/' !in TitlePath[0] && '/' !in TitlePath[1] && '/' !in TitlePath[2];
  }

  lemma TitlePathJoined()
    ensures Strings.Join(TitlePath, '/') == "vorspann/kopfdaten/sitzungstitel"
  {
    var tail := Strings.Join(TitlePath[2..], '/');
    assert tail == "sitzungstitel";
    var middle := Strings.Join(TitlePath[1..], '/');
    assert middle == "kopfdaten" + "/" + tail;
    assert Strings.Join(TitlePath, '/') == "vorspann" + "/" + middle;
  }

  // The literal is a parameter pinned by `requires` because written into the
  // `ensures` it would be split and converted in every proof obligation.
  /** The title path, written as the source writes it, finds what its tags
      find: the first element reached through a `vorspann` child, its
      `kopfdaten` child and that one's `sitzungstitel` child. */
  lemma TitlePathTags(root: ET.Element, path: string)
    requires path == "vorspann/kopfdaten/sitzungstitel"
    ensures ET.Find(root, path) == ET.FindPath(root, TitlePath)
    ensures var reached := ET.Descend(root, TitlePath);
      ET.FindPath(root, TitlePath) == if reached == [] then None else Some(reached[0])
  {
    TitlePathJoined();
    TitlePathTagsPlain();
    ET.FindJoinedPath(root, TitlePath);
    ET.FindDescends(root, TitlePath);
  }

  // The literal is a parameter pinned by `requires` because written into the
  // `ensures` it would be split and converted in every proof obligation.
  /** The body path, written as the source writes it, is the first
      `sitzungsverlauf` child. */
  lemma BodyPathTags(root: ET.Element, path: string)
    requires path == "sitzungsverlauf"
    ensures ET.Find(root, path) == ET.FindPath(root, BodyPath) == ET.FindPath(root, ["sitzungsverlauf"])
  {
    assert Strings.Join(BodyPath, '/') == path;
    ET.FindJoinedPath(root, BodyPath);
  }

  // ---------------------------------------------------------------------------
  // parse

  /** `parse` sends a `DOKUMENT` root to the old extractor and a
      `dbtplenarprotokoll` root to the new one; any other root fails with the
      unrecognised-root error naming the file, and only then. */
  lemma DispatchRouting(filePath: string, root: ET.Element)
    ensures root.tag == OldRootTag ==> Parse(filePath, root) == ParseOldFormat(root)
    ensures root.tag == NewRootTag ==> Parse(filePath, root) == ParseNewFormat(root)
    ensures Parse(filePath, root) == Err(UnrecognizedRoot(filePath))
      <==> root.tag != OldRootTag && root.tag != NewRootTag
    ensures Parse(filePath, root).Ok? ==> root.tag == OldRootTag || root.tag == NewRootTag
  {
    OldFormatErrors(root);
    NewFormatErrors(root);
  }

  /** Every record `parse` produces has a valid date, a midnight timestamp and
      a text without line breaks. */
  lemma ParsedRecordInvariants(filePath: string, root: ET.Element)
    requires Parse(filePath, root).Ok?
    ensures var pm := Parse(filePath, root).value;
      && Dates.Valid(pm.date)
      && pm.datetime == Dates.Combine(pm.date, Dates.TimeMin)
      && '\n' !in pm.text
  {
    if root.tag == OldRootTag {
      OldFormatFieldMapping(root);
    } else {
      NewFormatFieldMapping(root);
    }
  }

  // ---------------------------------------------------------------------------
  // save_as_csv

  /** The row of a record with those invariants starts with the date as
      `YYYY-MM-DD`, which reads back as the date, then the timestamp as that
      text followed by ` 00:00:00`; its text cell holds no line break. The
      title and type cells are copied unescaped and may still hold one. */
  lemma RecordRow(pm: PlenaryMinutes)
    requires WellFormed(pm)
    ensures var row := CsvRow(pm);
      && |row| == |Fieldnames|
      && |row[0]| == 10 && row[0][4] == '-' && row[0][7] == '-'
      && Strings.ParseDecimal(row[0][..4]) == Some(pm.date.year)
      && Strings.ParseDecimal(row[0][5..7]) == Some(pm.date.month)
      && Strings.ParseDecimal(row[0][8..]) == Some(pm.date.day)
      && row[1] == row[0] + " 00:00:00"
      && '\n' !in row[5]
  {
    CsvRowColumns(pm);
    Dates.IsoFormatReadsBack(pm.date);
    Dates.MidnightFormat(pm.date);
  }

  // ---------------------------------------------------------------------------
  // An end-to-end legacy document

  /** An element with only a text, as the old schema's children are. */
  function Leaf(tag: string, text: string): ET.Element
  {
    ET.Element(tag, map[], Some(text), [], None)
  }

  /** An old-schema document: a `DOKUMENT` root whose six children hold the
      given texts, in schema order. */
  function FlatDocument(datum: string, titel: string, text: string, wahlperiode: string, dokumentart: string, nr: string): ET.Element
  {
    ET.Element(OldRootTag, map[], None,
      [Leaf(DatumTag, datum), Leaf(TitelTag, titel), Leaf(TextTag, text),
       Leaf(WahlperiodeTag, wahlperiode), Leaf(DokumentartTag, dokumentart), Leaf(NrTag, nr)],
      None)
  }

  /** The six child tags differ from one another. */
  lemma ChildTagsDistinct()
    ensures forall i, j :: 0 <= i < j < |OldFormatChildren| ==> OldFormatChildren[i] != OldFormatChildren[j]
  {
    var tags := OldFormatChildren;
    assert tags[0][1] == 'A' && tags[1][1] == 'I' && tags[2][1] == 'E';
    assert |tags[3]| == 11 && |tags[4]| == 11 && |tags[5]| == 2;
    assert tags[3][0] == 'W' && tags[4][0] == 'D';
  }

  /** In such a document each tag finds its own child. */
  lemma FlatChildren(datum: string, titel: string, text: string, wahlperiode: string, dokumentart: string, nr: string)
    ensures var root := FlatDocument(datum, titel, text, wahlperiode, dokumentart, nr);
      && ET.FindPath(root, [DatumTag]) == Some(Leaf(DatumTag, datum))
      && ET.FindPath(root, [TitelTag]) == Some(Leaf(TitelTag, titel))
      && ET.FindPath(root, [TextTag]) == Some(Leaf(TextTag, text))
      && ET.FindPath(root, [WahlperiodeTag]) == Some(Leaf(WahlperiodeTag, wahlperiode))
      && ET.FindPath(root, [DokumentartTag]) == Some(Leaf(DokumentartTag, dokumentart))
      && ET.FindPath(root, [NrTag]) == Some(Leaf(NrTag, nr))
  {
    var root := FlatDocument(datum, titel, text, wahlperiode, dokumentart, nr);
    ChildTagsDistinct();
    assert forall i :: 0 <= i < 6 ==> root.children[i].tag == OldFormatChildren[i];
    ET.FindChildAt(root, DatumTag, 0);
    ET.FindChildAt(root, TitelTag, 1);
    ET.FindChildAt(root, TextTag, 2);
    ET.FindChildAt(root, WahlperiodeTag, 3);
    ET.FindChildAt(root, DokumentartTag, 4);
    ET.FindChildAt(root, NrTag, 5);
  }

  /** A flat old-schema document with a date string, a decimal period and an
      `NR` ending in `/` and digits parses to the record of its texts. */
  lemma FlatDocumentParses(filePath: string, datum: string, titel: string, text: string,
                           wahlperiode: string, dokumentart: string, nrPrefix: string, nrDigits: string)
    requires IsDateString(datum) && Strings.IsDecimal(wahlperiode) && Strings.IsDecimal(nrDigits)
    ensures var root := FlatDocument(datum, titel, text, wahlperiode, dokumentart, nrPrefix + "/" + nrDigits);
      var date := ParseDate(Some(datum)).value;
      Parse(filePath, root) == Ok(PlenaryMinutes(Some(titel), date, Dates.Combine(date, Dates.TimeMin),
        CleanText(text), Strings.DigitsValue(wahlperiode), Some(dokumentart), Strings.DigitsValue(nrDigits)))
  {
    var nr := nrPrefix + "/" + nrDigits;
    var root := FlatDocument(datum, titel, text, wahlperiode, dokumentart, nr);
    FlatChildren(datum, titel, text, wahlperiode, dokumentart, nr);
    SessionNumberAfterLastSlash(nrPrefix, nrDigits);
    ParseDateSpec(datum);
    OldFormatFieldMapping(root);
  }

  // The literal is a parameter pinned by `requires` because written into the
  // `ensures` it would be split and converted in every proof obligation.
  /** The legacy document `DATUM=01.12.2019`, `TITEL=Sitzung 5`, a `TEXT`
      of two lines, `WAHLPERIODE=18`, `DOKUMENTART=Plenarprotokoll`, `NR=18/5`
      gives the date 2019-12-01, period 18, session 5, the type
      `Plenarprotokoll` and the text with a literal `\n` for the line break. */
  lemma LegacyExample(filePath: string, datum: string, titel: string, firstLine: string, secondLine: string,
                      wahlperiode: string, dokumentart: string, nr: string)
    requires datum == "01.12.2019" && titel == "Sitzung 5" && wahlperiode == "18"
    requires dokumentart == "Plenarprotokoll" && nr == "18/5"
    requires '\n' !in firstLine && '\n' !in secondLine
    ensures var root := FlatDocument(datum, titel, firstLine + "\n" + secondLine, wahlperiode, dokumentart, nr);
      var date := Dates.Date(2019, 12, 1);
      Parse(filePath, root) == Ok(PlenaryMinutes(Some(titel), date, Dates.Combine(date, Dates.TimeMin),
        firstLine + "\\n" + secondLine, 18, Some(dokumentart), 5))
  {
    ParseDateZeroPadded(datum);
    ParseDateSpec(datum);
    DecimalLiteral(18, "18");
    DecimalLiteral(5, "5");
    assert nr == "18" + "/" + "5" by {}
    var text := firstLine + "\n" + secondLine;
    CleanTextLineBreak(firstLine, secondLine);
    FlatDocumentParses(filePath, datum, titel, text, wahlperiode, dokumentart, "18", "5");
  }

  /** Its CSV row: `2019-12-01`, `2019-12-01 00:00:00`, the title, `18`, the
      type, the text and `5`. */
  lemma LegacyExampleRow(pm: PlenaryMinutes, titel: string, text: string, dokumentart: string)
    requires pm == PlenaryMinutes(Some(titel), Dates.Date(2019, 12, 1),
      Dates.Combine(Dates.Date(2019, 12, 1), Dates.TimeMin), text, 18, Some(dokumentart), 5)
    ensures var row := CsvRow(pm);
      row == [row[0], row[0] + " 00:00:00", titel, "18", dokumentart, text, "5"] && row[0] == "2019-12-01"
  {
    CsvRowColumns(pm);
    assert Strings.NatToDecimal(18) == "18";
    assert Strings.NatToDecimal(5) == "5";
    assert Dates.IsoFormat(pm.date) == "2019-12-01" by {
      assert Strings.ZeroPad(2019, 4) == "2019";
      assert Strings.ZeroPad(12, 2) == "12";
      assert Strings.ZeroPad(1, 2) == "01";
    }
    Dates.MidnightFormat(pm.date);
  }
}
