/** The part of Python's `csv.DictWriter` the parser relies on: the values a
    row dictionary may hold, the text each becomes in a cell, and a writer that
    collects the rows it is given. Quoting and the file itself are not modelled:
    a row here is the list of cell texts before quoting. */
module Csv {
  import Strings
  import Dates

  /** The Python values a row dictionary holds. */
  datatype Value =
    | NoneValue
    | StrValue(s: string)
    | IntValue(n: nat)
    | DateValue(d: Dates.Date)
    | DateTimeValue(dt: Dates.DateTime)

  /** The text `csv.writer` puts in a cell before quoting: the empty string for
      `None`, `str(v)` for everything else. */
  function Render(v: Value): string
  {
    match v
    case NoneValue => ""
    case StrValue(s) => s
    case IntValue(n) => Strings.NatToDecimal(n)
    case DateValue(d) => Dates.IsoFormat(d)
    case DateTimeValue(dt) => Dates.DateTimeFormat(dt)
  }

  /** The cells `DictWriter.writerow` produces for `rowdict`: one per field
      name, in field-name order, with the empty `restval` for a missing key. */
  function DictRow(fieldnames: seq<string>, rowdict: map<string, Value>): seq<string>
  {
    seq(|fieldnames|, i requires 0 <= i < |fieldnames| =>
      if fieldnames[i] in rowdict then Render(rowdict[fieldnames[i]]) else "")
  }

  /** Every key of `rowdict` is one of the field names. */
  predicate KeysAreFields(rowdict: map<string, Value>, fieldnames: seq<string>)
  {
    forall k :: k in rowdict ==> k in fieldnames
  }

  /** A `csv.DictWriter` over a file: `rows` is everything written to it so far. */
  class DictWriter {
    const fieldnames: seq<string>
    var rows: seq<seq<string>>

    constructor (fieldnames: seq<string>)
      ensures this.fieldnames == fieldnames && rows == []
    {
      this.fieldnames := fieldnames;
      rows := [];
    }

    /** `writeheader()`: a row of the field names themselves. */
    method WriteHeader()
      modifies this
      ensures rows == old(rows) + [fieldnames]
    {
      rows := rows + [fieldnames];
    }

    /** `writerow(rowdict)`. A key that is not a field name makes the writer
        raise ValueError (`ok` is false) and nothing is written. */
    method WriteRow(rowdict: map<string, Value>) returns (ok: bool)
      modifies this
      ensures ok <==> KeysAreFields(rowdict, fieldnames)
      ensures rows == if ok then old(rows) + [DictRow(fieldnames, rowdict)] else old(rows)
    {
      ok := KeysAreFields(rowdict, fieldnames);
      if ok {
        rows := rows + [DictRow(fieldnames, rowdict)];
      }
    }
  }
}
