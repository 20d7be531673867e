/** The test set: one row per output format, each holding the normalised
    table serialised in that format.  The serialisers themselves are the
    data-frame library's; here they are a parameter and their output is
    opaque. */
module Formats {
  import opened Wrappers
  import opened Tables

  datatype Format = Json | Dict | Csv | Tsv | Html | Latex | Markdown | PlainString | NumPy | Xml

  /** The text written in the "Data Format" column for each format. */
  function Label(f: Format): string {
    match f
    case Json => "JSON"
    case Dict => "DICT"
    case Csv => "CSV"
    case Tsv => "TSV (tab-separated)"
    case Html => "HTML"
    case Latex => "LaTeX"
    case Markdown => "Markdown"
    case PlainString => "STRING"
    case NumPy => "NumPy"
    case Xml => "XML"
  }

  /** Reads a "Data Format" label back; `None` for any other text. */
  function FormatOf(text: string): (r: Option<Format>)
    ensures r.Some? ==> Label(r.value) == text
    ensures forall f :: Label(f) == text ==> r == Some(f)
  {
    if text == "JSON" then Some(Json)
    else if text == "DICT" then Some(Dict)
    else if text == "CSV" then Some(Csv)
    else if text == "TSV (tab-separated)" then Some(Tsv)
    else if text == "HTML" then Some(Html)
    else if text == "LaTeX" then Some(Latex)
    else if text == "Markdown" then Some(Markdown)
    else if text == "STRING" then Some(PlainString)
    else if text == "NumPy" then Some(NumPy)
    else if text == "XML" then Some(Xml)
    else None
  }

  /** One row of the test set: the "Data Format" and "Data raw" columns. */
  datatype EvalRow<P> = EvalRow(format: string, raw: P)

  /** The "Data Format" column. */
  function Labels<P>(rows: seq<EvalRow<P>>): (labels: seq<string>)
    ensures |labels| == |rows|
    ensures forall i :: 0 <= i < |rows| ==> labels[i] == rows[i].format
  {
    seq(|rows|, i requires 0 <= i < |rows| => rows[i].format)
  }

  /** The test set built from the normalised table `df`, appending one row
      per format; `serialize(f, df)` stands for the library serialiser of
      format `f`. */
  function EvalRows<P>(df: Frame, serialize: (Format, Frame) -> P): (rows: seq<EvalRow<P>>)
    ensures Labels(rows) == ["JSON", "DICT", "CSV", "TSV (tab-separated)", "HTML",
                             "LaTeX", "Markdown", "STRING", "NumPy", "XML"]
    ensures forall i :: 0 <= i < |rows| ==>
              FormatOf(rows[i].format).Some? && rows[i].raw == serialize(FormatOf(rows[i].format).value, df)
  {
    var rows := [
      EvalRow("JSON", serialize(Json, df)),
      EvalRow("DICT", serialize(Dict, df)),
      EvalRow("CSV", serialize(Csv, df)),
      EvalRow("TSV (tab-separated)", serialize(Tsv, df)),
      EvalRow("HTML", serialize(Html, df)),
      EvalRow("LaTeX", serialize(Latex, df)),
      EvalRow("Markdown", serialize(Markdown, df)),
      EvalRow("STRING", serialize(PlainString, df)),
      EvalRow("NumPy", serialize(NumPy, df)),
      EvalRow("XML", serialize(Xml, df))
    ];
    assert Labels(rows) == ["JSON", "DICT", "CSV", "TSV (tab-separated)", "HTML",
                            "LaTeX", "Markdown", "STRING", "NumPy", "XML"];
    rows
  }

  /** Every format has exactly one row in the test set. */
  lemma EvalRowsCoverEachFormatOnce<P>(df: Frame, serialize: (Format, Frame) -> P)
    ensures forall f :: exists i :: 0 <= i < |EvalRows(df, serialize)| && EvalRows(df, serialize)[i].format == Label(f)
    ensures forall i, j :: 0 <= i < j < |EvalRows(df, serialize)| ==>
              EvalRows(df, serialize)[i].format != EvalRows(df, serialize)[j].format
  {
    var rows := EvalRows(df, serialize);
    assert Labels(rows)[0] == rows[0].format;
    forall f
      ensures exists i :: 0 <= i < |rows| && rows[i].format == Label(f)
    {
      var i := match f
        case Json => 0 case Dict => 1 case Csv => 2 case Tsv => 3 case Html => 4
        case Latex => 5 case Markdown => 6 case PlainString => 7 case NumPy => 8 case Xml => 9;
      assert Labels(rows)[i] == rows[i].format;
    }
  }

  /** The module-level script: extract the table from the chosen pages, then
      build the test set from it.  Extraction errors stop the script before
      any row is built. */
  method BuildTestSet<P>(pages: seq<Page>, serialize: (Format, Frame) -> P)
    returns (r: Result<seq<EvalRow<P>>, TableError>)
    ensures AnyEmptyTable(pages) ==> r == Failure(EmptyTable)
    ensures !AnyEmptyTable(pages) && LastTable(pages).None? ==> r == Failure(NoTable)
    ensures !AnyEmptyTable(pages) && LastTable(pages).Some? ==>
              r == Success(EvalRows(Normalize(LastTable(pages).value).value, serialize))
  {
    var df := GetTables(pages);
    if df.Failure? {
      return Failure(df.error);
    }
    r := Success(EvalRows(df.value, serialize));
  }
}
