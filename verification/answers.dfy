/** The query loop and the result table.

    The chat-completion call is the parameter `ask(question, context)`; the
    Python `str(...)` applied to a payload before it is sent is the
    parameter `show`. */
module Answers {
  import Tables
  import opened Formats

  /** A test-set row after the query loop: "Data Format", "Data raw",
      "Question" and "Answer". */
  datatype AnsweredRow<P> = AnsweredRow(format: string, raw: P, question: string, answer: string)

  /** `run_question_test`: one request per row, in row order, always with the
      same question and with that row's payload as context. */
  function RunQuestionTest<P>(query: string, rows: seq<EvalRow<P>>,
                              show: P -> string, ask: (string, string) -> string): (r: seq<AnsweredRow<P>>)
    ensures |r| == |rows|
    ensures forall i :: 0 <= i < |r| ==> r[i].format == rows[i].format && r[i].raw == rows[i].raw
    ensures forall i :: 0 <= i < |r| ==> r[i].question == query
    ensures forall i :: 0 <= i < |r| ==> r[i].answer == ask(query, show(rows[i].raw))
    decreases |rows|
  {
    if |rows| == 0 then []
    else
      var last := rows[|rows| - 1];
      RunQuestionTest(query, rows[..|rows| - 1], show, ask)
        + [AnsweredRow(last.format, last.raw, query, ask(query, show(last.raw)))]
  }

  /** The test-set columns of answered rows. */
  function Unanswered<P>(rows: seq<AnsweredRow<P>>): (r: seq<EvalRow<P>>)
    ensures |r| == |rows|
  {
    seq(|rows|, i requires 0 <= i < |rows| => EvalRow(rows[i].format, rows[i].raw))
  }

  /** The query loop only adds the two columns: dropping them gives back the
      test set, row for row. */
  lemma RunQuestionTestKeepsRows<P>(query: string, rows: seq<EvalRow<P>>,
                                    show: P -> string, ask: (string, string) -> string)
    ensures Unanswered(RunQuestionTest(query, rows, show, ask)) == rows
  {
  }

  /** The loop treats rows independently: splitting the test set and
      answering each part gives the same rows in the same order. */
  lemma RunQuestionTestAppend<P>(query: string, a: seq<EvalRow<P>>, b: seq<EvalRow<P>>,
                                  show: P -> string, ask: (string, string) -> string)
    ensures RunQuestionTest(query, a + b, show, ask)
         == RunQuestionTest(query, a, show, ask) + RunQuestionTest(query, b, show, ask)
  {
  }

  /** A table as handed to the terminal renderer: its width bound, header
      and rows of cells. */
  datatype Table = Table(maxWidth: int, header: seq<string>, rows: seq<seq<string>>)

  const Header: seq<string> := ["Data Format", "Query", "Answer"]

  /** `BeautifulTableformat`: the fixed header and one row per result, in
      order, holding the format, the question passed in, and the answer. */
  function BeautifulTableFormat<P>(query: string, results: seq<AnsweredRow<P>>, maxWidth: int): (t: Table)
    ensures t.maxWidth == maxWidth && t.header == Header
    ensures |t.rows| == |results|
    ensures forall i :: 0 <= i < |t.rows| ==> t.rows[i] == [results[i].format, query, results[i].answer]
    decreases |results|
  {
    if |results| == 0 then Table(maxWidth, Header, [])
    else
      var last := results[|results| - 1];
      var t := BeautifulTableFormat(query, results[..|results| - 1], maxWidth);
      t.(rows := t.rows + [[last.format, query, last.answer]])
  }

  /** The whole script after extraction: the ten-row test set, the query
      loop and the result table, for one question.  Row i of the table names
      a format, repeats the question, and holds the answer obtained with the
      table serialised in that very format. */
  lemma ReportCoversEveryFormat<P>(df: Tables.Frame, serialize: (Format, Tables.Frame) -> P,
                                   query: string, show: P -> string, ask: (string, string) -> string,
                                   maxWidth: int)
    ensures var t := BeautifulTableFormat(query, RunQuestionTest(query, EvalRows(df, serialize), show, ask), maxWidth);
      && |t.rows| == 10
      && (forall f :: exists i :: 0 <= i < |t.rows| && t.rows[i][0] == Label(f))
      && (forall i, j :: 0 <= i < j < |t.rows| ==> t.rows[i][0] != t.rows[j][0])
      && (forall i :: 0 <= i < |t.rows| ==>
            && FormatOf(t.rows[i][0]).Some?
            && t.rows[i][1] == query
            && t.rows[i][2] == ask(query, show(serialize(FormatOf(t.rows[i][0]).value, df))))
  {
    var rows := EvalRows(df, serialize);
    var t := BeautifulTableFormat(query, RunQuestionTest(query, rows, show, ask), maxWidth);
    EvalRowsCoverEachFormatOnce(df, serialize);
    assert |Labels(rows)| == 10;
    forall f
      ensures exists i :: 0 <= i < |t.rows| && t.rows[i][0] == Label(f)
    {
      var i :| 0 <= i < |rows| && rows[i].format == Label(f);
      assert t.rows[i][0] == Label(f);
    }
  }
}
