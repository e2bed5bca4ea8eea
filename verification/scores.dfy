/** The score report reader (`carica_voti`): the text of the report's pages is
    concatenated, cut into lines, and each line that looks like a score line
    yields one record (match number, OA score, OT score). */
module Scores {
  import opened Wrappers
  import opened Seqs
  import opened Text
  import opened Decimals
  import opened Tables

  /** One recognised score line: the match number and the two scores. */
  datatype ScoreRecord = ScoreRecord(matchId: String, oa: Decimal, ot: Decimal)

  /** A score token is read with `,` taken as the decimal point. */
  function ParseScore(token: String): Option<Decimal>
  {
    ParseDecimal(ReplaceChar(token, ',', '.'))
  }

  predicate IsScoreToken(token: String)
  {
    IsDecimalLiteral(ReplaceChar(token, ',', '.'))
  }

  /** The acceptance test of one line's tokens: at least six of them, the first
      made of digits, the last two score tokens. */
  predicate IsScoreRow(parts: seq<String>)
  {
    && |parts| >= 6
    && IsNumeral(parts[0])
    && IsScoreToken(parts[|parts| - 2])
    && IsScoreToken(parts[|parts| - 1])
  }

  /** A score line is one whose whitespace-separated tokens pass the test. */
  predicate IsScoreLine(line: String)
  {
    IsScoreRow(Words(line))
  }

  /** The record a line's tokens yield: the first token and the scores of the last two. */
  function ParseRow(parts: seq<String>): (r: Option<ScoreRecord>)
    ensures r.Some? <==> IsScoreRow(parts)
    ensures r.Some? ==>
      && r.value.matchId == parts[0]
      && ParseScore(parts[|parts| - 2]) == Some(r.value.oa)
      && ParseScore(parts[|parts| - 1]) == Some(r.value.ot)
  {
    if |parts| >= 6 && IsNumeral(parts[0]) then
      var oa := ParseScore(parts[|parts| - 2]);
      var ot := ParseScore(parts[|parts| - 1]);
      if oa.Some? && ot.Some? then Some(ScoreRecord(parts[0], oa.value, ot.value)) else None
    else None
  }

  /** The loop body of `carica_voti` for one line: `line.strip().split()`, then the
      acceptance test; the record takes the first token and the last two, in order. */
  function ParseLine(line: String): (r: Option<ScoreRecord>)
    ensures r == ParseRow(Words(line))
    ensures r.Some? <==> IsScoreLine(line)
  {
    var parts := Words(Strip(line));
    assert parts == Words(line) by {
      WordsOfStrip(line);
    }
    ParseRow(parts)
  }

  /** The records of a text: its `"\n"`-separated lines, each parsed on its own. */
  function ParseText(text: String): (rs: seq<ScoreRecord>)
    ensures var lines := Split(text, '\n');
      forall j :: 0 <= j < |lines| && ParseLine(lines[j]).Some? ==> ParseLine(lines[j]).value in rs
  {
    var lines := Split(text, '\n');
    var rs := FilterMap(lines, ParseLine);
    rs
  }

  /** Conversely, every record is the one some line of the text yields. */
  lemma {:induction false} ParseTextSound(text: String, k: nat)
    requires k < |ParseText(text)|
    ensures exists j :: 0 <= j < |Split(text, '\n')| && ParseLine(Split(text, '\n')[j]) == Some(ParseText(text)[k])
  {
    var lines := Split(text, '\n');
    var j :| 0 <= j < |lines| && ParseLine(lines[j]) == Some(ParseText(text)[k]);
  }

  /** A line break separates the text into independent halves, so records come out
      in the order of their lines. */
  lemma {:induction false} ParseTextAtLineBreak(a: String, b: String)
    ensures ParseText(a + ['\n'] + b) == ParseText(a) + ParseText(b)
  {
    SplitAtSeparator(a, b, '\n');
    FilterMapAppend(Split(a, '\n'), Split(b, '\n'), ParseLine);
  }

  /** A text without a line break is one line: it yields its record or nothing. */
  lemma {:induction false} ParseTextOneLine(line: String)
    requires '\n' !in line
    ensures ParseText(line) == if IsScoreLine(line) then [ParseLine(line).value] else []
  {
    assert Find(line, IsChar('\n')) == |line| by {
      FindAbsent(line, IsChar('\n'));
    }
  }

  /** The text of the report: the pages' texts concatenated with no separator, so the
      last line of a page and the first line of the next form a single line. */
  function ReportText(pages: seq<String>): String
  {
    Flatten(pages)
  }

  function ParseReport(pages: seq<String>): seq<ScoreRecord>
  {
    ParseText(ReportText(pages))
  }

  /** Line 57: the match numbers of the table are trimmed. */
  function TrimMatchIds(rs: seq<ScoreRecord>): (ts: seq<ScoreRecord>)
    ensures |ts| == |rs|
    ensures forall k :: 0 <= k < |rs| ==> ts[k] == rs[k].(matchId := Strip(rs[k].matchId))
  {
    seq(|rs|, k requires 0 <= k < |rs| => rs[k].(matchId := Strip(rs[k].matchId)))
  }

  /** Every parsed match number is a run of ASCII digits, so the trimming at line 57
      leaves the records unchanged. */
  lemma {:induction false} ParsedIdsAreTrimmed(pages: seq<String>)
    ensures forall k :: 0 <= k < |ParseReport(pages)| ==> IsNumeral(ParseReport(pages)[k].matchId)
    ensures TrimMatchIds(ParseReport(pages)) == ParseReport(pages)
  {
    var rs := ParseReport(pages);
    var lines := Split(ReportText(pages), '\n');
    forall k | 0 <= k < |rs| ensures IsNumeral(rs[k].matchId) && Strip(rs[k].matchId) == rs[k].matchId {
      var j :| 0 <= j < |lines| && ParseLine(lines[j]) == Some(rs[k]);
      LineIdIsNumeral(lines[j], rs[k]);
      NumeralIsTrimmed(rs[k].matchId);
      TrimmedStripsToItself(rs[k].matchId);
    }
  }

  /** The match number of a recognised line is a numeral. */
  lemma {:induction false} LineIdIsNumeral(line: String, r: ScoreRecord)
    requires ParseLine(line) == Some(r)
    ensures IsNumeral(r.matchId)
  {
    assert IsScoreRow(Words(line));
  }

  /** `carica_voti` as written: when no line is recognised, `records` is empty and
      `pd.DataFrame([])` has no `NumGara` column, so line 57 raises `KeyError`. */
  function LoadScoresAsWritten(pages: seq<String>): (r: Result<seq<ScoreRecord>, Failure>)
    ensures r.Err? <==> ParseReport(pages) == []
    ensures r.Err? ==> r.error == MissingColumn("NumGara")
    ensures r.Ok? ==> r.value == ParseReport(pages)
  {
    var records := ParseReport(pages);
    if |records| == 0 then Err(MissingColumn("NumGara"))
    else
      ParsedIdsAreTrimmed(pages);
      Ok(TrimMatchIds(records))
  }

  /** A report with no score line (here a single blank page) makes the reader raise. */
  lemma {:induction false} EmptyReportFails()
    ensures LoadScoresAsWritten([""]) == Err(MissingColumn("NumGara"))
  {
    assert ReportText([""]) == "";
    assert Split("", '\n') == [""];
    assert Words("") == [];
  }

  /** `carica_voti` as intended: the records of the report, possibly none. */
  function LoadScores(pages: seq<String>): (r: seq<ScoreRecord>)
    ensures r == ParseReport(pages)
    ensures forall k :: 0 <= k < |r| ==> IsNumeral(r[k].matchId)
  {
    ParsedIdsAreTrimmed(pages);
    TrimMatchIds(ParseReport(pages))
  }

  /** The corrected reader returns the same records wherever the original one does not raise. */
  lemma {:induction false} LoadScoresAgrees(pages: seq<String>)
    ensures LoadScoresAsWritten(pages).Ok? ==> LoadScoresAsWritten(pages).value == LoadScores(pages)
    ensures LoadScoresAsWritten(pages).Err? ==> LoadScores(pages) == []
  {
  }
}
