/** The whole page: for every referee of the roster, one cell per week of the
    configured period (app.py lines 93-149), once as the program computes it,
    failures included, and once with the failures corrected. */
module Board {
  import opened Wrappers
  import opened Text
  import opened Calendar
  import opened Tables
  import opened Scores
  import opened Merging
  import opened Grid

  /** The inputs: the roster file is always read; the match file, the score report
      (its pages' texts) and the unavailability file are optional uploads. */
  datatype Uploads = Uploads(roster: seq<Referee>, matches: Option<seq<MatchRow>>,
                             report: Option<seq<String>>, unavail: Option<seq<UnavailRow>>)

  /** A missing upload read as an empty table. */
  function Uploaded<T>(o: Option<seq<T>>): seq<T>
  {
    match o
    case None => []
    case Some(rows) => rows
  }


  // ---------------------------------------------------------------------------
  // The page as intended

  /** The merged rows when a missing upload counts as an empty table. */
  function MergedRows(up: Uploads): seq<JoinedRow>
  {
    LeftJoin(LoadMatches(Uploaded(up.matches)), LoadScores(Uploaded(up.report)))
  }

  /** The text of the cell of referee `code` in week `w`. */
  function CellOf(up: Uploads, code: String, w: Week): String
  {
    Cell(SelectMatches(MergedRows(up), code, w), SelectUnavail(LoadUnavailability(Uploaded(up.unavail)), code, w))
  }

  /** The grid over the weeks `ws` with missing uploads read as empty tables: one row
      per roster entry, in roster order, one cell per week; it always renders. */
  function Page(up: Uploads, ws: seq<Week>): (board: seq<seq<String>>)
    ensures |board| == |up.roster|
    ensures forall i :: 0 <= i < |board| ==> |board[i]| == |ws|
    ensures forall i, j :: 0 <= i < |board| && 0 <= j < |ws| ==> board[i][j] == CellOf(up, Strip(up.roster[i].code), ws[j])
  {
    var refs := LoadRoster(up.roster);
    seq(|refs|, i requires 0 <= i < |refs| => PageRow(up, refs[i].code, ws))
  }

  /** The cells of the referee `code`, one per week. */
  function PageRow(up: Uploads, code: String, ws: seq<Week>): (row: seq<String>)
    ensures |row| == |ws|
    ensures forall j :: 0 <= j < |ws| ==> row[j] == CellOf(up, code, ws[j])
  {
    seq(|ws|, j requires 0 <= j < |ws| => CellOf(up, code, ws[j]))
  }

  /** The page of the configured period: nine week columns per referee. */
  function Dashboard(up: Uploads): (board: seq<seq<String>>)
    ensures |board| == |up.roster|
    ensures forall i :: 0 <= i < |board| ==> |board[i]| == 9
    ensures forall i, j :: 0 <= i < |board| && 0 <= j < 9 ==>
      board[i][j] == CellOf(up, Strip(up.roster[i].code), Weeks(PeriodStart, PeriodEnd)[j])
  {
    ConfiguredWeeks();
    Page(up, Weeks(PeriodStart, PeriodEnd))
  }

  /** A match row of the upload is shown in week `w` for the referee `code`. */
  predicate GameInWeek(code: String, w: Week, m: MatchRow)
  {
    m.code == code && m.date.Some? && w.first <= m.date.value <= w.last
  }

  /** No merged row is shown in a week exactly when no uploaded match row is: the
      join keeps every match row and invents none. */
  lemma {:induction false} MatchesSelectedIff(ms: seq<MatchRow>, ss: seq<ScoreRecord>, code: String, w: Week)
    ensures |SelectMatches(LeftJoin(ms, ss), code, w)| == 0 <==> forall k :: 0 <= k < |ms| ==> !GameInWeek(code, w, ms[k])
  {
    var rows := LeftJoin(ms, ss);
    var sel := SelectMatches(rows, code, w);
    if |sel| > 0 {
      assert sel[0] in rows && MatchInWeek(code, w, sel[0]);
      var t :| 0 <= t < |rows| && rows[t] == sel[0];
      assert rows[t].game in ms;
      var k :| 0 <= k < |ms| && ms[k] == rows[t].game;
      assert GameInWeek(code, w, ms[k]);
    } else {
      forall k | 0 <= k < |ms| ensures !GameInWeek(code, w, ms[k]) {
        LeftJoinRetains(ms, ss, k);
        var t :| 0 <= t < |rows| && rows[t].game == ms[k];
        assert !MatchInWeek(code, w, rows[t]);
      }
    }
  }

  /** No unavailability row is shown in a week exactly when none overlaps it. */
  lemma {:induction false} UnavailSelectedIff(us: seq<UnavailRow>, code: String, w: Week)
    ensures |SelectUnavail(us, code, w)| == 0 <==> forall k :: 0 <= k < |us| ==> !UnavailInWeek(code, w, us[k])
  {
    var sel := SelectUnavail(us, code, w);
    if |sel| > 0 {
      assert sel[0] in us && UnavailInWeek(code, w, sel[0]);
    }
  }

  /** A cell is `"-"` exactly when the referee has no dated match in the week and no
      unavailability range overlapping it, in the uploaded tables as loaded. */
  lemma {:induction false} DashboardDash(up: Uploads, ws: seq<Week>, i: int, j: int)
    requires 0 <= i < |up.roster| && 0 <= j < |ws|
    ensures var code := Strip(up.roster[i].code);
      var ms := LoadMatches(Uploaded(up.matches));
      var us := LoadUnavailability(Uploaded(up.unavail));
      Page(up, ws)[i][j] == "-" <==>
        (forall k :: 0 <= k < |ms| ==> !GameInWeek(code, ws[j], ms[k]))
        && (forall k :: 0 <= k < |us| ==> !UnavailInWeek(code, ws[j], us[k]))
  {
    var code := Strip(up.roster[i].code);
    var ms := LoadMatches(Uploaded(up.matches));
    var us := LoadUnavailability(Uploaded(up.unavail));
    var c := CellOf(up, code, ws[j]);
    assert Page(up, ws)[i][j] == c by {
      assert LoadRoster(up.roster)[i].code == code;
    }
    assert c == "-" <==>
      (forall k :: 0 <= k < |ms| ==> !GameInWeek(code, ws[j], ms[k]))
      && (forall k :: 0 <= k < |us| ==> !UnavailInWeek(code, ws[j], us[k]))
    by {
      MatchesSelectedIff(ms, LoadScores(Uploaded(up.report)), code, ws[j]);
      UnavailSelectedIff(us, code, ws[j]);
    }
  }

  /** With neither the match file nor the unavailability file, every cell is `"-"`. */
  lemma {:induction false} NoUploadsAllDashes(up: Uploads, ws: seq<Week>)
    requires up.matches.None? && up.unavail.None?
    ensures forall i, j :: 0 <= i < |up.roster| && 0 <= j < |ws| ==> Page(up, ws)[i][j] == "-"
  {
    assert MergedRows(up) == [];
    forall i, j | 0 <= i < |up.roster| && 0 <= j < |ws| ensures Page(up, ws)[i][j] == "-" {
      var code := LoadRoster(up.roster)[i].code;
      assert Page(up, ws)[i][j] == CellOf(up, code, ws[j]);
      assert SelectMatches([], code, ws[j]) == [];
      assert SelectUnavail([], code, ws[j]) == [];
    }
  }

  /** An empty report holds no score line. */
  lemma {:induction false} NoReportNoScores(pages: seq<String>)
    requires |pages| == 0
    ensures LoadScores(pages) == []
  {
    var text := ReportText(pages);
    assert |text| == 0;
    assert Split(text, '\n') == [text];
    assert Words(Strip(text)) == [] by {
      StripBlank(text);
    }
    assert ParseLine(text) == None;
  }

  /** A report without score lines gives the same page as no report at all. */
  lemma {:induction false} ReportWithoutScoresIsNoReport(up: Uploads, pages: seq<String>, ws: seq<Week>)
    requires up.report == Some(pages) && ParseReport(pages) == []
    ensures Page(up, ws) == Page(up.(report := None), ws)
  {
    var up' := up.(report := None);
    NoReportNoScores(Uploaded(up'.report));
    assert MergedRows(up) == MergedRows(up');
    var refs := LoadRoster(up.roster);
    forall i | 0 <= i < |refs| ensures Page(up, ws)[i] == Page(up', ws)[i] {
      forall j | 0 <= j < |ws| ensures Page(up, ws)[i][j] == Page(up', ws)[i][j] {
        assert Page(up, ws)[i][j] == CellOf(up, refs[i].code, ws[j]);
        assert Page(up', ws)[i][j] == CellOf(up', refs[i].code, ws[j]);
      }
    }
  }

  // ---------------------------------------------------------------------------
  // The page as written

  /** One cell as lines 120-149 compute it: the column lookups of lines 121 and 126
      fail on a frame without columns, and line 139 fails on the text `""` that
      `gara.get("Voto OA", "")` gives when the merged table has no score column. */
  function CellAsWritten(merged: Merged, indisp: Frame<UnavailRow>, code: String, w: Week): (r: Result<String, Failure>)
    ensures r.Err? <==>
      merged.table.Blank? || indisp.Blank? || (!merged.scoreColumns && |SelectMatches(RowsOf(merged.table), code, w)| > 0)
    ensures r.Err? && (merged.table.Blank? || indisp.Blank?) ==> r.error == MissingColumn("Cod.Mecc.")
    ensures r.Err? && merged.table.Table? && indisp.Table? ==> r.error == FormatError
    ensures r.Ok? ==> r.value == Cell(SelectMatches(RowsOf(merged.table), code, w), SelectUnavail(RowsOf(indisp), code, w))
  {
    match merged.table
    case Blank => Err(MissingColumn("Cod.Mecc."))
    case Table(rows) =>
      var games := SelectMatches(rows, code, w);
      match indisp
      case Blank => Err(MissingColumn("Cod.Mecc."))
      case Table(us) =>
        if |games| > 0 && !merged.scoreColumns then Err(FormatError)
        else Ok(Cell(games, SelectUnavail(us, code, w)))
  }

  /** The outcome of each cell of one referee, week by week. */
  function CellsAsWritten(merged: Merged, indisp: Frame<UnavailRow>, code: String, ws: seq<Week>): (cs: seq<Result<String, Failure>>)
    ensures |cs| == |ws|
    ensures forall j :: 0 <= j < |ws| ==> cs[j] == CellAsWritten(merged, indisp, code, ws[j])
  {
    seq(|ws|, j requires 0 <= j < |ws| => CellAsWritten(merged, indisp, code, ws[j]))
  }

  /** The cells of one referee; the first failing cell ends the page. */
  function RowAsWritten(merged: Merged, indisp: Frame<UnavailRow>, code: String, ws: seq<Week>): Result<seq<String>, Failure>
  {
    Collect(CellsAsWritten(merged, indisp, code, ws))
  }

  /** The outcome of each referee's row, in roster order. */
  function RowsAsWritten(merged: Merged, indisp: Frame<UnavailRow>, refs: seq<Referee>, ws: seq<Week>): (rs: seq<Result<seq<String>, Failure>>)
    ensures |rs| == |refs|
    ensures forall i :: 0 <= i < |refs| ==> rs[i] == RowAsWritten(merged, indisp, refs[i].code, ws)
  {
    seq(|refs|, i requires 0 <= i < |refs| => RowAsWritten(merged, indisp, refs[i].code, ws))
  }

  /** The rows of all referees; the first failing row ends the page. */
  function GridAsWritten(merged: Merged, indisp: Frame<UnavailRow>, refs: seq<Referee>, ws: seq<Week>): Result<seq<seq<String>>, Failure>
  {
    Collect(RowsAsWritten(merged, indisp, refs, ws))
  }

  /** The match frame of line 94. */
  function MatchFrame(up: Uploads): Frame<MatchRow>
  {
    match up.matches
    case None => Blank
    case Some(rows) => Table(LoadMatches(rows))
  }

  /** The score frame of line 95, or the failure of `carica_voti`. */
  function ScoreFrame(up: Uploads): Result<Frame<ScoreRecord>, Failure>
  {
    match up.report
    case None => Ok(Blank)
    case Some(pages) =>
      match LoadScoresAsWritten(pages)
      case Err(e) => Err(e)
      case Ok(rs) => Ok(Table(rs))
  }

  /** The unavailability frame of line 96. */
  function UnavailFrame(up: Uploads): Frame<UnavailRow>
  {
    match up.unavail
    case None => Blank
    case Some(rows) => Table(LoadUnavailability(rows))
  }

  /** Lines 93-149 as written over the weeks `ws`: load, merge, then fill the grid
      referee by referee; a failing loader ends the page before the grid. */
  function PageAsWritten(up: Uploads, ws: seq<Week>): (r: Result<seq<seq<String>>, Failure>)
    ensures ScoreFrame(up).Err? ==> r == Err(ScoreFrame(up).error)
  {
    match ScoreFrame(up)
    case Err(e) => Err(e)
    case Ok(voti) =>
      GridAsWritten(Merge(MatchFrame(up), voti), UnavailFrame(up), LoadRoster(up.roster), ws)
  }

  /** The page of the configured period as written. */
  function DashboardAsWritten(up: Uploads): Result<seq<seq<String>>, Failure>
  {
    PageAsWritten(up, Weeks(PeriodStart, PeriodEnd))
  }

  // ---------------------------------------------------------------------------
  // The two pages agree wherever the program does not fail

  /** The score rows the program merges are the ones the intended page uses. */
  lemma {:induction false} ScoreFrameRows(up: Uploads)
    requires ScoreFrame(up).Ok?
    ensures RowsOf(ScoreFrame(up).value) == LoadScores(Uploaded(up.report))
  {
    if up.report.None? {
      NoReportNoScores(Uploaded(up.report));
    }
  }

  /** With the match file uploaded, the merged frame has the rows of the intended page. */
  lemma {:induction false} MergedFrameRows(up: Uploads)
    requires ScoreFrame(up).Ok? && up.matches.Some?
    ensures RowsOf(Merge(MatchFrame(up), ScoreFrame(up).value).table) == MergedRows(up)
  {
    var ms := LoadMatches(up.matches.value);
    assert MatchFrame(up) == Table(ms);
    assert MatchesTrimmed(ms);
    ScoreFrameRows(up);
  }

  /** A cell the program renders is the intended cell. */
  lemma {:induction false} CellAgrees(up: Uploads, code: String, w: Week)
    requires ScoreFrame(up).Ok?
    ensures var c := CellAsWritten(Merge(MatchFrame(up), ScoreFrame(up).value), UnavailFrame(up), code, w);
      c.Ok? ==> c.value == CellOf(up, code, w)
  {
    var merged := Merge(MatchFrame(up), ScoreFrame(up).value);
    var indisp := UnavailFrame(up);
    var c := CellAsWritten(merged, indisp, code, w);
    if c.Ok? {
      assert merged.table.Table? && indisp.Table?;
      assert up.matches.Some? && up.unavail.Some?;
      assert RowsOf(merged.table) == MergedRows(up) by {
        MergedFrameRows(up);
      }
      assert RowsOf(indisp) == LoadUnavailability(Uploaded(up.unavail));
      assert c.value == Cell(SelectMatches(RowsOf(merged.table), code, w), SelectUnavail(RowsOf(indisp), code, w));
    }
  }

  /** A row the program renders is the intended row. */
  lemma {:induction false} RowAgrees(up: Uploads, ws: seq<Week>, code: String)
    requires ScoreFrame(up).Ok?
    ensures var row := RowAsWritten(Merge(MatchFrame(up), ScoreFrame(up).value), UnavailFrame(up), code, ws);
      row.Ok? ==> row.value == PageRow(up, code, ws)
  {
    var merged := Merge(MatchFrame(up), ScoreFrame(up).value);
    var cells := CellsAsWritten(merged, UnavailFrame(up), code, ws);
    var want := PageRow(up, code, ws);
    forall j | 0 <= j < |ws| && cells[j].Ok? ensures cells[j].value == want[j] {
      CellAgrees(up, code, ws[j]);
    }
    CollectAgrees(cells, want);
  }

  /** Whenever the program renders the page, it renders the intended one. */
  lemma {:induction false} PageAgrees(up: Uploads, ws: seq<Week>)
    ensures PageAsWritten(up, ws).Ok? ==> PageAsWritten(up, ws).value == Page(up, ws)
  {
    if ScoreFrame(up).Ok? {
      var merged := Merge(MatchFrame(up), ScoreFrame(up).value);
      var refs := LoadRoster(up.roster);
      var rows := RowsAsWritten(merged, UnavailFrame(up), refs, ws);
      var want := Page(up, ws);
      forall i | 0 <= i < |refs| && rows[i].Ok? ensures rows[i].value == want[i] {
        RowAgrees(up, ws, refs[i].code);
      }
      CollectAgrees(rows, want);
    }
  }

  /** The configured page agrees as well. */
  lemma {:induction false} DashboardAgrees(up: Uploads)
    ensures DashboardAsWritten(up).Ok? ==> DashboardAsWritten(up).value == Dashboard(up)
  {
    PageAgrees(up, Weeks(PeriodStart, PeriodEnd));
  }

  // ---------------------------------------------------------------------------
  // Where the program fails

  /** A failure of the grid is the failure of some cell. */
  lemma {:induction false} GridFailureIsCellFailure(merged: Merged, indisp: Frame<UnavailRow>, refs: seq<Referee>, ws: seq<Week>)
    requires GridAsWritten(merged, indisp, refs, ws).Err?
    ensures exists i, j ::
      && 0 <= i < |refs| && 0 <= j < |ws|
      && CellAsWritten(merged, indisp, refs[i].code, ws[j]) == Err(GridAsWritten(merged, indisp, refs, ws).error)
  {
    var i := GridFailureIsRowFailure(merged, indisp, refs, ws);
    var j := RowFailureIsCellFailure(merged, indisp, refs[i].code, ws);
  }

  /** A failure of the grid is the failure of the row of some referee `i`. */
  lemma {:induction false} GridFailureIsRowFailure(merged: Merged, indisp: Frame<UnavailRow>, refs: seq<Referee>, ws: seq<Week>) returns (i: nat)
    requires GridAsWritten(merged, indisp, refs, ws).Err?
    ensures i < |refs| && RowAsWritten(merged, indisp, refs[i].code, ws) == Err(GridAsWritten(merged, indisp, refs, ws).error)
  {
    var rows := RowsAsWritten(merged, indisp, refs, ws);
    i :| 0 <= i < |rows| && rows[i] == Err(Collect(rows).error);
  }

  /** A failure of a row is the failure of its cell in some week `j`. */
  lemma {:induction false} RowFailureIsCellFailure(merged: Merged, indisp: Frame<UnavailRow>, code: String, ws: seq<Week>) returns (j: nat)
    requires RowAsWritten(merged, indisp, code, ws).Err?
    ensures j < |ws| && CellAsWritten(merged, indisp, code, ws[j]) == Err(RowAsWritten(merged, indisp, code, ws).error)
  {
    var cells := CellsAsWritten(merged, indisp, code, ws);
    j :| 0 <= j < |cells| && cells[j] == Err(Collect(cells).error);
  }

  /** A failing cell makes the grid fail. */
  lemma {:induction false} CellFailureFailsGrid(merged: Merged, indisp: Frame<UnavailRow>, refs: seq<Referee>, ws: seq<Week>, i: int, j: int)
    requires 0 <= i < |refs| && 0 <= j < |ws|
    requires CellAsWritten(merged, indisp, refs[i].code, ws[j]).Err?
    ensures GridAsWritten(merged, indisp, refs, ws).Err?
  {
    var cells := CellsAsWritten(merged, indisp, refs[i].code, ws);
    assert !cells[j].Ok?;
    var rows := RowsAsWritten(merged, indisp, refs, ws);
    assert !rows[i].Ok?;
  }

  /** A report with no recognised score line stops the page with `KeyError: 'NumGara'`. */
  lemma {:induction false} ReportWithoutScoresFails(up: Uploads, pages: seq<String>, ws: seq<Week>)
    requires up.report == Some(pages) && ParseReport(pages) == []
    ensures PageAsWritten(up, ws) == Err(MissingColumn("NumGara"))
  {
  }

  /** With a non-empty roster, a missing match file or a missing unavailability file
      stops the page with `KeyError: 'Cod.Mecc.'`, unless the score reader has
      already stopped it with its own error. */
  lemma {:induction false} MissingUploadFails(up: Uploads, ws: seq<Week>)
    requires |up.roster| > 0 && |ws| > 0
    requires up.matches.None? || up.unavail.None?
    ensures PageAsWritten(up, ws) ==
      Err(if ScoreFrame(up).Ok? then MissingColumn("Cod.Mecc.") else ScoreFrame(up).error)
  {
    if ScoreFrame(up).Ok? {
      var merged := Merge(MatchFrame(up), ScoreFrame(up).value);
      var indisp := UnavailFrame(up);
      var refs := LoadRoster(up.roster);
      assert merged.table.Blank? || indisp.Blank?;
      GridFailsWith(merged, indisp, refs, ws, 0, 0, MissingColumn("Cod.Mecc."));
    }
  }

  /** A grid whose cells can only fail with `e` and with a failing cell fails with `e`. */
  lemma {:induction false} GridFailsWith(merged: Merged, indisp: Frame<UnavailRow>, refs: seq<Referee>, ws: seq<Week>, i: int, j: int, e: Failure)
    requires 0 <= i < |refs| && 0 <= j < |ws|
    requires CellAsWritten(merged, indisp, refs[i].code, ws[j]).Err?
    requires forall i', j' ::
               0 <= i' < |refs| && 0 <= j' < |ws| && CellAsWritten(merged, indisp, refs[i'].code, ws[j']).Err?
               ==> CellAsWritten(merged, indisp, refs[i'].code, ws[j']).error == e
    ensures GridAsWritten(merged, indisp, refs, ws) == Err(e)
  {
    CellFailureFailsGrid(merged, indisp, refs, ws, i, j);
    GridFailureIsCellFailure(merged, indisp, refs, ws);
  }

  /** Without a score report, a match shown anywhere on the page stops it with the
      `ValueError` of formatting `""` as a number; without an unavailability file,
      line 126 stops it first with `KeyError: 'Cod.Mecc.'`. */
  lemma {:induction false} UnscoredMatchFails(up: Uploads, ws: seq<Week>, i: int, j: int, k: int)
    requires up.report.None? && up.matches.Some?
    requires 0 <= i < |up.roster| && 0 <= j < |ws| && 0 <= k < |MergedRows(up)|
    requires MatchInWeek(Strip(up.roster[i].code), ws[j], MergedRows(up)[k])
    ensures PageAsWritten(up, ws) == Err(if up.unavail.Some? then FormatError else MissingColumn("Cod.Mecc."))
  {
    if up.unavail.None? {
      MissingUploadFails(up, ws);
    } else {
      UnscoredMatchFailsWithRanges(up, ws, i, j, k);
    }
  }

  lemma {:induction false} UnscoredMatchFailsWithRanges(up: Uploads, ws: seq<Week>, i: int, j: int, k: int)
    requires up.report.None? && up.matches.Some? && up.unavail.Some?
    requires 0 <= i < |up.roster| && 0 <= j < |ws| && 0 <= k < |MergedRows(up)|
    requires MatchInWeek(Strip(up.roster[i].code), ws[j], MergedRows(up)[k])
    ensures PageAsWritten(up, ws) == Err(FormatError)
  {
    var merged := Merge(MatchFrame(up), Blank);
    var indisp := UnavailFrame(up);
    var refs := LoadRoster(up.roster);
    var code := refs[i].code;
    assert PageAsWritten(up, ws) == GridAsWritten(merged, indisp, refs, ws) by {
      assert ScoreFrame(up) == Ok(Blank);
    }
    assert merged.table.Table? && indisp.Table? && RowsOf(merged.table) == MergedRows(up) && !merged.scoreColumns by {
      assert ScoreFrame(up) == Ok(Blank);
      ScoreFrameRows(up);
    }
    assert CellAsWritten(merged, indisp, code, ws[j]).Err? by {
      assert MergedRows(up)[k] in SelectMatches(MergedRows(up), code, ws[j]);
    }
    GridFailsWith(merged, indisp, refs, ws, i, j, FormatError);
  }

  // ---------------------------------------------------------------------------
  // Concrete witnesses

  const Referee1: Referee := Referee("1", "Rossi", "Mario", "Roma", "30")
  const Match1: MatchRow := MatchRow("1", "7", Some(PeriodStart), "U17", "A", "Referee")

  /** An unscored match alone in a cell is shown as its bare line. */
  lemma {:induction false} BareMatchCell(m: MatchRow)
    requires |m.group| == 1 && !IsSpace(m.group[0])
    requires |m.category| > 0 && !IsSpace(m.category[0])
    requires |m.role| > 0 && !IsSpace(m.role[|m.role| - 1])
    ensures Cell([Unscored(m)], []) == m.category + Sep + m.group + Sep + m.role
  {
    var line := m.category + Sep + m.group + Sep + m.role;
    assert GroupLetter(m.group) == m.group by {
      TrimmedStripsToItself(m.group);
    }
    assert MatchLine(Unscored(m)) == line;
    assert Lines([Unscored(m)], []) == [line];
    assert Join([line], '\n') == line;
    assert Trimmed(line) by {
      assert line[0] == m.category[0];
      assert line[|line| - 1] == m.role[|m.role| - 1];
    }
    TrimmedStripsToItself(line);
  }

  /** A single trimmed match and no report merge into that match, unscored. */
  lemma {:induction false} SingleMatchRows(up: Uploads, m: MatchRow)
    requires up.matches == Some([m]) && up.report.None?
    requires Trimmed(m.code) && Trimmed(m.matchId)
    ensures MergedRows(up) == [Unscored(m)]
  {
    assert LoadMatches([m]) == [m] by {
      TrimmedStripsToItself(m.code);
      TrimmedStripsToItself(m.matchId);
    }
    NoReportNoScores(Uploaded(up.report));
    LeftJoinNoScores([m]);
  }

  /** The tables of the first witness once loaded and merged. */
  lemma {:induction false} WitnessTables(up: Uploads)
    requires up == Uploads([Referee1], Some([Match1]), None, Some([]))
    ensures MergedRows(up) == [Unscored(Match1)]
    ensures LoadRoster(up.roster)[0].code == Match1.code
    ensures LoadUnavailability(Uploaded(up.unavail)) == []
  {
    SingleMatchRows(up, Match1);
    TrimmedStripsToItself(up.roster[0].code);
  }

  /** One referee with one match on the first day of the period, no score report,
      an empty unavailability file: the program fails. */
  lemma {:induction false} UnscoredMatchWitness(up: Uploads)
    requires up == Uploads([Referee1], Some([Match1]), None, Some([]))
    ensures DashboardAsWritten(up) == Err(FormatError)
  {
    var ws := Weeks(PeriodStart, PeriodEnd);
    ConfiguredWeeks();
    assert ws[0] == Week(PeriodStart, PeriodStart + 6);
    WitnessTables(up);
    UnscoredMatchFails(up, ws, 0, 0, 0);
  }

  /** The same uploads: the intended page shows the match without scores. */
  lemma {:induction false} UnscoredMatchShown(up: Uploads)
    requires up == Uploads([Referee1], Some([Match1]), None, Some([]))
    ensures Dashboard(up)[0][0] == "U17 \U{2013} A \U{2013} Referee"
  {
    var ws := Weeks(PeriodStart, PeriodEnd);
    ConfiguredWeeks();
    assert ws[0] == Week(PeriodStart, PeriodStart + 6);
    WitnessTables(up);
    AlnumIsNotSpace('A');
    AlnumIsNotSpace('U');
    AlnumIsNotSpace('e');
    LoneMatchCell(up, ws, Match1);
    WitnessLine(Match1.category, Match1.group, Match1.role);
  }

  /** When the merged table is one unscored match of the first referee, in the
      first week, and nobody is unavailable, the first cell is the match's bare line. */
  lemma {:induction false} LoneMatchCell(up: Uploads, ws: seq<Week>, m: MatchRow)
    requires |up.roster| > 0 && |ws| > 0
    requires MergedRows(up) == [Unscored(m)] && LoadUnavailability(Uploaded(up.unavail)) == []
    requires LoadRoster(up.roster)[0].code == m.code && GameInWeek(m.code, ws[0], m)
    requires |m.group| == 1 && !IsSpace(m.group[0])
    requires |m.category| > 0 && !IsSpace(m.category[0])
    requires |m.role| > 0 && !IsSpace(m.role[|m.role| - 1])
    ensures Page(up, ws)[0][0] == m.category + Sep + m.group + Sep + m.role
  {
    assert Page(up, ws)[0][0] == CellOf(up, m.code, ws[0]);
    assert CellOf(up, m.code, ws[0]) == Cell([Unscored(m)], []) by {
      SelectOne(Unscored(m), m.code, ws[0]);
      assert SelectUnavail([], m.code, ws[0]) == [];
    }
    BareMatchCell(m);
  }

  /** A single row shown in the week is selected on its own. */
  lemma {:induction false} SelectOne(r: JoinedRow, code: String, w: Week)
    requires MatchInWeek(code, w, r)
    ensures SelectMatches([r], code, w) == [r]
  {
    var sel := SelectMatches([r], code, w);
    assert r in sel;
    assert |sel| <= 1;
  }

  lemma {:induction false} WitnessLine(category: String, group: String, role: String)
    requires category == "U17" && group == "A" && role == "Referee"
    ensures category + Sep + group + Sep + role == "U17 \U{2013} A \U{2013} Referee"
  {
  }

  /** One referee and no uploads: the program fails, the intended page is all dashes. */
  lemma {:induction false} MissingUploadWitness(up: Uploads)
    requires up == Uploads([Referee1], None, None, None)
    ensures DashboardAsWritten(up) == Err(MissingColumn("Cod.Mecc."))
    ensures forall j :: 0 <= j < 9 ==> Dashboard(up)[0][j] == "-"
  {
    ConfiguredWeeks();
    MissingUploadFails(up, Weeks(PeriodStart, PeriodEnd));
    NoUploadsAllDashes(up, Weeks(PeriodStart, PeriodEnd));
  }

  /** A report whose only page has no score line: the program fails, the intended
      page is the one without a report. */
  lemma {:induction false} EmptyReportWitness(up: Uploads)
    requires up.report == Some([""])
    ensures DashboardAsWritten(up) == Err(MissingColumn("NumGara"))
    ensures Dashboard(up) == Dashboard(up.(report := None))
  {
    EmptyReportFails();
    ReportWithoutScoresFails(up, [""], Weeks(PeriodStart, PeriodEnd));
    ReportWithoutScoresIsNoReport(up, [""], Weeks(PeriodStart, PeriodEnd));
  }
}
