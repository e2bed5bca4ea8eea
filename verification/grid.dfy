/** One cell of the weekly grid (app.py lines 118-149): the matches and the
    unavailability ranges of one referee that fall in one week, rendered as text. */
module Grid {
  import opened Wrappers
  import opened Seqs
  import opened Text
  import opened Decimals
  import opened Calendar
  import opened Tables
  import opened Merging

  // ---------------------------------------------------------------------------
  // Selection

  /** Lines 120-123: the referee's code and a match date inside the closed week;
      a match whose date did not parse (`NaT`) compares false and is never selected. */
  predicate MatchInWeek(code: String, w: Week, r: JoinedRow)
  {
    r.game.code == code && r.game.date.Some? && w.first <= r.game.date.value <= w.last
  }

  /** Lines 125-128: the referee's code and a range that starts no later than the
      week's last day and ends no earlier than its first day; a missing bound
      compares false. */
  predicate UnavailInWeek(code: String, w: Week, u: UnavailRow)
  {
    u.code == code && u.start.Some? && u.end.Some? && u.start.value <= w.last && u.end.value >= w.first
  }

  /** The merged rows shown in a week, in table order. */
  function SelectMatches(rows: seq<JoinedRow>, code: String, w: Week): (sel: seq<JoinedRow>)
    ensures forall k :: 0 <= k < |sel| ==> sel[k] in rows && MatchInWeek(code, w, sel[k])
    ensures forall k :: 0 <= k < |rows| && MatchInWeek(code, w, rows[k]) ==> rows[k] in sel
    ensures forall x :: multiset(sel)[x] == if MatchInWeek(code, w, x) then multiset(rows)[x] else 0
  {
    FilterCount(rows, (r: JoinedRow) => MatchInWeek(code, w, r));
    Filter(rows, (r: JoinedRow) => MatchInWeek(code, w, r))
  }

  /** The unavailability rows shown in a week, in table order. */
  function SelectUnavail(us: seq<UnavailRow>, code: String, w: Week): (sel: seq<UnavailRow>)
    ensures forall k :: 0 <= k < |sel| ==> sel[k] in us && UnavailInWeek(code, w, sel[k])
    ensures forall k :: 0 <= k < |us| && UnavailInWeek(code, w, us[k]) ==> us[k] in sel
    ensures forall x :: multiset(sel)[x] == if UnavailInWeek(code, w, x) then multiset(us)[x] else 0
  {
    FilterCount(us, (u: UnavailRow) => UnavailInWeek(code, w, u));
    Filter(us, (u: UnavailRow) => UnavailInWeek(code, w, u))
  }

  /** Selection keeps table order: it distributes over concatenation, and a single
      row is kept exactly when it is shown in the week. */
  lemma {:induction false} SelectMatchesOrder(a: seq<JoinedRow>, b: seq<JoinedRow>, code: String, w: Week)
    ensures SelectMatches(a + b, code, w) == SelectMatches(a, code, w) + SelectMatches(b, code, w)
    ensures |a| == 1 ==> SelectMatches(a, code, w) == if MatchInWeek(code, w, a[0]) then a else []
  {
    var p := (r: JoinedRow) => MatchInWeek(code, w, r);
    FilterAppend(a, b, p);
    if |a| == 1 {
      assert a == [a[0]];
      FilterOne(a[0], p);
    }
  }

  /** The same for the unavailability rows. */
  lemma {:induction false} SelectUnavailOrder(a: seq<UnavailRow>, b: seq<UnavailRow>, code: String, w: Week)
    ensures SelectUnavail(a + b, code, w) == SelectUnavail(a, code, w) + SelectUnavail(b, code, w)
    ensures |a| == 1 ==> SelectUnavail(a, code, w) == if UnavailInWeek(code, w, a[0]) then a else []
  {
    var p := (u: UnavailRow) => UnavailInWeek(code, w, u);
    FilterAppend(a, b, p);
    if |a| == 1 {
      assert a == [a[0]];
      FilterOne(a[0], p);
    }
  }

  /** A match is shown in bucket `i` of the configured period exactly when
      `settimana_da_data` of its date is `i + 1`. */
  lemma {:induction false} MatchWeekIsWeekNumber(code: String, i: int, r: JoinedRow)
    requires 0 <= i < |Weeks(PeriodStart, PeriodEnd)|
    ensures MatchInWeek(code, Weeks(PeriodStart, PeriodEnd)[i], r) <==>
      r.game.code == code && r.game.date.Some? && WeekNumber(PeriodStart, r.game.date.value) == i + 1
  {
    if r.game.date.Some? {
      WeekNumberNamesBucket(PeriodStart, PeriodEnd, i, r.game.date.value);
    }
  }

  /** A match is shown in at most one week of the grid. */
  lemma {:induction false} MatchInOneWeek(code: String, r: JoinedRow, i: int, j: int)
    requires 0 <= i < |Weeks(PeriodStart, PeriodEnd)| && 0 <= j < |Weeks(PeriodStart, PeriodEnd)|
    requires MatchInWeek(code, Weeks(PeriodStart, PeriodEnd)[i], r)
    requires MatchInWeek(code, Weeks(PeriodStart, PeriodEnd)[j], r)
    ensures i == j
  {
    ExactlyOneWeek(PeriodStart, PeriodEnd, r.game.date.value);
  }

  predicate InRange(d: Day, lo: Day, hi: Day)
  {
    lo <= d <= hi
  }

  /** The overlap test of lines 127-128 against its meaning: a range that shares a
      day with the week is shown, and a shown range that is not inverted shares one. */
  lemma {:induction false} OverlapSharesDay(code: String, w: Week, u: UnavailRow)
    requires w.first <= w.last
    ensures u.code == code && u.start.Some? && u.end.Some?
      && (exists d :: InRange(d, u.start.value, u.end.value) && InRange(d, w.first, w.last))
      ==> UnavailInWeek(code, w, u)
    ensures UnavailInWeek(code, w, u) && u.start.value <= u.end.value
      ==> exists d :: InRange(d, u.start.value, u.end.value) && InRange(d, w.first, w.last)
  {
    if UnavailInWeek(code, w, u) && u.start.value <= u.end.value {
      var d := if u.start.value < w.first then w.first else u.start.value;
      assert InRange(d, u.start.value, u.end.value) && InRange(d, w.first, w.last);
    }
  }

  /** A range touching the week only at its ends is still shown: both bounds are inclusive.
      A range with a missing bound (`NaT`, which compares false) is never shown. */
  lemma {:induction false} OverlapInclusive(code: String, w: Week, reason: String)
    requires w.first <= w.last
    ensures UnavailInWeek(code, w, UnavailRow(code, Some(w.last), Some(w.last + 30), reason))
    ensures UnavailInWeek(code, w, UnavailRow(code, Some(w.first - 30), Some(w.first), reason))
    ensures !UnavailInWeek(code, w, UnavailRow(code, Some(w.last + 1), Some(w.last + 30), reason))
    ensures !UnavailInWeek(code, w, UnavailRow(code, None, Some(w.last), reason))
    ensures forall u: UnavailRow :: u.start.None? || u.end.None? ==> !UnavailInWeek(code, w, u)
  {
  }

  // ---------------------------------------------------------------------------
  // Rendering

  /** The separator `" – "` (an en dash between spaces). */
  const Sep: String := " \U{2013} "

  /** The marker that opens an unavailability line. */
  const NoEntry: char := '\U{1F6AB}'

  /** Line 133: `str(girone).strip()[-1:]`, the last character of the trimmed group,
      or nothing for a blank group. */
  function GroupLetter(group: String): (g: String)
    ensures |g| <= 1
    ensures g == [] <==> AllSpace(group)
    ensures g != [] ==> !IsSpace(g[0]) && g[0] in group
    ensures g != [] ==> exists j :: 0 <= j < |group| && group[j] == g[0] && AllSpace(group[j + 1..])
  {
    var t := Strip(group);
    StripBlank(group);
    StripKeeps(group);
    StripLast(group);
    if |t| == 0 then [] else [t[|t| - 1]]
  }

  /** `f"{tag}{x:.2f}"` when the score is present (`pd.notna`), nothing otherwise. */
  function ScoreSuffix(tag: String, v: Option<Decimal>): String
  {
    match v
    case None => []
    case Some(x) => tag + FormatFixed2(x)
  }

  /** Lines 132-141: `"cat – g – ruolo"`, then `" – OA: x.xx"` and `" OT: x.xx"` for the
      scores that are present. */
  function MatchLine(r: JoinedRow): String
  {
    r.game.category + Sep + GroupLetter(r.game.group) + Sep + r.game.role
      + ScoreSuffix(" \U{2013} OA: ", r.oa) + ScoreSuffix(" OT: ", r.ot)
  }

  /** Line 145: `"🚫 motivo"`. */
  function UnavailLine(u: UnavailRow): String
  {
    [NoEntry, ' '] + u.reason
  }

  /** A rendered score is a single word. */
  lemma {:induction false} ScoreIsWord(d: Decimal)
    ensures Words(FormatFixed2(d)) == [FormatFixed2(d)]
  {
    var f := FormatFixed2(d);
    FormatFixed2IsToken(d);
    assert NoSpace(f) by {
      forall i | 0 <= i < |f| ensures !IsSpace(f[i]) {
        assert IsDigit(f[i]) || f[i] == '.' || f[i] == '-';
      }
    }
    WordsOfWord(f);
  }

  /** The en dash of the first separator sits right after the category. */
  lemma {:induction false} DashAfterCategory(c: String, g: String, role: String, s1: String, s2: String)
    ensures var l := c + Sep + g + Sep + role + s1 + s2; |l| > |c| + 1 && l[|c| + 1] == '\U{2013}'
  {
    var l := c + Sep + g + Sep + role + s1 + s2;
    assert l == c + (Sep + (g + Sep + role + s1 + s2));
  }

  /** The words of a line ending in both score suffixes. */
  lemma {:induction false} ScoredWords(base: String, fa: String, ft: String)
    requires Words(fa) == [fa] && Words(ft) == [ft]
    ensures Words(base + (" \U{2013} OA: " + fa) + (" OT: " + ft)) == Words(base + " \U{2013}") + ["OA:", fa, "OT:", ft]
  {
    var t1 := "OA:" + [' '] + (fa + [' '] + ("OT:" + [' '] + ft));
    var head := base + " \U{2013}";
    assert base + (" \U{2013} OA: " + fa) + (" OT: " + ft) == head + [' '] + t1 by {
    }
    ScoreTailWords(fa, ft);
    WordsAtSpace(head, ' ', t1);
  }

  lemma {:induction false} ScoreTailWords(fa: String, ft: String)
    requires Words(fa) == [fa] && Words(ft) == [ft]
    ensures Words("OA:" + [' '] + (fa + [' '] + ("OT:" + [' '] + ft))) == ["OA:", fa, "OT:", ft]
  {
    LabelWords();
    WordThen("OT:", ft);
    WordThen(fa, "OT:" + [' '] + ft);
    WordThen("OA:", fa + [' '] + ("OT:" + [' '] + ft));
  }

  lemma {:induction false} LabelWords()
    ensures Words("OA:") == ["OA:"] && Words("OT:") == ["OT:"]
  {
    WordsOfWord("OA:");
    WordsOfWord("OT:");
  }

  /** A word followed by a space contributes itself to the words of the text. */
  lemma {:induction false} WordThen(w: String, rest: String)
    requires Words(w) == [w]
    ensures Words(w + [' '] + rest) == [w] + Words(rest)
  {
    WordsAtSpace(w, ' ', rest);
  }

  /** A scored line ends with the two scores as words, each after its label. */
  lemma {:induction false} MatchLineShowsScores(r: JoinedRow)
    requires r.oa.Some? && r.ot.Some?
    ensures var w := Words(MatchLine(r));
      && |w| >= 4
      && w[|w| - 4] == "OA:" && w[|w| - 3] == FormatFixed2(r.oa.value)
      && w[|w| - 2] == "OT:" && w[|w| - 1] == FormatFixed2(r.ot.value)
  {
    var base := r.game.category + Sep + GroupLetter(r.game.group) + Sep + r.game.role;
    var fa := FormatFixed2(r.oa.value);
    var ft := FormatFixed2(r.ot.value);
    var w := Words(MatchLine(r));
    var h := Words(base + " \U{2013}");
    var tail: seq<String> := ["OA:", fa, "OT:", ft];
    assert w == h + tail by {
      assert MatchLine(r) == base + (" \U{2013} OA: " + fa) + (" OT: " + ft);
      ScoreIsWord(r.oa.value);
      ScoreIsWord(r.ot.value);
      ScoredWords(base, fa, ft);
    }
    assert w[|w| - 4] == tail[0] && w[|w| - 3] == tail[1] && w[|w| - 2] == tail[2] && w[|w| - 1] == tail[3];
  }

  /** Read back from the cell, each shown score is the score rounded to hundredths,
      with its sign. */
  lemma {:induction false} ShownScoresReadBack(r: JoinedRow)
    requires r.oa.Some? && r.ot.Some?
    ensures var w := Words(MatchLine(r));
      && |w| >= 4
      && ParseDecimal(w[|w| - 3]) == Some(Decimal(r.oa.value.neg, RoundHundredths(r.oa.value), 2))
      && ParseDecimal(w[|w| - 1]) == Some(Decimal(r.ot.value.neg, RoundHundredths(r.ot.value), 2))
  {
    MatchLineShowsScores(r);
    ParseFormatFixed2(r.oa.value);
    ParseFormatFixed2(r.ot.value);
  }

  /** A line carries a mark no stripping removes: an en dash or the no-entry sign. */
  predicate Marked(line: String)
  {
    exists p :: 0 <= p < |line| && (line[p] == '\U{2013}' || line[p] == NoEntry)
  }

  /** Neither kind of line is ever blank: a match line has the en dash right after
      the category, an unavailability line starts with the no-entry sign. */
  lemma {:induction false} LinesAreMarked(r: JoinedRow, u: UnavailRow)
    ensures Marked(MatchLine(r)) && Marked(UnavailLine(u))
    ensures |MatchLine(r)| > |r.game.category| + 1 && MatchLine(r)[|r.game.category| + 1] == '\U{2013}'
    ensures |UnavailLine(u)| > 0 && UnavailLine(u)[0] == NoEntry
  {
    DashAfterCategory(r.game.category, GroupLetter(r.game.group), r.game.role,
                      ScoreSuffix(" \U{2013} OA: ", r.oa), ScoreSuffix(" OT: ", r.ot));
    assert UnavailLine(u)[0] == NoEntry;
  }

  /** A match line is one text line when its fields have no line break. */
  lemma {:induction false} MatchLineOneLine(r: JoinedRow)
    requires '\n' !in r.game.category && '\n' !in r.game.group && '\n' !in r.game.role
    ensures '\n' !in MatchLine(r)
  {
    assert '\n' !in ScoreSuffix(" \U{2013} OA: ", r.oa) by {
      if r.oa.Some? {
        FormatFixed2IsToken(r.oa.value);
      }
    }
    assert '\n' !in ScoreSuffix(" OT: ", r.ot) by {
      if r.ot.Some? {
        FormatFixed2IsToken(r.ot.value);
      }
    }
  }

  /** The lines of a cell: one per selected match, then one per selected unavailability. */
  function Lines(ms: seq<JoinedRow>, us: seq<UnavailRow>): (ls: seq<String>)
    ensures |ls| == |ms| + |us|
    ensures forall k :: 0 <= k < |ms| ==> ls[k] == MatchLine(ms[k])
    ensures forall k :: 0 <= k < |us| ==> ls[|ms| + k] == UnavailLine(us[k])
    ensures forall k :: 0 <= k < |ls| ==> Marked(ls[k])
  {
    var a := seq(|ms|, k requires 0 <= k < |ms| => MatchLine(ms[k]));
    var b := seq(|us|, k requires 0 <= k < |us| => UnavailLine(us[k]));
    AllLinesMarked(ms, us);
    a + b
  }

  lemma {:induction false} AllLinesMarked(ms: seq<JoinedRow>, us: seq<UnavailRow>)
    ensures forall k :: 0 <= k < |ms| ==> Marked(MatchLine(ms[k]))
    ensures forall k :: 0 <= k < |us| ==> Marked(UnavailLine(us[k]))
  {
    forall k | 0 <= k < |ms| ensures Marked(MatchLine(ms[k])) {
      LinesAreMarked(ms[k], UnavailRow([], None, None, []));
    }
    forall k | 0 <= k < |us| ensures Marked(UnavailLine(us[k])) {
      LinesAreMarked(Unscored(MatchRow([], [], None, [], [], [])), us[k]);
    }
  }

  /** Lines 131-145: `testo += riga + "\n"` for every line in turn. */
  function Accumulate(lines: seq<String>): String
  {
    if |lines| == 0 then [] else lines[0] + ['\n'] + Accumulate(lines[1..])
  }

  /** The accumulated text is the lines joined by line breaks, plus a final one. */
  lemma {:induction false} AccumulateIsJoin(lines: seq<String>)
    requires |lines| >= 1
    ensures Accumulate(lines) == Join(lines, '\n') + ['\n']
    decreases |lines|
  {
    if |lines| > 1 {
      AccumulateIsJoin(lines[1..]);
    }
  }

  /** Lines 147-149: the stripped text, or `"-"` when it is blank. */
  function Render(lines: seq<String>): (c: String)
    ensures Trimmed(c)
  {
    var t := Strip(Accumulate(lines));
    if |t| == 0 then "-" else t
  }

  /** With marked lines the cell is `"-"` exactly when there is nothing to show;
      otherwise it is the lines joined by line breaks and stripped at both ends. */
  lemma {:induction false} RenderMarked(lines: seq<String>)
    requires forall k :: 0 <= k < |lines| ==> Marked(lines[k])
    ensures Render(lines) == "-" <==> |lines| == 0
    ensures |lines| > 0 ==> Render(lines) == Strip(Join(lines, '\n'))
  {
    if |lines| > 0 {
      var j := Join(lines, '\n');
      AccumulateIsJoin(lines);
      StripNewline(j);
      FirstMarkSurvives(lines);
    } else {
      StripBlank([]);
    }
  }

  /** The mark of the first line survives the stripping of the joined text. */
  lemma {:induction false} FirstMarkSurvives(lines: seq<String>)
    requires |lines| > 0 && Marked(lines[0])
    ensures var t := Strip(Join(lines, '\n')); t != [] && t != "-"
  {
    var j := Join(lines, '\n');
    var p :| 0 <= p < |lines[0]| && (lines[0][p] == '\U{2013}' || lines[0][p] == NoEntry);
    JoinStartsWithFirst(lines, '\n');
    assert j[p] == lines[0][p];
    NonSpaceSurvivesStrip(j, p);
  }

  /** When no line holds a line break and the text has no whitespace at either end,
      the cell splits back into exactly its lines. */
  lemma {:induction false} RenderSplits(lines: seq<String>)
    requires |lines| > 0 && forall k :: 0 <= k < |lines| ==> Marked(lines[k])
    requires forall k :: 0 <= k < |lines| ==> '\n' !in lines[k]
    requires Trimmed(Join(lines, '\n'))
    ensures Split(Render(lines), '\n') == lines
  {
    RenderMarked(lines);
    TrimmedStripsToItself(Join(lines, '\n'));
    SplitJoin(lines, '\n');
  }

  /** A marked line holds a character that is not whitespace. */
  lemma {:induction false} MarkPosition(line: String) returns (p: nat)
    requires Marked(line)
    ensures p < |line| && !IsSpace(line[p])
  {
    p :| 0 <= p < |line| && (line[p] == '\U{2013}' || line[p] == NoEntry);
  }

  /** Any lines without a line break: the cell splits into as many lines. The inner
      lines come back unchanged, and the stripping at lines 147-149 removes only the
      first line's leading whitespace and the last line's trailing whitespace. */
  lemma {:induction false} RenderTrimsEnds(lines: seq<String>)
    requires |lines| > 0 && forall k :: 0 <= k < |lines| ==> Marked(lines[k])
    requires forall k :: 0 <= k < |lines| ==> '\n' !in lines[k]
    ensures |lines| == 1 ==> Split(Render(lines), '\n') == [Strip(lines[0])]
    ensures |lines| > 1 ==>
      Split(Render(lines), '\n') == lines[0 := StripStart(lines[0])][|lines| - 1 := StripEnd(lines[|lines| - 1])]
  {
    RenderMarked(lines);
    if |lines| == 1 {
      StripKeeps(lines[0]);
      SplitWhole(Strip(lines[0]), '\n');
    } else {
      RenderSeveralLines(lines);
    }
  }

  lemma {:induction false} RenderSeveralLines(lines: seq<String>)
    requires |lines| > 1 && Marked(lines[0]) && Marked(lines[|lines| - 1])
    requires forall k :: 0 <= k < |lines| ==> '\n' !in lines[k]
    ensures Split(Strip(Join(lines, '\n')), '\n') == lines[0 := StripStart(lines[0])][|lines| - 1 := StripEnd(lines[|lines| - 1])]
  {
    var n := |lines|;
    var a, b := lines[0], lines[n - 1];
    var p := MarkPosition(a);
    var q := MarkPosition(b);
    StripJoinEnds(lines, '\n', p, q);
    var ps := lines[0 := StripStart(a)][n - 1 := StripEnd(b)];
    StripEndsOmit(a, '\n');
    StripEndsOmit(b, '\n');
    forall k | 0 <= k < n ensures '\n' !in ps[k] {
      if 0 < k < n - 1 {
        assert ps[k] == lines[k];
      }
    }
    SplitJoin(ps, '\n');
  }

  /** One cell: the selected matches' lines, then the selected ranges' lines, rendered. */
  function Cell(ms: seq<JoinedRow>, us: seq<UnavailRow>): (c: String)
    ensures c == "-" <==> |ms| == 0 && |us| == 0
    ensures |ms| + |us| > 0 ==> c == Strip(Join(Lines(ms, us), '\n'))
  {
    RenderMarked(Lines(ms, us));
    Render(Lines(ms, us))
  }

  /** The cell shows one line per selected match, in order, then one per selected
      range, in order, when no field holds a line break and the text is not padded. */
  lemma {:induction false} CellShowsLines(ms: seq<JoinedRow>, us: seq<UnavailRow>)
    requires |ms| + |us| > 0
    requires forall k :: 0 <= k < |Lines(ms, us)| ==> '\n' !in Lines(ms, us)[k]
    requires Trimmed(Join(Lines(ms, us), '\n'))
    ensures var ls := Split(Cell(ms, us), '\n');
      && |ls| == |ms| + |us|
      && (forall k :: 0 <= k < |ms| ==> ls[k] == MatchLine(ms[k]))
      && (forall k :: 0 <= k < |us| ==> ls[|ms| + k] == UnavailLine(us[k]))
  {
    RenderSplits(Lines(ms, us));
  }

  /** Whatever the padding, the cell shows one line per selected match and one per
      selected range, in order, when no field holds a line break. Only the first
      line loses its leading and the last its trailing whitespace. */
  lemma {:induction false} CellShowsTrimmedLines(ms: seq<JoinedRow>, us: seq<UnavailRow>)
    requires |ms| + |us| > 0
    requires forall k :: 0 <= k < |Lines(ms, us)| ==> '\n' !in Lines(ms, us)[k]
    ensures var ls, ln, n := Split(Cell(ms, us), '\n'), Lines(ms, us), |ms| + |us|;
      && |ls| == n
      && (forall k :: 0 < k < n - 1 ==> ls[k] == ln[k])
      && (n == 1 ==> ls[0] == Strip(ln[0]))
      && (n > 1 ==> ls[0] == StripStart(ln[0]) && ls[n - 1] == StripEnd(ln[n - 1]))
  {
    var ln := Lines(ms, us);
    RenderTrimsEnds(ln);
  }

  /** Category U17, group ` A `, role Referee, scores 7.5 and 7. */
  lemma {:induction false} ExampleMatchLine(r: JoinedRow)
    requires r == JoinedRow(MatchRow("1", "7", None, "U17", " A ", "Referee"),
                            Some(Decimal(false, 75, 1)), Some(Decimal(false, 7, 0)))
    ensures MatchLine(r) == "U17 \U{2013} A \U{2013} Referee \U{2013} OA: 7.50 OT: 7.00"
  {
    var g := GroupLetter(r.game.group);
    var fa := FormatFixed2(r.oa.value);
    var ft := FormatFixed2(r.ot.value);
    assert MatchLine(r) == r.game.category + Sep + g + Sep + r.game.role + (" \U{2013} OA: " + fa) + (" OT: " + ft) by {
      assert r.oa.Some? && r.ot.Some?;
    }
    ExampleGroup(r.game.group);
    ExampleScores(r.oa.value, r.ot.value);
    ExampleText(g, fa, ft);
  }

  lemma {:induction false} ExampleGroup(group: String)
    requires group == " A "
    ensures GroupLetter(group) == "A"
  {
    assert group == " " + "A" + " ";
    StripFramed(" ", "A", " ");
  }

  lemma {:induction false} ExampleScores(oa: Decimal, ot: Decimal)
    requires oa == Decimal(false, 75, 1) && ot == Decimal(false, 7, 0)
    ensures FormatFixed2(oa) == "7.50"
    ensures FormatFixed2(ot) == "7.00"
  {
    assert Pow10(1) == 10 && Pow10(2) == 100;
    assert RoundHundredths(oa) == 750;
    assert RoundHundredths(ot) == 700;
    ExampleDigits();
  }

  lemma {:induction false} ExampleDigits()
    ensures Numeral(7) == "7" && Hundredths(750) == "50" && Hundredths(700) == "00"
  {
    assert Digit(7) == '7' && Digit(5) == '5' && Digit(0) == '0';
    assert 750 % 100 / 10 == 5 && 750 % 10 == 0 && 700 % 100 / 10 == 0 && 700 % 10 == 0;
  }

  lemma {:induction false} ExampleText(g: String, fa: String, ft: String)
    requires g == "A" && fa == "7.50" && ft == "7.00"
    ensures "U17" + Sep + g + Sep + "Referee" + (" \U{2013} OA: " + fa) + (" OT: " + ft)
      == "U17 \U{2013} A \U{2013} Referee \U{2013} OA: 7.50 OT: 7.00"
  {
  }
}
