/** The tables the program loads (`carica_anagrafica`, `carica_gare`,
    `carica_indisponibili`) and the trimming of their codes and ids. */
module Tables {
  import opened Wrappers
  import opened Text
  import opened Calendar

  /** What the program raises: a column looked up in a table that does not have it
      (`KeyError`), or a text cell formatted with a number format (`ValueError`). */
  datatype Failure = MissingColumn(column: String) | FormatError

  /** A pandas frame: `Blank` is `pd.DataFrame()` (no columns at all, used when a
      file was not uploaded); `Table` has the expected columns and some rows. */
  datatype Frame<T> = Blank | Table(rows: seq<T>)

  /** The rows of a frame; a frame without columns has none. */
  function RowsOf<T>(f: Frame<T>): seq<T>
  {
    match f
    case Blank => []
    case Table(rows) => rows
  }

  /** A roster row (`Arbitri.xlsx`): `Cod.Mecc.`, `Cognome`, `Nome`, `Sezione`, `Età`. */
  datatype Referee = Referee(code: String, surname: String, name: String, section: String, age: String)

  /** A row of the match file: `Cod.Mecc.` (column 17), `NumGara` (1), `DataGara` (6,
      absent when unparseable), `Categoria` (2), `Girone` (3), `Ruolo` (16). */
  datatype MatchRow = MatchRow(code: String, matchId: String, date: Option<Day>,
                               category: String, group: String, role: String)

  /** A row of the unavailability file: `Cod.Mecc.`, `Inizio`, `Fine`, `Motivo`;
      the dates are absent when unparseable. */
  datatype UnavailRow = UnavailRow(code: String, start: Option<Day>, end: Option<Day>, reason: String)

  predicate RosterTrimmed(rs: seq<Referee>)
  {
    forall k :: 0 <= k < |rs| ==> Trimmed(rs[k].code)
  }

  predicate MatchesTrimmed(ms: seq<MatchRow>)
  {
    forall k :: 0 <= k < |ms| ==> Trimmed(ms[k].code) && Trimmed(ms[k].matchId)
  }

  predicate UnavailTrimmed(us: seq<UnavailRow>)
  {
    forall k :: 0 <= k < |us| ==> Trimmed(us[k].code)
  }

  /** Line 18: the roster's codes are trimmed; nothing else changes. */
  function LoadRoster(rows: seq<Referee>): (rs: seq<Referee>)
    ensures |rs| == |rows| && RosterTrimmed(rs)
    ensures forall k :: 0 <= k < |rows| ==> rs[k].code == Strip(rows[k].code)
    ensures forall k :: 0 <= k < |rows| ==> rs[k].(code := rows[k].code) == rows[k]
  {
    seq(|rows|, k requires 0 <= k < |rows| => rows[k].(code := Strip(rows[k].code)))
  }

  /** Lines 32-34: the match file's codes and match numbers are trimmed; nothing else changes. */
  function LoadMatches(rows: seq<MatchRow>): (ms: seq<MatchRow>)
    ensures |ms| == |rows| && MatchesTrimmed(ms)
    ensures forall k :: 0 <= k < |rows| ==> ms[k].code == Strip(rows[k].code) && ms[k].matchId == Strip(rows[k].matchId)
    ensures forall k :: 0 <= k < |rows| ==> ms[k].(code := rows[k].code, matchId := rows[k].matchId) == rows[k]
  {
    seq(|rows|, k requires 0 <= k < |rows| => TrimMatch(rows[k]))
  }

  function TrimMatch(m: MatchRow): MatchRow
  {
    m.(code := Strip(m.code), matchId := Strip(m.matchId))
  }

  /** Line 64: the unavailability file's codes are trimmed; nothing else changes. */
  function LoadUnavailability(rows: seq<UnavailRow>): (us: seq<UnavailRow>)
    ensures |us| == |rows| && UnavailTrimmed(us)
    ensures forall k :: 0 <= k < |rows| ==> us[k].code == Strip(rows[k].code)
    ensures forall k :: 0 <= k < |rows| ==> us[k].(code := rows[k].code) == rows[k]
  {
    seq(|rows|, k requires 0 <= k < |rows| => rows[k].(code := Strip(rows[k].code)))
  }

  /** Loading is idempotent: a loaded table loads to itself, so trimming again
      (as line 101 does for the match numbers) changes nothing. */
  lemma {:induction false} LoadIdempotent(roster: seq<Referee>, matches: seq<MatchRow>, unavail: seq<UnavailRow>)
    ensures LoadRoster(LoadRoster(roster)) == LoadRoster(roster)
    ensures LoadMatches(LoadMatches(matches)) == LoadMatches(matches)
    ensures LoadUnavailability(LoadUnavailability(unavail)) == LoadUnavailability(unavail)
  {
    forall k | 0 <= k < |roster| ensures Strip(Strip(roster[k].code)) == Strip(roster[k].code) {
      StripIdempotent(roster[k].code);
    }
    forall k | 0 <= k < |matches|
      ensures Strip(Strip(matches[k].code)) == Strip(matches[k].code)
      ensures Strip(Strip(matches[k].matchId)) == Strip(matches[k].matchId)
    {
      StripIdempotent(matches[k].code);
      StripIdempotent(matches[k].matchId);
    }
    forall k | 0 <= k < |unavail| ensures Strip(Strip(unavail[k].code)) == Strip(unavail[k].code) {
      StripIdempotent(unavail[k].code);
    }
  }

  /** Trimming the match numbers of an already loaded match table changes nothing. */
  lemma {:induction false} TrimLoadedMatches(ms: seq<MatchRow>)
    requires MatchesTrimmed(ms)
    ensures forall k :: 0 <= k < |ms| ==> TrimMatch(ms[k]) == ms[k]
  {
    forall k | 0 <= k < |ms| ensures TrimMatch(ms[k]) == ms[k] {
      TrimmedStripsToItself(ms[k].code);
      TrimmedStripsToItself(ms[k].matchId);
    }
  }
}
