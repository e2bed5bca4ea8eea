# Referee weekly board: a Dafny model

This is a model of the logic in `app.py`, a Streamlit page that shows each
referee of a roster with one cell per week of a test period
(2025-05-01 to 2025-06-30). A cell lists the referee's matches in that week
with the scores from an evaluation report, then the referee's unavailability
ranges. The model covers:

- **Calendar** (`calendar.dfy`): days are ordinals (`date.toordinal()`).
  `GenerateWeeks` is `genera_settimane` and `WeekNumber` is `settimana_da_data`.
- **Tables** (`tables.dfy`): the three loaded tables (roster, matches,
  unavailability) and the whitespace trimming of their codes and match numbers.
- **Text** (`text.dfy`): Python's `str.strip()`, `str.split()` and
  `str.split("\n")`. Whitespace is Python's full Unicode whitespace set.
- **Decimals** (`decimals.dfy`): the score tokens read by `float()`, as exact
  decimals, and the `:.2f` formatting.
- **Scores** (`scores.dfy`): the line recogniser of `carica_voti`.
- **Merging** (`merging.dfy`): the left join of matches with score records on
  `NumGara`, and the fallback when either side is empty.
- **Grid** (`grid.dfy`): how one cell selects its matches and unavailability
  ranges, and the cell's text.
- **Board** (`board.dfy`): the whole page. It is modelled twice:
  - as written (`PageAsWritten`), including the exceptions that stop it;
  - as evidently intended (`Page`, `Dashboard`), where a missing upload or an
    empty report is read as an empty table.

  Lemmas prove that both versions agree wherever the written one renders.
- **Wrappers** (`wrappers.dfy`): `Option`, `Result`, and running steps until the
  first one raises.

Inputs that come from I/O are parameters of the model:
- the rows of the Excel files, with dates already parsed to `Option<Day>`;
- the text of each PDF page;
- whether each file was uploaded.

Trimming of codes is the only normalisation the code performs: a trailing
`.0` is not removed, and codes are neither padded nor shortened.

The join keeps one row per match if and only if no match number has two or more
score records (`Merging.LeftJoinOneRowEach`). In general a
match appears once per score record of its number (`Merging.LeftJoin`).

A date in `[start, end + 6]` is not always inside a bucket. The buckets cover
`[start, start + 7n - 1]` (`Calendar.ExactlyOneWeek`). For the configured
period that range ends on 2025-07-02.

## Model

| member | source | states |
|---|---|---|
| Calendar.PeriodDays | app.py:9-10 | The period runs from ordinal 739372 (2025-05-01) to 739432 (2025-06-30), 60 days apart. |
| Calendar.GenerateWeeks | app.py:74-81 | The loop's output is the closed-form tiling: bucket i is `[start+7i, start+7i+6]`, and there are `WeekCount` buckets. |
| Calendar.WeeksTile | app.py:74-81 | The first bucket starts at the period start. Every bucket spans 7 days and starts within the period. Each starts the day after the previous one ends. The next start would fall after the period end. |
| Calendar.WeekCountIsCeiling | app.py:74-81 | The number of buckets is the period length divided by 7, rounded up. |
| Calendar.ConfiguredWeeks | app.py:74-81 | The configured period has 9 buckets. The last is 2025-06-26 to 2025-07-02, which ends after `DATA_FINE`. |
| Calendar.WeekNumber | app.py:70-72 | The week number w of day d satisfies `start + 7(w-1) <= d < start + 7w`. This is floor division, including days before the start. |
| Calendar.WeekNumberExamples | app.py:70-72 | The start and start+6 are week 1, start+7 is week 2, and the day before the start is week 0. |
| Calendar.WeekNumberNamesBucket | app.py:70-81 | A day lies in bucket i exactly when its week number is i+1. |
| Calendar.ExactlyOneWeek | app.py:74-81 | A day lies in some bucket exactly when it is in `[start, start+7n-1]`, and it lies in at most one bucket. |
| Tables.LoadRoster | app.py:18 | Each roster code becomes `strip()` of the original, so it is trimmed, and no other field or row changes. |
| Tables.LoadMatches | app.py:32-34 | Each code and match number becomes `strip()` of the original, and no other field or row changes. |
| Tables.LoadUnavailability | app.py:64-67 | Each code becomes `strip()` of the original, and no other field or row changes. |
| Tables.LoadIdempotent | app.py:32-33 | Loading a loaded table changes nothing, for each of the three tables. |
| Tables.TrimLoadedMatches | app.py:101 | Trimming the match numbers again (line 101) leaves a loaded match table unchanged. |
| Text.Strip | app.py:46 | `strip()` returns a string with no whitespace at either end and no longer than its input. |
| Text.StripFrames | app.py:46 | The input is some whitespace, then the result, then more whitespace. |
| Text.StripFramed | app.py:46 | Stripping whitespace around a trimmed string gives exactly that string. |
| Text.StripIdempotent | app.py:101 | Stripping twice is the same as stripping once. |
| Text.NonSpaceSurvivesStrip | app.py:133 | Every non-whitespace character of the input occurs in the stripped string. |
| Text.StripKeeps | app.py:133 | Every character of the stripped string occurs in the input. |
| Text.StripLast | app.py:133 | The last character of a non-empty stripped text is followed in the input by whitespace only. |
| Text.StripBlank | app.py:147 | The stripped string is empty exactly when the input is all whitespace. |
| Text.StripNewline | app.py:142-149 | A trailing line break does not change the stripped text. |
| Text.Split | app.py:45 | `split("\n")` returns at least one piece, and no piece contains the separator. |
| Text.JoinSplit | app.py:45 | Joining the pieces with the separator gives back the text. |
| Text.SplitJoin | app.py:45 | Splitting pieces joined with the separator gives back the pieces, when none of them contains it. |
| Text.SplitAtSeparator | app.py:45 | Splitting at a separator splits the two sides independently. |
| Text.Words | app.py:46 | `str.split()` with no argument: the whitespace-separated tokens. Its meaning is given by WordsNonEmpty, WordsBlank, WordsAtSpace, WordsOfWord and WordsOfStrip. |
| Text.WordsNonEmpty | app.py:46 | Every token of `split()` is non-empty and contains no whitespace. |
| Text.WordsBlank | app.py:46 | `split()` returns no tokens exactly when the input is all whitespace. |
| Text.WordsAtSpace | app.py:46 | A whitespace character separates the tokens of its two sides. |
| Text.WordsOfWord | app.py:46 | A non-empty string without whitespace is a single token. |
| Text.WordsOfStrip | app.py:46 | `line.strip().split()` gives the same tokens as `line.split()`. |
| Text.ReplaceChar | app.py:50-51 | `replace(",", ".")` keeps the length and replaces exactly the commas. |
| Decimals.ParseDecimal | app.py:50-51 | `float()` on a score token succeeds exactly on the decimal grammar, and the sign is kept. |
| Decimals.ParseFraction | app.py:50-51 | A token `[sign] digits . digits` reads as the decimal with those digits and that scale. |
| Decimals.ParseInteger | app.py:50-51 | A token `[sign] digits` reads as that integer. |
| Decimals.Numeral | app.py:139 | The integer part is shown as digits whose value is the number, with no leading zero. |
| Decimals.RoundHundredths | app.py:139 | The shown hundredths are the nearest to the value, with ties going to the even one. |
| Decimals.FormatFixed2 | app.py:139 | `f"{x:.2f}"`: sign, integer digits, `.`, two digits. Its meaning is given by ParseFormatFixed2 (it reads back as the rounded value) and FormatFixed2IsToken. |
| Decimals.ParseFormatFixed2 | app.py:139 | Reading back a `:.2f` text gives the value rounded to hundredths with the same sign. |
| Decimals.FormatFixed2IsToken | app.py:139 | A `:.2f` text has at least four characters, and each is a digit, `.` or `-`. |
| Scores.ParseRow | app.py:47-52 | A token list yields a record exactly when it has at least 6 tokens, the first is all ASCII digits, and the last two read as numbers after `,` becomes `.`. The record holds the first token and the values of the last two. |
| Scores.ParseLine | app.py:45-54 | A line yields the record of its whitespace-separated tokens, so stripping it first changes nothing. It yields one exactly when it is a score line. |
| Scores.ParseText | app.py:44-54 | Every record that a line of the text yields is among the results. |
| Scores.ParseTextSound | app.py:44-54 | Every result is the record of some line of the text. |
| Scores.ParseTextAtLineBreak | app.py:40-54 | The records of two texts joined by a line break are the first text's records followed by the second's, so line order is kept. |
| Scores.ParseTextOneLine | app.py:45-54 | Text without a line break yields its record if it is a score line, and nothing otherwise. |
| Scores.ReportText | app.py:40-42 | The pages' texts concatenated with no separator. With ParseTextAtLineBreak, a page's last line and the next page's first line form one line. |
| Scores.ParsedIdsAreTrimmed | app.py:57 | Every parsed match number is an ASCII numeral, so the trimming at line 57 changes nothing. |
| Scores.LoadScoresAsWritten | app.py:56-57 | As written, the reader raises `KeyError: 'NumGara'` exactly when no line is recognised; otherwise it returns the parsed records. |
| Scores.EmptyReportFails | app.py:56-57 | A report made of one blank page makes the reader raise. |
| Scores.LoadScores | app.py:56-58 | The corrected reader returns the parsed records, possibly none, and every match number is a numeral. |
| Scores.LoadScoresAgrees | app.py:56-58 | The corrected reader agrees with the original wherever the original does not raise. Where it raises, the corrected reader returns no records. |
| Merging.ScoresFor | app.py:102 | Gives exactly the score records with the match's number. |
| Merging.ScoresForCount | app.py:102 | Each record with the match's number is found as often as it occurs in the report, and no other record is found. |
| Merging.ScoresForOrder | app.py:102 | The records of a number come in report order: the lookup distributes over concatenation, and a single record is found exactly when its number matches. |
| Merging.JoinOne | app.py:102 | A match contributes max(1, k) rows, where k is the number of score records with its number, and each of those rows carries the match. |
| Merging.LeftJoin | app.py:102 | The join has the sum of max(1, k) rows. Each row is a match with one of its own score records, or an unscored match that has none. |
| Merging.LeftJoinAppend | app.py:102 | The join of concatenated match tables is the concatenation of their joins, so match order is kept. |
| Merging.LeftJoinOne | app.py:102 | A match's block is its scored copies in report order, or a single unscored copy. |
| Merging.LeftJoinRetains | app.py:102 | Every match row appears in the join. |
| Merging.LeftJoinNoScores | app.py:102 | With no score records, the join is the match table with both scores absent. |
| Merging.LeftJoinUniqueIds | app.py:102 | When each number has at most one score record, the join has one row per match, in order. |
| Merging.LeftJoinOneRowEach | app.py:102 | The join has exactly one row per match if and only if no match number has two or more score records. |
| Merging.Merge | app.py:99-104 | The merge has no columns exactly when the match table has none. It has score columns exactly when both tables have rows. On a loaded match table, its rows are the left join. |
| Grid.SelectMatches | app.py:120-123 | Gives exactly the merged rows with the referee's code and a date inside the closed week, each as often as it occurs in the table. |
| Grid.SelectMatchesOrder | app.py:120-123 | The selected rows keep table order: selection distributes over concatenation, and a single row is kept exactly when it is shown in the week. |
| Grid.SelectUnavail | app.py:125-128 | Gives exactly the ranges with the referee's code that start no later than the week's last day and end no earlier than its first day, each as often as it occurs in the table. |
| Grid.SelectUnavailOrder | app.py:125-128 | The selected ranges keep table order: selection distributes over concatenation, and a single range is kept exactly when it overlaps the week. |
| Grid.MatchWeekIsWeekNumber | app.py:120-123 | A match is shown in configured week i exactly when its code matches and its date's week number is i+1. |
| Grid.MatchInOneWeek | app.py:120-123 | A match is shown in at most one configured week. |
| Grid.OverlapSharesDay | app.py:125-128 | A range that shares a day with the week is selected. A well-ordered range that is selected shares a day with the week. |
| Grid.OverlapInclusive | app.py:125-128 | Both bounds are inclusive. A range starting the day after the week is not selected. No range with a missing start or a missing end (`NaT`) is ever selected. |
| Grid.GroupLetter | app.py:133 | The group letter is at most one character. It is empty exactly when the group is blank. Otherwise it is the group's last non-whitespace character: only whitespace follows it in the group. |
| Grid.MatchLine | app.py:132-141 | `f"{cat} – {girone} – {ruolo}"` with the score suffixes of lines 138-141. Its meaning is given by MatchLineShowsScores, ShownScoresReadBack, LinesAreMarked, MatchLineOneLine and ExampleMatchLine. |
| Grid.UnavailLine | app.py:145 | `f"🚫 {motivo}"`. LinesAreMarked and CellShowsLines give its place in the cell. |
| Grid.MatchLineShowsScores | app.py:137-141 | A scored line ends in the tokens `OA:`, the OA score with 2 decimals, `OT:`, and the OT score with 2 decimals. |
| Grid.ShownScoresReadBack | app.py:137-141 | Both shown scores read back as the scores rounded to hundredths. |
| Grid.LinesAreMarked | app.py:137-145 | In every match line, an en dash follows the category and a space. Every unavailability line starts with 🚫. So no line of a cell is blank. A match line can still start with whitespace when its category does. |
| Grid.MatchLineOneLine | app.py:137-142 | A match line has no line break when its fields have none. |
| Grid.Lines | app.py:131-145 | The cell's lines are one per selected match, then one per selected range, in order. |
| Grid.Accumulate | app.py:130-145 | `testo += riga + "\n"` for every line in turn. AccumulateIsJoin states that this is the line-break join of the lines plus a final line break. |
| Grid.AccumulateIsJoin | app.py:130-145 | The accumulated text is the lines joined by line breaks, with a final line break. |
| Grid.Render | app.py:147-149 | The rendered cell has no whitespace at either end. |
| Grid.RenderMarked | app.py:147-149 | With marked lines, the cell is `"-"` exactly when there are no lines; otherwise it is the stripped, line-break-joined text. |
| Grid.RenderSplits | app.py:142-149 | When no line contains a line break and the joined text has no whitespace at either end, splitting the rendered cell at line breaks gives back its lines. RenderTrimsEnds covers padded lines. |
| Grid.Cell | app.py:130-149 | The cell is `"-"` exactly when no match and no range is selected. Otherwise it is the stripped join of its lines. |
| Grid.CellShowsLines | app.py:130-149 | When no line contains a line break and the joined text has no whitespace at either end, the cell's lines are the match lines followed by the unavailability lines. CellShowsTrimmedLines drops the second condition. |
| Grid.RenderTrimsEnds | app.py:142-149 | For any lines without a line break, the rendered cell splits into the same number of lines. The inner lines are unchanged. A single line comes back stripped. Otherwise the first line loses its leading whitespace and the last its trailing whitespace. |
| Grid.CellShowsTrimmedLines | app.py:130-149 | For any selection whose lines contain no line break, the cell splits into one line per match and per range, in order. Only the first line's leading and the last line's trailing whitespace are lost. |
| Text.StripStart | app.py:147 | `lstrip()`: the result is no longer than the input and does not start with whitespace. StripStartFrame gives the rest of its meaning. |
| Text.StripStartFrame | app.py:147 | `lstrip()` returns the input minus a leading run that is all whitespace. |
| Text.StripEnd | app.py:147 | `rstrip()`: the result is no longer than the input and does not end with whitespace. StripEndFrame gives the rest of its meaning. |
| Text.StripEndFrame | app.py:147 | `rstrip()` returns the input minus a trailing run that is all whitespace. |
| Text.StripJoinEnds | app.py:147 | When the first and the last piece each contain non-whitespace, stripping their join only applies `lstrip()` to the first piece and `rstrip()` to the last. |
| Grid.ExampleMatchLine | app.py:132-141 | Category U17, group " A ", role Referee with scores 7.5 and 7 shows `U17 – A – Referee – OA: 7.50 OT: 7.00`. |
| Board.CellOf | app.py:120-149 | The intended cell of a referee in a week: the cell text of the selected merged rows and ranges. DashboardDash and CellAgrees give its meaning. |
| Board.Page | app.py:111-149 | The page has one row per roster entry, with one cell per week. Cell [i][j] is the cell of referee `strip()` of roster code i in week j. |
| Board.Dashboard | app.py:107-149 | The configured page has nine cells per referee, and cell [i][j] is the cell of referee i in configured week j. |
| Board.MatchesSelectedIff | app.py:120-123 | No merged row is shown exactly when no uploaded match is in the week for the referee. |
| Board.UnavailSelectedIff | app.py:125-128 | No range is shown exactly when none overlaps the week for the referee. |
| Board.DashboardDash | app.py:118-149 | A cell is `"-"` exactly when the referee has no dated match in the week and no range overlapping it. |
| Board.NoUploadsAllDashes | app.py:94-96 | Without a match file or an unavailability file, every cell of the intended page is `"-"`. |
| Board.NoReportNoScores | app.py:95 | A report with no pages holds no score records. |
| Board.ReportWithoutScoresIsNoReport | app.py:95-104 | A report with no score line gives the same intended page as no report at all. |
| Board.CellAsWritten | app.py:120-141 | As written, a cell raises exactly in these cases: the merged frame or the unavailability frame has no columns (`KeyError: 'Cod.Mecc.'`), or a match is shown while the merge has no score columns (`ValueError`). Otherwise it is the intended cell text. |
| Board.PageAsWritten | app.py:93-149 | As written, a failing score reader stops the page with its error. PageAgrees, ReportWithoutScoresFails, MissingUploadFails and UnscoredMatchFails give the other outcomes. |
| Board.ScoreFrameRows | app.py:95 | The score rows the program merges are the corrected reader's records. |
| Board.MergedFrameRows | app.py:99-104 | With a match file, the merged frame's rows are the intended merged rows. |
| Board.CellAgrees | app.py:120-149 | A cell the program renders equals the intended cell. |
| Board.RowAgrees | app.py:118-149 | A row the program renders equals the intended row. |
| Board.PageAgrees | app.py:93-149 | Whenever the program renders the page, it renders the intended page. |
| Board.DashboardAgrees | app.py:107-149 | The same holds for the configured nine weeks. |
| Board.GridFailureIsCellFailure | app.py:111-149 | A failing page fails with the error of some cell. |
| Board.CellFailureFailsGrid | app.py:111-149 | Any failing cell makes the page fail. |
| Board.GridFailsWith | app.py:111-149 | If every cell can only fail with e, and some cell fails, the page fails with e. |
| Board.ReportWithoutScoresFails | app.py:56-57 | A report without a score line stops the page with `KeyError: 'NumGara'`. |
| Board.MissingUploadFails | app.py:120-128 | With a referee and a week, a missing match file or a missing unavailability file stops the page with `KeyError: 'Cod.Mecc.'`. If the score reader fails first, the page stops with the reader's error instead. |
| Board.UnscoredMatchFails | app.py:120-139 | Without a report, any match shown on the page stops it: with `ValueError` when the unavailability file was uploaded, and with `KeyError: 'Cod.Mecc.'` at line 126 when it was not. |
| Board.SingleMatchRows | app.py:99-104 | One loaded match and no report merge into that match, unscored. |
| Board.BareMatchCell | app.py:137-149 | An unscored match alone in a cell shows as `category – group – role` when the group is one non-whitespace character, the category starts with non-whitespace and the role ends with non-whitespace. |
| Board.LoneMatchCell | app.py:118-149 | When the only merged row is an unscored match of the first referee in the first week, with no ranges, the first cell is its bare line. |
| Board.UnscoredMatchWitness | app.py:135-139 | One referee, one match on 2025-05-01, no report and an empty unavailability file make the page raise `ValueError`. |
| Board.UnscoredMatchShown | app.py:137-142 | For those same uploads, the intended page shows `U17 – A – Referee` in the first cell. |
| Board.MissingUploadWitness | app.py:94-96 | One referee and no uploads: the program raises `KeyError: 'Cod.Mecc.'`, while all nine intended cells are `"-"`. |
| Board.EmptyReportWitness | app.py:56-57 | A report of one blank page: the program raises `KeyError: 'NumGara'`, while the intended page equals the page without a report. |
| Wrappers.Collect | app.py:111-149 | The steps all succeed exactly when every one does, and then the values come in order. Otherwise the error is that of the first failing step. |
| Wrappers.CollectAgrees | app.py:111-149 | If every successful step yields the wanted value, a successful run yields the wanted values. |

## Left out

- Presentation is not modelled: page set-up, titles, uploaders, markdown, the
  referee header with section and age, the week labels built with `strftime`,
  and the table display (lines 6, 85-90, 108, 112-116, 151-152).
- `@st.cache_data` is not modelled: it memoises and does not change results.
- `pd.read_excel` is not modelled: the selection of columns by position
  (lines 23-31, 35) and the trimming of header names (lines 17, 63) are
  foreign calls. The model receives the rows as records with the named fields.
- `PdfReader` and `extract_text` are not modelled. The model receives each
  page's text.
- `pd.to_datetime(errors="coerce")` is given as `Option<Day>`, where `None`
  is `NaT` (lines 34, 65-66).
- Time of day is not modelled. A match time after midnight on a week's last
  day is later than `fine` in pandas and would not be selected. The model
  compares whole days.
- Conversions of cell values to text are taken as already applied: the
  `astype(str)` of codes, match numbers and reasons (lines 18, 32-33, 67),
  the `str()` of the group at line 133, and the f-string conversions of
  category and role at line 137. The model receives these fields as text.
  It does not turn a missing value into `"nan"` (so an empty group cell,
  which the program shows as `n`, is not covered), and it does not turn a
  number into its Python text (so a group read as `1.0`, which the program
  shows as `0`, is not covered, nor is a code read as `"123.0"`).
- Decimals.ParseDecimal: reads only `[sign] digits [. digits]` and
  `[sign] . digits`. Python's `float()` also accepts an exponent, `inf`,
  `nan`, underscores and non-ASCII digits, so a line ending in such tokens is
  skipped here but recorded by the program.
- Scores.ParseRow: `isdigit()` is restricted to ASCII digits, whereas Python
  also accepts other Unicode digits.
- Decimals.RoundHundredths: rounds the exact decimal value half to even.
  Python formats the nearest binary double, so it shows `2.67` for `2.675`,
  while the model shows `2.68`.
- Floating-point representation of scores is not modelled. Scores are exact
  decimals.
- The merged frame is modelled as rows, not as a pandas frame: its column
  order, index and dtypes are not modelled. The only columns the merge adds
  are `Voto OA` and `Voto OT`, which the model carries as optional scores.
- The roster's surname, name, section and age only feed the header, which is
  not modelled. Roster rows are taken in file order, duplicates included.
- Grid.LinesAreMarked: places the en dash and 🚫 but does not say where a match
  line starts: it starts with whatever its category starts with, whitespace
  included.
- Grid.RenderSplits: requires lines without line breaks and a join with no
  whitespace at either end. RenderTrimsEnds states the padded case. A line
  holding a line break splits into more pieces, which no lemma describes.
- Grid.CellShowsLines: requires the same two conditions as RenderSplits.
  CellShowsTrimmedLines states the padded case; fields holding a line break
  are not described.
- Board.BareMatchCell: covers only a one-character group and a category and
  role with no whitespace at the outer ends. For other fields, GroupLetter
  and CellShowsTrimmedLines describe the cell.

## Findings

| source | as written | input that shows it | evidently intended | confidence | as-written member | corrected member |
|---|---|---|---|---|---|---|
| app.py:56-57 | `pd.DataFrame([])` has no `NumGara` column, so when no line is recognised, line 57 raises `KeyError` and the page stops | a report whose only page is blank | an empty score table: the page as if no report had been uploaded | not executed | Board.EmptyReportWitness | Board.ReportWithoutScoresIsNoReport |
| app.py:135-141 | when the merge falls back to the match table, it has no `Voto OA` column. `gara.get("Voto OA", "")` gives `""`, `pd.notna("")` is true, and `f"{'':.2f}"` raises `ValueError` | one referee, one match on 2025-05-01 in category U17, group A, role Referee, no score report, and an empty unavailability file | the match line shown without scores | not executed | Board.UnscoredMatchWitness | Board.UnscoredMatchShown |
| app.py:94-96 | a missing match or unavailability upload becomes `pd.DataFrame()` with no columns, so `["Cod.Mecc."]` at line 121 or 126 raises `KeyError` | one referee and no uploads | every cell `"-"` | not executed | Board.MissingUploadWitness | Board.NoUploadsAllDashes |
