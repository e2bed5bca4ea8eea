/** The merge of the match table with the score records (app.py lines 99-104):
    a left join on the match number, with a fallback to the bare match table
    when either side is empty. */
module Merging {
  import opened Wrappers
  import opened Seqs
  import opened Text
  import opened Decimals
  import opened Tables
  import opened Scores

  /** A row of the merged table: the match row and its two scores, absent (`NaN`)
      when the report has no record for the match. */
  datatype JoinedRow = JoinedRow(game: MatchRow, oa: Option<Decimal>, ot: Option<Decimal>)

  function Unscored(m: MatchRow): JoinedRow
  {
    JoinedRow(m, None, None)
  }

  function Scored(m: MatchRow, s: ScoreRecord): JoinedRow
  {
    JoinedRow(m, Some(s.oa), Some(s.ot))
  }

  /** The score records of the match numbered `id`, in report order. */
  function ScoresFor(id: String, ss: seq<ScoreRecord>): (hits: seq<ScoreRecord>)
    ensures forall k :: 0 <= k < |hits| ==> hits[k] in ss && hits[k].matchId == id
    ensures forall k :: 0 <= k < |ss| && ss[k].matchId == id ==> ss[k] in hits
  {
    Filter(ss, (s: ScoreRecord) => s.matchId == id)
  }

  /** Each record with the number `id` is found as often as it occurs in the report;
      no other record is found. */
  lemma {:induction false} ScoresForCount(id: String, ss: seq<ScoreRecord>)
    ensures forall x :: multiset(ScoresFor(id, ss))[x] == if x.matchId == id then multiset(ss)[x] else 0
  {
    FilterCount(ss, (s: ScoreRecord) => s.matchId == id);
  }

  /** The records of a number keep report order: the lookup distributes over
      concatenation, and a single record is found exactly when its number is `id`. */
  lemma {:induction false} ScoresForOrder(id: String, a: seq<ScoreRecord>, b: seq<ScoreRecord>)
    ensures ScoresFor(id, a + b) == ScoresFor(id, a) + ScoresFor(id, b)
    ensures |a| == 1 ==> ScoresFor(id, a) == if a[0].matchId == id then a else []
  {
    var p := (s: ScoreRecord) => s.matchId == id;
    FilterAppend(a, b, p);
    if |a| == 1 {
      assert a == [a[0]];
      FilterOne(a[0], p);
    }
  }

  /** How many rows of the merged table a match row becomes: one per record of
      its number, or a single unscored row when there is none. */
  function Multiplicity(m: MatchRow, ss: seq<ScoreRecord>): nat
  {
    var k := |ScoresFor(m.matchId, ss)|;
    if k == 0 then 1 else k
  }

  function Multiplicities(ms: seq<MatchRow>, ss: seq<ScoreRecord>): seq<nat>
  {
    seq(|ms|, i requires 0 <= i < |ms| => Multiplicity(ms[i], ss))
  }

  /** The rows one match row contributes to the join. */
  function JoinOne(m: MatchRow, ss: seq<ScoreRecord>): (r: seq<JoinedRow>)
    ensures |r| == Multiplicity(m, ss)
    ensures forall k :: 0 <= k < |r| ==> r[k].game == m
  {
    var hits := ScoresFor(m.matchId, ss);
    if |hits| == 0 then [Unscored(m)]
    else seq(|hits|, k requires 0 <= k < |hits| => Scored(m, hits[k]))
  }

  /** Every row of the join comes from a match row; a scored row carries the scores
      of a record with the same number, and an unscored row's number has no record. */
  predicate Justified(r: JoinedRow, ms: seq<MatchRow>, ss: seq<ScoreRecord>)
  {
    && r.game in ms
    && (r.oa.Some? <==> r.ot.Some?)
    && (r.oa.Some? ==> exists s :: s in ss && s.matchId == r.game.matchId && r == Scored(r.game, s))
    && (r.oa.None? ==> forall s :: s in ss ==> s.matchId != r.game.matchId)
  }

  lemma {:induction false} JoinOneJustified(m: MatchRow, ss: seq<ScoreRecord>, ms: seq<MatchRow>)
    requires m in ms
    ensures forall k :: 0 <= k < |JoinOne(m, ss)| ==> Justified(JoinOne(m, ss)[k], ms, ss)
  {
    var hits := ScoresFor(m.matchId, ss);
    var r := JoinOne(m, ss);
    forall k | 0 <= k < |r| ensures Justified(r[k], ms, ss) {
      if |hits| == 0 {
        forall s | s in ss ensures s.matchId != m.matchId {
          var j :| 0 <= j < |ss| && ss[j] == s;
        }
      } else {
        assert hits[k] in ss && hits[k].matchId == m.matchId;
      }
    }
  }

  /** `pd.merge(df_gare, df_voti_raw, on="NumGara", how="left")`: every match row,
      in order, once per score record of its number or once unscored. */
  function LeftJoin(ms: seq<MatchRow>, ss: seq<ScoreRecord>): (r: seq<JoinedRow>)
    ensures |r| == Sum(Multiplicities(ms, ss))
    ensures forall k :: 0 <= k < |r| ==> Justified(r[k], ms, ss)
    decreases |ms|
  {
    if |ms| == 0 then []
    else
      var head := JoinOne(ms[0], ss);
      var rest := LeftJoin(ms[1..], ss);
      assert Multiplicities(ms, ss) == [Multiplicity(ms[0], ss)] + Multiplicities(ms[1..], ss);
      JoinOneJustified(ms[0], ss, ms);
      assert forall k :: 0 <= k < |rest| ==> Justified(rest[k], ms, ss) by {
        forall k | 0 <= k < |rest| ensures Justified(rest[k], ms, ss) {
          assert Justified(rest[k], ms[1..], ss);
          assert rest[k].game in ms[1..];
        }
      }
      head + rest
  }

  /** The join distributes over concatenation of the match table, so match rows keep
      their order and each contributes its own block. */
  lemma {:induction false} LeftJoinAppend(a: seq<MatchRow>, b: seq<MatchRow>, ss: seq<ScoreRecord>)
    ensures LeftJoin(a + b, ss) == LeftJoin(a, ss) + LeftJoin(b, ss)
    decreases |a|
  {
    if |a| == 0 {
      assert a + b == b;
    } else {
      assert (a + b)[0] == a[0];
      assert (a + b)[1..] == a[1..] + b;
      LeftJoinAppend(a[1..], b, ss);
    }
  }

  /** The block of one match row: its scored copies in report order, or one unscored copy. */
  lemma {:induction false} LeftJoinOne(m: MatchRow, ss: seq<ScoreRecord>)
    ensures var r := LeftJoin([m], ss); var hits := ScoresFor(m.matchId, ss);
      && (|hits| == 0 ==> r == [Unscored(m)])
      && (|hits| > 0 ==> |r| == |hits| && forall k :: 0 <= k < |r| ==> r[k] == Scored(m, hits[k]))
  {
    assert [m][1..] == [];
  }

  /** Every match row survives the join. */
  lemma {:induction false} LeftJoinRetains(ms: seq<MatchRow>, ss: seq<ScoreRecord>, i: nat)
    requires i < |ms|
    ensures exists k :: 0 <= k < |LeftJoin(ms, ss)| && LeftJoin(ms, ss)[k].game == ms[i]
  {
    var pre := ms[..i];
    var post := ms[i..];
    assert ms == pre + post;
    assert post == [ms[i]] + post[1..];
    LeftJoinAppend(pre, post, ss);
    LeftJoinAppend([ms[i]], post[1..], ss);
    var k := |LeftJoin(pre, ss)|;
    assert LeftJoin(ms, ss)[k] == JoinOne(ms[i], ss)[0];
  }

  /** Without score records the join is the match table with both scores absent. */
  lemma {:induction false} LeftJoinNoScores(ms: seq<MatchRow>)
    ensures LeftJoin(ms, []) == seq(|ms|, i requires 0 <= i < |ms| => Unscored(ms[i]))
    decreases |ms|
  {
    if |ms| > 0 {
      LeftJoinNoScores(ms[1..]);
    }
  }

  /** When no match number has more than one record, the join has exactly one row
      per match row, in the same order. */
  lemma {:induction false} LeftJoinUniqueIds(ms: seq<MatchRow>, ss: seq<ScoreRecord>)
    requires forall i :: 0 <= i < |ms| ==> |ScoresFor(ms[i].matchId, ss)| <= 1
    ensures |LeftJoin(ms, ss)| == |ms|
    ensures forall i :: 0 <= i < |ms| ==> LeftJoin(ms, ss)[i].game == ms[i]
    decreases |ms|
  {
    if |ms| > 0 {
      var head := JoinOne(ms[0], ss);
      var rest := LeftJoin(ms[1..], ss);
      assert LeftJoin(ms, ss) == head + rest;
      JoinOneUnique(ms[0], ss);
      assert forall i :: 0 <= i < |ms[1..]| ==> |ScoresFor(ms[1..][i].matchId, ss)| <= 1 by {
        forall i | 0 <= i < |ms[1..]| ensures |ScoresFor(ms[1..][i].matchId, ss)| <= 1 {
          assert ms[1..][i] == ms[i + 1];
        }
      }
      LeftJoinUniqueIds(ms[1..], ss);
      GamesCons(head, rest, ms);
    }
  }

  /** The join has at least one row per match row. */
  lemma {:induction false} LeftJoinAtLeast(ms: seq<MatchRow>, ss: seq<ScoreRecord>)
    ensures |LeftJoin(ms, ss)| >= |ms|
    decreases |ms|
  {
    if |ms| > 0 {
      assert LeftJoin(ms, ss) == JoinOne(ms[0], ss) + LeftJoin(ms[1..], ss);
      LeftJoinAtLeast(ms[1..], ss);
    }
  }

  /** The join has exactly one row per match row if and only if no match number
      has two or more score records. */
  lemma {:induction false} LeftJoinOneRowEach(ms: seq<MatchRow>, ss: seq<ScoreRecord>)
    ensures |LeftJoin(ms, ss)| == |ms| <==> forall i :: 0 <= i < |ms| ==> |ScoresFor(ms[i].matchId, ss)| <= 1
    decreases |ms|
  {
    if |ms| > 0 {
      var tail := ms[1..];
      assert LeftJoin(ms, ss) == JoinOne(ms[0], ss) + LeftJoin(tail, ss);
      LeftJoinAtLeast(tail, ss);
      LeftJoinOneRowEach(tail, ss);
      assert (forall i :: 0 <= i < |ms| ==> |ScoresFor(ms[i].matchId, ss)| <= 1)
        <==> |ScoresFor(ms[0].matchId, ss)| <= 1 && forall i :: 0 <= i < |tail| ==> |ScoresFor(tail[i].matchId, ss)| <= 1
      by {
        assert forall i :: 0 <= i < |tail| ==> tail[i] == ms[i + 1];
        assert forall i :: 0 < i < |ms| ==> ms[i] == tail[i - 1];
      }
    }
  }

  /** A match number with at most one record gives a single row. */
  lemma {:induction false} JoinOneUnique(m: MatchRow, ss: seq<ScoreRecord>)
    requires |ScoresFor(m.matchId, ss)| <= 1
    ensures |JoinOne(m, ss)| == 1 && JoinOne(m, ss)[0].game == m
  {
  }

  lemma {:induction false} GamesCons(head: seq<JoinedRow>, rest: seq<JoinedRow>, ms: seq<MatchRow>)
    requires |ms| > 0 && |head| == 1 && head[0].game == ms[0]
    requires |rest| == |ms| - 1 && forall i :: 0 <= i < |rest| ==> rest[i].game == ms[1..][i]
    ensures |head + rest| == |ms|
    ensures forall i :: 0 <= i < |ms| ==> (head + rest)[i].game == ms[i]
  {
    forall i | 1 <= i < |ms| ensures (head + rest)[i].game == ms[i] {
      assert (head + rest)[i] == rest[i - 1];
      assert ms[i] == ms[1..][i - 1];
    }
  }

  /** Line 101: the match numbers are trimmed again before the merge. */
  function StripIds(ms: seq<MatchRow>): (ts: seq<MatchRow>)
    ensures |ts| == |ms|
    ensures forall i :: 0 <= i < |ms| ==> ts[i] == ms[i].(matchId := Strip(ms[i].matchId))
  {
    seq(|ms|, i requires 0 <= i < |ms| => ms[i].(matchId := Strip(ms[i].matchId)))
  }

  /** The result of lines 99-104: the merged table and whether it has the score
      columns at all (the fallback copies the match table, which has none). */
  datatype Merged = Merged(table: Frame<JoinedRow>, scoreColumns: bool)

  /** Lines 99-104: the join when both tables have rows, otherwise a copy of the
      match table (no upload stays a frame without columns). */
  function Merge(gare: Frame<MatchRow>, voti: Frame<ScoreRecord>): (r: Merged)
    ensures r.table.Blank? <==> gare.Blank?
    ensures r.scoreColumns <==> |RowsOf(gare)| > 0 && |RowsOf(voti)| > 0
    ensures gare.Table? && MatchesTrimmed(gare.rows) ==> r.table.rows == LeftJoin(gare.rows, RowsOf(voti))
  {
    var ms := RowsOf(gare);
    var ss := RowsOf(voti);
    if |ms| > 0 && |ss| > 0 then
      assert MatchesTrimmed(ms) ==> StripIds(ms) == ms by {
        if MatchesTrimmed(ms) {
          TrimLoadedMatches(ms);
        }
      }
      Merged(Table(LeftJoin(StripIds(ms), ss)), true)
    else
      assert ss == [] ==> LeftJoin(ms, ss) == seq(|ms|, i requires 0 <= i < |ms| => Unscored(ms[i])) by {
        if ss == [] {
          LeftJoinNoScores(ms);
        }
      }
      match gare
      case Blank => Merged(Blank, false)
      case Table(_) => Merged(Table(seq(|ms|, i requires 0 <= i < |ms| => Unscored(ms[i]))), false)
  }
}
