/**
 * `ForensicAnalyzer.reconstruct_timeline`: the rows of the frame, returned
 * as a copy ordered by timestamp. The sort the frame uses by default is not
 * stable, so rows with equal timestamps may come out in any order; the
 * contract promises only an ordered permutation, and the lemmas show that
 * this already fixes the sequence of timestamps.
 */
module Timeline {
  import opened PyDateTime
  import opened LogParsing
  import opened AnomalyDetection

  function TimeOf(row: Row): Timestamp {
    row.record.timestamp
  }

  /** The `timestamp` column. */
  function Times(rows: seq<Row>): (ts: seq<Timestamp>)
    ensures |ts| == |rows|
    ensures forall i :: 0 <= i < |rows| ==> ts[i] == TimeOf(rows[i])
  {
    seq(|rows|, i requires 0 <= i < |rows| => TimeOf(rows[i]))
  }

  /** Every timestamp is no later than each one after it. */
  predicate Chronological(ts: seq<Timestamp>) {
    forall i, j :: 0 <= i < j < |ts| ==> NotAfter(ts[i], ts[j])
  }

  predicate SortedByTime(rows: seq<Row>) {
    Chronological(Times(rows))
  }

  lemma TimesCons(row: Row, rows: seq<Row>)
    ensures Times([row] + rows) == [TimeOf(row)] + Times(rows)
  {
  }

  /** A timestamp no later than the first of a chronological sequence can lead it. */
  lemma ChronologicalCons(t: Timestamp, ts: seq<Timestamp>)
    requires Chronological(ts)
    requires ts == [] || NotAfter(t, ts[0])
    ensures Chronological([t] + ts)
  {
    forall j | 0 < j < |ts| {
      NotAfterTransitive(t, ts[0], ts[j]);
    }
  }

  /** `x` put into the ordered `s` before the first row it is not later than. */
  function Insert(x: Row, s: seq<Row>): (r: seq<Row>)
    requires SortedByTime(s)
    ensures SortedByTime(r)
    ensures multiset(r) == multiset(s) + multiset{x}
    ensures r[0] == x || (s != [] && r[0] == s[0])
  {
    if s == [] || NotAfter(TimeOf(x), TimeOf(s[0])) then
      TimesCons(x, s);
      ChronologicalCons(TimeOf(x), Times(s));
      [x] + s
    else
      NotAfterTotal(TimeOf(x), TimeOf(s[0]));
      var rest := Insert(x, s[1..]);
      TimesCons(s[0], rest);
      ChronologicalCons(TimeOf(s[0]), Times(rest));
      assert s == [s[0]] + s[1..];
      [s[0]] + rest
  }

  /**
   * `reconstruct_timeline`: the rows ordered by timestamp, every row kept
   * exactly as often as it occurs.
   */
  function ReconstructTimeline(rows: seq<Row>): (timeline: seq<Row>)
    ensures SortedByTime(timeline)
    ensures multiset(timeline) == multiset(rows)
  {
    if rows == [] then []
    else
      assert rows == [rows[0]] + rows[1..];
      Insert(rows[0], ReconstructTimeline(rows[1..]))
  }

  /** Taking the row at `j` out of `rows` takes its timestamp out of the timestamp column. */
  lemma TimesRemove(rows: seq<Row>, j: nat)
    requires j < |rows|
    ensures multiset(rows[..j] + rows[j + 1..]) == multiset(rows) - multiset{rows[j]}
    ensures multiset(Times(rows[..j] + rows[j + 1..])) == multiset(Times(rows)) - multiset{TimeOf(rows[j])}
  {
    assert rows == rows[..j] + [rows[j]] + rows[j + 1..];
    assert Times(rows) == Times(rows[..j]) + [TimeOf(rows[j])] + Times(rows[j + 1..]);
    assert Times(rows[..j] + rows[j + 1..]) == Times(rows[..j]) + Times(rows[j + 1..]);
  }

  /** Removing a row from each side of equal multisets leaves equal multisets. */
  lemma RemoveMatching(a: seq<Row>, b: seq<Row>, j: nat)
    requires multiset(a) == multiset(b) && a != [] && j < |b| && b[j] == a[0]
    ensures multiset(a[1..]) == multiset(b[..j] + b[j + 1..])
  {
    assert a == [a[0]] + a[1..];
    TimesRemove(b, j);
  }

  /** The timestamp column of a row followed by more rows. */
  lemma TimesHead(a: seq<Row>)
    requires a != []
    ensures multiset(Times(a)) == multiset(Times(a[1..])) + multiset{TimeOf(a[0])}
  {
    assert a == [a[0]] + a[1..];
    TimesCons(a[0], a[1..]);
  }

  lemma TimesAt(b: seq<Row>, j: nat)
    requires j < |b|
    ensures multiset(Times(b)) == multiset(Times(b[..j] + b[j + 1..])) + multiset{TimeOf(b[j])}
  {
    TimesRemove(b, j);
    assert Times(b)[j] == TimeOf(b[j]);
  }

  /** Rows with the same multiset have timestamp columns with the same multiset. */
  lemma {:induction false} TimesMultiset(a: seq<Row>, b: seq<Row>)
    requires multiset(a) == multiset(b)
    ensures multiset(Times(a)) == multiset(Times(b))
    decreases |a|
  {
    if a == [] {
      assert |b| == |multiset(b)| == 0;
    } else {
      assert a[0] in multiset(b);
      var j :| 0 <= j < |b| && b[j] == a[0];
      RemoveMatching(a, b, j);
      TimesMultiset(a[1..], b[..j] + b[j + 1..]);
      TimesHead(a);
      TimesAt(b, j);
    }
  }

  lemma ChronologicalFirst(ts: seq<Timestamp>, t: Timestamp)
    requires Chronological(ts) && t in ts
    ensures NotAfter(ts[0], t)
  {
    var i :| 0 <= i < |ts| && ts[i] == t;
    if i > 0 {
      assert NotAfter(ts[0], ts[i]);
    }
  }

  lemma ChronologicalSplit(ts: seq<Timestamp>)
    requires Chronological(ts) && ts != []
    ensures Chronological(ts[1..])
    ensures multiset(ts[1..]) == multiset(ts) - multiset{ts[0]}
  {
    assert forall i, j :: 0 <= i < j < |ts| - 1 ==> ts[1..][i] == ts[i + 1] && ts[1..][j] == ts[j + 1];
    assert ts == [ts[0]] + ts[1..];
  }

  /** Two chronological sequences of the same timestamps are the same sequence. */
  lemma {:induction false} ChronologicalUnique(a: seq<Timestamp>, b: seq<Timestamp>)
    requires Chronological(a) && Chronological(b)
    requires multiset(a) == multiset(b)
    ensures a == b
    decreases |a|
  {
    if a == [] {
      assert |b| == |multiset(b)| == 0;
    } else {
      assert a[0] == b[0] by {
        assert a[0] in multiset(b) && b[0] in multiset(a);
        ChronologicalFirst(a, b[0]);
        ChronologicalFirst(b, a[0]);
        NotAfterAntisymmetric(a[0], b[0]);
      }
      assert a[1..] == b[1..] by {
        ChronologicalSplit(a);
        ChronologicalSplit(b);
        ChronologicalUnique(a[1..], b[1..]);
      }
      assert a == [a[0]] + a[1..] && b == [b[0]] + b[1..];
    }
  }

  /**
   * The timeline is the only thing an unstable sort may vary: any ordering
   * of the same rows by timestamp has the timeline's timestamp column.
   */
  lemma TimelineTimesDetermined(rows: seq<Row>, other: seq<Row>)
    requires SortedByTime(other) && multiset(other) == multiset(rows)
    ensures Times(other) == Times(ReconstructTimeline(rows))
  {
    var timeline := ReconstructTimeline(rows);
    TimesMultiset(other, timeline);
    ChronologicalUnique(Times(other), Times(timeline));
  }

  /** The timeline holds as many rows as the frame. */
  lemma TimelineLength(rows: seq<Row>)
    ensures |ReconstructTimeline(rows)| == |rows|
  {
    assert |multiset(ReconstructTimeline(rows))| == |multiset(rows)|;
  }

  /** The earliest row of the timeline is no later than any row of the frame. */
  lemma TimelineStartsEarliest(rows: seq<Row>, row: Row)
    requires row in rows
    ensures ReconstructTimeline(rows) != []
    ensures NotAfter(TimeOf(ReconstructTimeline(rows)[0]), TimeOf(row))
  {
    var timeline := ReconstructTimeline(rows);
    assert row in multiset(timeline);
    var k :| 0 <= k < |timeline| && timeline[k] == row;
    if k > 0 {
      assert NotAfter(Times(timeline)[0], Times(timeline)[k]);
    }
  }
}
