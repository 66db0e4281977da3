/**
 * One analysis run as the forensic pipeline chains it: parse the evidence
 * file, label the frame, and order it into a timeline.
 */
module Analysis {
  import opened Wrappers
  import opened LogParsing
  import opened AnomalyDetection
  import opened Timeline

  /** The frame's rows once the accepted records carry their labels. */
  function LabelledFrame(records: seq<Record>, labels: seq<int>): seq<Row>
    requires |labels| == |records|
  {
    ZipRows(records, SeverityColumn(records), labels)
  }

  /**
   * Every row of a reordering of the labelled frame carries one of the
   * records and the severity code of that record's own level.
   */
  lemma TimelineRows(records: seq<Record>, labels: seq<int>, timeline: seq<Row>)
    requires |labels| == |records|
    requires multiset(timeline) == multiset(LabelledFrame(records, labels))
    ensures forall row :: row in timeline ==> row.record in records && row.severity == SeverityOf(row.record.level)
  {
    var frame := LabelledFrame(records, labels);
    forall row | row in timeline
      ensures row.record in records && row.severity == SeverityOf(row.record.level)
    {
      assert row in multiset(frame);
      var k :| 0 <= k < |frame| && frame[k] == row;
      LabelledRows(records, labels);
    }
  }

  /**
   * `parse_logs`, then `detect_anomalies`, then `reconstruct_timeline` on
   * the lines of one evidence file. The run fails on the first line whose
   * timestamp does not parse, with `KeyError` when no line was accepted,
   * and with the model's error when `fit_predict` raises; otherwise the
   * timeline is the labelled frame put in timestamp order.
   */
  method AnalyzeLogs(lines: seq<string>, fitPredict: seq<Feature> -> Option<seq<int>>) returns (r: Result<seq<Row>, AnalysisError>)
    requires forall fs :: fitPredict(fs).Some? ==> |fitPredict(fs).value| == |fs|
    ensures !NoBadLine(lines) ==> r.Err? && r.error.TimestampValueError?
    ensures NoBadLine(lines) && AcceptedRecords(lines) == [] ==> r == Err(LevelKeyError)
    ensures && NoBadLine(lines) && AcceptedRecords(lines) != []
            && fitPredict(Features(AcceptedRecords(lines))).None?
            ==> r == Err(FitValueError)
    ensures r.Ok? <==> && NoBadLine(lines) && AcceptedRecords(lines) != []
                       && fitPredict(Features(AcceptedRecords(lines))).Some?
    ensures r.Ok? ==> && SortedByTime(r.value)
                      && multiset(r.value) == multiset(LabelledFrame(AcceptedRecords(lines), fitPredict(Features(AcceptedRecords(lines))).value))
    ensures r.Ok? ==> forall row :: row in r.value ==>
                        && row.record in AcceptedRecords(lines)
                        && row.severity == SeverityOf(row.record.level)
  {
    var parsed := ParseLogs(lines);
    if parsed.Err? {
      return Err(parsed.error);
    }
    var df := new LogFrame(parsed.value);
    var detected := DetectAnomalies(df, fitPredict);
    if detected.Err? {
      return Err(detected.error);
    }
    var labels := fitPredict(Features(parsed.value)).value;
    var timeline := ReconstructTimeline(df.Rows());
    assert df.Rows() == LabelledFrame(parsed.value, labels);
    TimelineRows(parsed.value, labels, timeline);
    return Ok(timeline);
  }
}
