/**
 * `ForensicAnalyzer.detect_anomalies`: the frame of parsed records gains a
 * `severity` column, looked up in a fixed table of levels, and an `anomaly`
 * column holding one label per row from the outlier model. The records
 * themselves are left as they are.
 */
module AnomalyDetection {
  import opened Wrappers
  import opened PyDateTime
  import opened LogParsing

  /** The three levels the severity table knows, in code order. */
  const KnownLevels: seq<string> := ["INFO", "WARNING", "ERROR"]

  /** The severity table: `INFO` 0, `WARNING` 1, `ERROR` 2. */
  const SeverityCodes: map<string, nat> := map["INFO" := 0, "WARNING" := 1, "ERROR" := 2]

  /**
   * The severity of one level, as `Series.map` with the table gives it: the
   * table's code, or a missing value for a level the table does not list.
   * There is no fallback code.
   */
  function SeverityOf(level: string): (code: Option<nat>)
    ensures code.Some? <==> level in KnownLevels
    ensures code.Some? ==> code.value < |KnownLevels| && KnownLevels[code.value] == level
  {
    if level in SeverityCodes then Some(SeverityCodes[level]) else None
  }

  /** Every code comes from exactly one level: the table is a bijection onto 0..2. */
  lemma SeverityOfName(code: nat)
    requires code < |KnownLevels|
    ensures SeverityOf(KnownLevels[code]) == Some(code)
  {
    var c := SeverityOf(KnownLevels[code]).value;
    assert KnownLevels[c] == KnownLevels[code];
  }

  /** Higher codes mean more severe levels: INFO below WARNING below ERROR. */
  lemma SeverityOrder()
    ensures SeverityOf("INFO").value < SeverityOf("WARNING").value < SeverityOf("ERROR").value
  {
    SeverityOfName(0);
    SeverityOfName(1);
    SeverityOfName(2);
  }

  /** The lookup is exact: a known level written in another case gets no code. */
  lemma LowerCaseUnknown()
    ensures SeverityOf("info") == None && SeverityOf("Error") == None
  {
    assert "info" != KnownLevels[0] && "info" != KnownLevels[1] && "info" != KnownLevels[2];
    assert "Error" != KnownLevels[0] && "Error" != KnownLevels[1] && "Error" != KnownLevels[2];
  }

  /** One row of the two feature columns handed to the outlier model. */
  datatype Feature = Feature(severity: Option<nat>, messageLength: nat)

  /** One row of the frame after `detect_anomalies`. */
  datatype Row = Row(record: Record, severity: Option<nat>, anomaly: int)

  /** The `severity` column: the table applied to the `level` column. */
  function SeverityColumn(records: seq<Record>): (column: seq<Option<nat>>)
    ensures |column| == |records|
    ensures forall i :: 0 <= i < |records| ==> column[i] == SeverityOf(records[i].level)
    ensures forall i :: 0 <= i < |records| ==> (column[i].None? <==> records[i].level !in KnownLevels)
  {
    seq(|records|, i requires 0 <= i < |records| => SeverityOf(records[i].level))
  }

  /** The `severity` and `message_length` columns side by side. */
  function Features(records: seq<Record>): (features: seq<Feature>)
    ensures |features| == |records|
    ensures forall i :: 0 <= i < |records| ==>
              features[i] == Feature(SeverityColumn(records)[i], records[i].messageLength)
  {
    seq(|records|, i requires 0 <= i < |records| => Feature(SeverityOf(records[i].level), records[i].messageLength))
  }

  /** The rows of a frame whose columns have equal lengths. */
  function ZipRows(records: seq<Record>, severity: seq<Option<nat>>, anomaly: seq<int>): (rows: seq<Row>)
    requires |severity| == |records| && |anomaly| == |records|
    ensures |rows| == |records|
    ensures forall i :: 0 <= i < |rows| ==> rows[i] == Row(records[i], severity[i], anomaly[i])
  {
    if records == [] then []
    else [Row(records[0], severity[0], anomaly[0])] + ZipRows(records[1..], severity[1..], anomaly[1..])
  }

  /**
   * The frame `parse_logs` returns and `detect_anomalies` extends in place.
   * Before detection it has only the record columns; afterwards it also has
   * a severity and an anomaly label per row.
   */
  class LogFrame {
    var records: seq<Record>
    var severity: seq<Option<nat>>
    var anomaly: seq<int>
    var labelled: bool

    ghost predicate Valid()
      reads this
    {
      labelled ==> |severity| == |records| && |anomaly| == |records|
    }

    /** The frame built from the parsed records, with no added columns yet. */
    constructor (records: seq<Record>)
      ensures Valid()
      ensures this.records == records && !labelled
      ensures severity == [] && anomaly == []
    {
      this.records := records;
      severity := [];
      anomaly := [];
      labelled := false;
    }

    /** The rows of a labelled frame, in frame order. */
    function Rows(): (rows: seq<Row>)
      reads this
      requires Valid() && labelled
      ensures |rows| == |records|
      ensures forall i :: 0 <= i < |rows| ==> rows[i] == Row(records[i], severity[i], anomaly[i])
    {
      ZipRows(records, severity, anomaly)
    }
  }

  /**
   * `detect_anomalies(df)`: adds the severity column and the model's label
   * column to `df` in place and returns it. `fitPredict` stands for the
   * outlier model's `fit_predict`: one label per feature row, or `None`
   * where it raises. A frame built from no records has no `level` column,
   * so the lookup raises `KeyError` and the frame is left as it was. When
   * the model raises, the severity column is already in place and the
   * label column is not touched.
   */
  method DetectAnomalies(df: LogFrame, fitPredict: seq<Feature> -> Option<seq<int>>) returns (r: Result<LogFrame, AnalysisError>)
    requires forall fs :: fitPredict(fs).Some? ==> |fitPredict(fs).value| == |fs|
    requires df.Valid()
    modifies df
    ensures r.Err? <==> old(df.records) == [] || fitPredict(Features(old(df.records))).None?
    ensures old(df.records) == [] ==> r == Err(LevelKeyError) && unchanged(df)
    ensures old(df.records) != [] ==> && df.records == old(df.records)
                                      && df.severity == SeverityColumn(df.records)
                                      && df.Valid()
    ensures r.Err? && old(df.records) != [] ==> && r.error == FitValueError
                                                && df.anomaly == old(df.anomaly)
                                                && df.labelled == old(df.labelled)
    ensures r.Ok? ==> && r.value == df
                      && df.labelled
                      && df.anomaly == fitPredict(Features(df.records)).value
  {
    if df.records == [] {
      return Err(LevelKeyError);
    }
    df.severity := SeverityColumn(df.records);
    var labels := fitPredict(Features(df.records));
    if labels.None? {
      return Err(FitValueError);
    }
    df.anomaly := labels.value;
    df.labelled := true;
    return Ok(df);
  }

  /**
   * After detection, each row carries its record unchanged, the code of its
   * own level, and the label the model gave the feature row at the same
   * position.
   */
  lemma LabelledRows(records: seq<Record>, labels: seq<int>)
    requires |labels| == |records|
    ensures var rows := ZipRows(records, SeverityColumn(records), labels);
            && |rows| == |records|
            && forall i :: 0 <= i < |records| ==>
                 && rows[i].record == records[i]
                 && rows[i].severity == SeverityOf(records[i].level)
                 && rows[i].anomaly == labels[i]
  {
  }
}
