/**
 * `ForensicAnalyzer.parse_logs`: each line of the evidence file is stripped
 * and split on single spaces at most three times; a line with fewer than
 * four pieces is skipped, otherwise the first two pieces are read as a
 * timestamp, the third is the level and the length of the fourth is kept.
 * A timestamp that does not parse raises `ValueError` and ends the call.
 */
module LogParsing {
  import opened Wrappers
  import opened PyStr
  import opened PyDateTime

  /** One row of the frame `parse_logs` builds: `timestamp`, `level`, `message_length`. */
  datatype Record = Record(timestamp: Timestamp, level: string, messageLength: nat)

  /** What `parse_logs` does with one line. */
  datatype LineOutcome = Skipped | Parsed(record: Record) | BadTimestamp

  /** The exceptions the analyzer lets escape. */
  datatype AnalysisError =
    | TimestampValueError(line: nat)  // `strptime` raised ValueError on this line (0-based)
    | LevelKeyError                   // `df["level"]` on a frame without columns
    | FitValueError                   // the outlier model's `fit_predict` raised

  /** One line of the file, as the body of the loop in `parse_logs` treats it. */
  function ParseLine(line: string): (r: LineOutcome)
    ensures r.Skipped? <==> Spaces(Strip(line)) < 3
    ensures r.Parsed? ==> ' ' !in r.record.level && r.record.messageLength >= 1
  {
    var stripped := Strip(line);
    var parts := SplitSpace(stripped, 3);
    SplitSpaceCount(stripped, 3);
    if |parts| < 4 then Skipped
    else
      assert ' ' !in parts[2] && |parts[3]| >= 1 by {
        SplitSpacePieces(stripped, 3);
        SplitSpaceJoin(stripped, 3);
        JoinFour(parts);
      }
      match ParseTimestamp(parts[0] + " " + parts[1])
      case None => BadTimestamp
      case Some(t) => Parsed(Record(t, parts[2], |parts[3]|))
  }

  /**
   * A line of the shape DATE TIME LEVEL MESSAGE once stripped, where the
   * message may hold further spaces: its level is LEVEL verbatim, its
   * message length counts the whole MESSAGE, and it fails exactly when
   * "DATE TIME" is not a timestamp.
   */
  lemma ParseLineFields(line: string, date: string, time: string, level: string, message: string)
    requires Strip(line) == date + " " + time + " " + level + " " + message
    requires ' ' !in date && ' ' !in time && ' ' !in level
    ensures ParseLine(line) == match ParseTimestamp(date + " " + time)
                               case None => BadTimestamp
                               case Some(t) => Parsed(Record(t, level, |message|))
  {
    SplitFourFields(date, time, level, message);
  }

  /** Conversely, every accepted line has that shape. */
  lemma ParsedLineShape(line: string)
    requires ParseLine(line).Parsed?
    ensures exists date: string, time: string, message: string ::
              && ' ' !in date && ' ' !in time
              && Strip(line) == date + " " + time + " " + ParseLine(line).record.level + " " + message
              && |message| == ParseLine(line).record.messageLength
              && ParseTimestamp(date + " " + time) == Some(ParseLine(line).record.timestamp)
  {
    var parts := SplitSpace(Strip(line), 3);
    SplitSpaceCount(Strip(line), 3);
    SplitSpacePieces(Strip(line), 3);
    SplitSpaceJoin(Strip(line), 3);
    JoinFour(parts);
    assert ' ' !in parts[0] && ' ' !in parts[1];
  }

  /**
   * Two spaces between the date and the time: the time token is empty, so
   * `strptime` gets a text ending in a space and the whole call fails.
   */
  lemma DoubledSpaceFails(line: string, date: string, level: string, message: string)
    requires Strip(line) == date + "  " + level + " " + message
    requires ' ' !in date && ' ' !in level
    ensures ParseLine(line) == BadTimestamp
  {
    assert date + "  " + level + " " + message == date + " " + "" + " " + level + " " + message;
    ParseLineFields(line, date, "", level, message);
    if ParseTimestamp(date + " " + "").Some? {
      ParsedEndsInDigit(date + " " + "");
      assert false;
    }
  }

  lemma NoSpaceInPad2(n: nat)
    requires n < 100
    ensures ' ' !in Pad2(n)
  {
  }

  /**
   * A line written from a record, with any whitespace around it (a trailing
   * newline, say), parses back to that record.
   */
  lemma LineRoundTrip(t: Timestamp, level: string, message: string, lead: string, trail: string)
    requires ValidTimestamp(t)
    requires ' ' !in level
    requires message != [] && !IsSpace(message[|message| - 1])
    requires AllSpace(lead) && AllSpace(trail)
    ensures ParseLine(lead + FormatTimestamp(t) + " " + level + " " + message + trail)
         == Parsed(Record(t, level, |message|))
  {
    var date := Pad4(t.year) + "-" + Pad2(t.month) + "-" + Pad2(t.day);
    var time := Pad2(t.hour) + ":" + Pad2(t.minute) + ":" + Pad2(t.second);
    var m := date + " " + time + " " + level + " " + message;
    assert FormatTimestamp(t) == date + " " + time;
    assert lead + FormatTimestamp(t) + " " + level + " " + message + trail == lead + m + trail;
    NoSpaceInPad2(t.year / 100);
    NoSpaceInPad2(t.year % 100);
    NoSpaceInPad2(t.month);
    NoSpaceInPad2(t.day);
    NoSpaceInPad2(t.hour);
    NoSpaceInPad2(t.minute);
    NoSpaceInPad2(t.second);
    assert ' ' !in date && ' ' !in time;
    assert m[0] == Pad2(t.year / 100)[0];
    assert m[|m| - 1] == message[|message| - 1];
    StripOf(lead, m, trail);
    ParseLineFields(lead + m + trail, date, time, level, message);
    ParseFormatted(t);
  }

  /** A line with only three fields once stripped (no message) is skipped. */
  lemma ThreeFieldsSkipped(line: string, a: string, b: string, c: string)
    requires Strip(line) == a + " " + b + " " + c
    requires ' ' !in a && ' ' !in b && ' ' !in c
    ensures ParseLine(line) == Skipped
  {
    SplitThreeOnly(a, b, c);
  }

  /** A blank line, or one holding only whitespace, is skipped. */
  lemma BlankLineSkipped(line: string)
    requires AllSpace(line)
    ensures ParseLine(line) == Skipped
  {
    StripBlank(line);
  }

  // ------------------------------------------------------------ whole file

  /** `f` applied to every line, in order. */
  function MapLines(f: string -> LineOutcome, lines: seq<string>): (outs: seq<LineOutcome>)
    ensures |outs| == |lines|
    ensures forall i :: 0 <= i < |lines| ==> outs[i] == f(lines[i])
  {
    seq(|lines|, i requires 0 <= i < |lines| => f(lines[i]))
  }

  lemma MapLinesAppend(f: string -> LineOutcome, a: seq<string>, b: seq<string>)
    ensures MapLines(f, a + b) == MapLines(f, a) + MapLines(f, b)
  {
    var whole := MapLines(f, a + b);
    var parts := MapLines(f, a) + MapLines(f, b);
    forall i | 0 <= i < |a + b|
      ensures whole[i] == parts[i]
    {
      if i < |a| {
        assert (a + b)[i] == a[i];
      } else {
        assert (a + b)[i] == b[i - |a|];
      }
    }
  }

  lemma MapLinesPrefix(f: string -> LineOutcome, lines: seq<string>, i: nat)
    requires i <= |lines|
    ensures MapLines(f, lines[..i]) == MapLines(f, lines)[..i]
  {
  }

  /** What the loop does with each line of the file, line by line. */
  function Outcomes(lines: seq<string>): seq<LineOutcome> {
    MapLines(ParseLine, lines)
  }

  /** The records a run of outcomes contributes, in order. */
  function RecordsOf(outs: seq<LineOutcome>): seq<Record> {
    if outs == [] then []
    else (if outs[0].Parsed? then [outs[0].record] else []) + RecordsOf(outs[1..])
  }

  /** No outcome in the run is a failed timestamp. */
  predicate NoneBad(outs: seq<LineOutcome>) {
    forall i :: 0 <= i < |outs| ==> !outs[i].BadTimestamp?
  }

  /** The records of the accepted lines, in file order. */
  function AcceptedRecords(lines: seq<string>): seq<Record> {
    RecordsOf(Outcomes(lines))
  }

  /** No line in `lines` makes `strptime` raise. */
  predicate NoBadLine(lines: seq<string>) {
    NoneBad(Outcomes(lines))
  }

  lemma {:induction false} RecordsOfAppend(a: seq<LineOutcome>, b: seq<LineOutcome>)
    ensures RecordsOf(a + b) == RecordsOf(a) + RecordsOf(b)
  {
    if a != [] {
      assert (a + b)[1..] == a[1..] + b;
      RecordsOfAppend(a[1..], b);
    } else {
      assert a + b == b;
    }
  }

  lemma {:induction false} RecordsOfBound(outs: seq<LineOutcome>)
    ensures |RecordsOf(outs)| <= |outs|
  {
    if outs != [] {
      RecordsOfBound(outs[1..]);
    }
  }

  lemma {:induction false} RecordsOfFrom(outs: seq<LineOutcome>, rec: Record)
    ensures rec in RecordsOf(outs) <==> Parsed(rec) in outs
  {
    if outs != [] {
      RecordsOfFrom(outs[1..], rec);
      assert outs == [outs[0]] + outs[1..];
    }
  }

  /** The outcomes of consecutive blocks of lines follow each other. */
  lemma OutcomesAppend(a: seq<string>, b: seq<string>)
    ensures Outcomes(a + b) == Outcomes(a) + Outcomes(b)
  {
    MapLinesAppend(ParseLine, a, b);
  }

  /** Reading a prefix of the file gives a prefix of the outcomes. */
  lemma OutcomesPrefix(lines: seq<string>, i: nat)
    requires i <= |lines|
    ensures Outcomes(lines[..i]) == Outcomes(lines)[..i]
  {
    MapLinesPrefix(ParseLine, lines, i);
  }

  /** The records of consecutive blocks of lines follow each other in that order. */
  lemma AcceptedRecordsAppend(a: seq<string>, b: seq<string>)
    ensures AcceptedRecords(a + b) == AcceptedRecords(a) + AcceptedRecords(b)
  {
    OutcomesAppend(a, b);
    RecordsOfAppend(Outcomes(a), Outcomes(b));
  }

  /** There are never more records than lines. */
  lemma AcceptedRecordsBound(lines: seq<string>)
    ensures |AcceptedRecords(lines)| <= |lines|
  {
    RecordsOfBound(Outcomes(lines));
  }

  /** A record comes out exactly when some line parses to it. */
  lemma AcceptedRecordsFrom(lines: seq<string>, rec: Record)
    ensures rec in AcceptedRecords(lines) <==> exists i :: 0 <= i < |lines| && ParseLine(lines[i]) == Parsed(rec)
  {
    RecordsOfFrom(Outcomes(lines), rec);
    if Parsed(rec) in Outcomes(lines) {
      var i :| 0 <= i < |lines| && Outcomes(lines)[i] == Parsed(rec);
      assert ParseLine(lines[i]) == Parsed(rec);
    }
    if exists i :: 0 <= i < |lines| && ParseLine(lines[i]) == Parsed(rec) {
      var i :| 0 <= i < |lines| && ParseLine(lines[i]) == Parsed(rec);
      assert Outcomes(lines)[i] == Parsed(rec);
    }
  }

  /** A file is read whole exactly when no line has a timestamp that does not parse. */
  lemma NoBadLineAt(lines: seq<string>)
    ensures NoBadLine(lines) <==> forall i :: 0 <= i < |lines| ==> !ParseLine(lines[i]).BadTimestamp?
  {
    if !NoBadLine(lines) {
      var i :| 0 <= i < |lines| && Outcomes(lines)[i].BadTimestamp?;
      assert ParseLine(lines[i]).BadTimestamp?;
    }
    if exists i :: 0 <= i < |lines| && ParseLine(lines[i]).BadTimestamp? {
      var i :| 0 <= i < |lines| && ParseLine(lines[i]).BadTimestamp?;
      assert Outcomes(lines)[i].BadTimestamp?;
    }
  }

  /** One more outcome: the records grow by that line's share, and the run stays clean if it is. */
  lemma NextOutcome(outs: seq<LineOutcome>, i: nat)
    requires i < |outs|
    ensures RecordsOf(outs[..i + 1]) == RecordsOf(outs[..i]) + (if outs[i].Parsed? then [outs[i].record] else [])
    ensures NoneBad(outs[..i + 1]) <==> NoneBad(outs[..i]) && !outs[i].BadTimestamp?
  {
    assert outs[..i + 1] == outs[..i] + [outs[i]];
    RecordsOfAppend(outs[..i], [outs[i]]);
    assert RecordsOf([outs[i]]) == (if outs[i].Parsed? then [outs[i].record] else []) + RecordsOf([]);
  }

  /**
   * `parse_logs` over the lines of the file: the accepted lines' records in
   * file order, or the `ValueError` of the first line whose timestamp does
   * not parse.
   */
  method ParseLogs(lines: seq<string>) returns (r: Result<seq<Record>, AnalysisError>)
    ensures r.Ok? <==> NoBadLine(lines)
    ensures r.Ok? ==> r.value == AcceptedRecords(lines)
    ensures r.Err? ==> && r.error.TimestampValueError?
                       && r.error.line < |lines|
                       && ParseLine(lines[r.error.line]) == BadTimestamp
                       && NoBadLine(lines[..r.error.line])
  {
    ghost var outs := Outcomes(lines);
    var records: seq<Record> := [];
    for i := 0 to |lines|
      invariant NoneBad(outs[..i])
      invariant records == RecordsOf(outs[..i])
    {
      var outcome := ParseLine(lines[i]);
      assert outcome == outs[i];
      NextOutcome(outs, i);
      if outcome.BadTimestamp? {
        OutcomesPrefix(lines, i);
        return Err(TimestampValueError(i));
      }
      if outcome.Parsed? {
        records := records + [outcome.record];
      }
    }
    assert outs[..|lines|] == outs;
    return Ok(records);
  }
}
