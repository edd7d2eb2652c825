/** The completion log of src/logger.hpp: a header line written when the
    logger is constructed, then one comma-separated line per finished job.
    Clock readings are nanosecond counts since the epoch; the file is the
    sequence of lines written to it, each ending in a line break. */
module CompletionLog {
  import opened Wrappers
  import opened Text

  const NanosPerMilli: int := 1_000_000

  /** `duration_cast<milliseconds>` of a nanosecond count: the whole number
      of milliseconds, rounded toward zero. */
  function ToMillis(ns: int): (ms: int)
    ensures 0 <= ns ==> 0 <= ms && ms * NanosPerMilli <= ns < ms * NanosPerMilli + NanosPerMilli
    ensures ns < 0 ==> ms <= 0 && ms * NanosPerMilli - NanosPerMilli < ns <= ms * NanosPerMilli
  {
    if ns >= 0 then ns / NanosPerMilli else -((-ns) / NanosPerMilli)
  }

  /** The seven values of one completion line, in column order. */
  datatype Record = Record(
    jobId: int, threadId: int,
    submitMs: int, startMs: int, endMs: int,
    execMs: int, waitMs: int)

  /** The values `Logger::log` computes from a job's three clock readings. */
  function Completion(jobId: int, threadId: int, submitTick: int, startTick: int, endTick: int): (r: Record)
    ensures r.jobId == jobId && r.threadId == threadId
    ensures startTick <= endTick ==>
      r.execMs * NanosPerMilli <= endTick - startTick < r.execMs * NanosPerMilli + NanosPerMilli
    ensures submitTick <= startTick ==>
      r.waitMs * NanosPerMilli <= startTick - submitTick < r.waitMs * NanosPerMilli + NanosPerMilli
  {
    Record(jobId, threadId,
           ToMillis(submitTick), ToMillis(startTick), ToMillis(endTick),
           ToMillis(endTick - startTick), ToMillis(startTick - submitTick))
  }

  /** Under ordered clock readings neither duration is negative. The clock
      need not be steady, so the readings need not be ordered. */
  lemma DurationsNonNegative(jobId: int, threadId: int, submitTick: int, startTick: int, endTick: int)
    requires submitTick <= startTick <= endTick
    ensures Completion(jobId, threadId, submitTick, startTick, endTick).execMs >= 0
    ensures Completion(jobId, threadId, submitTick, startTick, endTick).waitMs >= 0
  {
  }

  /** A clock that steps back between the start and the end of a job gives a
      negative exec duration: a start 2 ms after the epoch and an end at the
      epoch log -2. */
  lemma NegativeDurationWhenClockStepsBack()
    ensures Completion(1, 0, 0, 2 * NanosPerMilli, 0).execMs == -2
    ensures Completion(1, 0, 0, 2 * NanosPerMilli, 0).waitMs == 2
  {
  }

  /** Both durations are truncations of the raw differences, so for readings
      after the epoch each lies one below or equal to the difference of the
      truncated columns beside it. */
  lemma DurationsNextToColumnDifferences(jobId: int, threadId: int, submitTick: int, startTick: int, endTick: int)
    requires 0 <= submitTick <= startTick <= endTick
    ensures var r := Completion(jobId, threadId, submitTick, startTick, endTick);
      && r.endMs - r.startMs - 1 <= r.execMs <= r.endMs - r.startMs
      && r.startMs - r.submitMs - 1 <= r.waitMs <= r.startMs - r.submitMs
  {
  }

  /** The execution time is not the difference of the two columns before it:
      a job started at 0.999999 ms and ended at 1 ms logs start 0, end 1 and
      execution time 0. */
  lemma ExecTakenFromRawDifference()
    ensures var r := Completion(1, 0, 0, 999_999, 1_000_000);
      r.startMs == 0 && r.endMs == 1 && r.execMs == 0
  {
  }

  const Columns: seq<string> :=
    ["JobID", "ThreadID", "SubmitTime", "StartTime", "EndTime", "ExecDurationMS", "QueueWaitMS"]

  /** The header the constructor writes: the column names joined by commas,
      "JobID,ThreadID,SubmitTime,StartTime,EndTime,ExecDurationMS,QueueWaitMS",
      and a line break. */
  const Header: string :=
    (Columns[0] + ",") + ((Columns[1] + ",") + ((Columns[2] + ",") + ((Columns[3] + ",") +
    ((Columns[4] + ",") + ((Columns[5] + ",") + Columns[6]))))) + "\n"

  /** The header is the column names joined by commas, on one line. */
  lemma HeaderJoinsColumns()
    ensures Header == Join(Columns, ',') + "\n"
  {
  }

  /** The header names the seven columns, in order, on one line. */
  lemma HeaderNamesColumns()
    ensures |Header| > 0 && Header[|Header| - 1] == '\n' && '\n' !in Header[..|Header| - 1]
    ensures Split(Header[..|Header| - 1], ',') == Columns
  {
    HeaderJoinsColumns();
    LineOfFields(Columns, ',');
  }

  /** The text of each field of a record, in column order. */
  function FieldTexts(r: Record): (fields: seq<string>)
  {
    [IntToDecimal(r.jobId), IntToDecimal(r.threadId),
     IntToDecimal(r.submitMs), IntToDecimal(r.startMs), IntToDecimal(r.endMs),
     IntToDecimal(r.execMs), IntToDecimal(r.waitMs)]
  }

  /** The line `Logger::log` writes for a record. */
  function FormatLine(r: Record): (line: string)
    ensures |line| > 0 && line[|line| - 1] == '\n'
  {
    Join(FieldTexts(r), ',') + "\n"
  }

  /** Reads the seven integers of a line back; `None` if it is not one. */
  function ParseLine(line: string): (r: Option<Record>)
  {
    if |line| == 0 || line[|line| - 1] != '\n' then None
    else
      var parts := Split(line[..|line| - 1], ',');
      if |parts| != 7 then None
      else
        match (ParseInt(parts[0]), ParseInt(parts[1]), ParseInt(parts[2]), ParseInt(parts[3]),
               ParseInt(parts[4]), ParseInt(parts[5]), ParseInt(parts[6]))
        case (Some(a), Some(b), Some(c), Some(d), Some(e), Some(f), Some(g)) =>
          Some(Record(a, b, c, d, e, f, g))
        case _ => None
  }

  /** A completion line is one line holding exactly seven comma-separated
      fields: job id, thread id, the three times and the two durations. */
  lemma FormatLineFields(r: Record)
    ensures var line := FormatLine(r);
      && |line| > 0 && line[|line| - 1] == '\n' && '\n' !in line[..|line| - 1]
      && Split(line[..|line| - 1], ',') == FieldTexts(r)
  {
    var fields := FieldTexts(r);
    forall k | 0 <= k < |fields|
      ensures ',' !in fields[k] && '\n' !in fields[k]
    {
      IntToDecimalRoundTrip([r.jobId, r.threadId, r.submitMs, r.startMs, r.endMs, r.execMs, r.waitMs][k]);
    }
    LineOfFields(fields, ',');
  }

  /** Every completion line reads back as the record it was written from. */
  lemma ParseFormatLine(r: Record)
    ensures ParseLine(FormatLine(r)) == Some(r)
  {
    FormatLineFields(r);
    IntToDecimalRoundTrip(r.jobId);
    IntToDecimalRoundTrip(r.threadId);
    IntToDecimalRoundTrip(r.submitMs);
    IntToDecimalRoundTrip(r.startMs);
    IntToDecimalRoundTrip(r.endMs);
    IntToDecimalRoundTrip(r.execMs);
    IntToDecimalRoundTrip(r.waitMs);
  }

  /** The log file: the stream becomes the sequence of lines written to it.
      `records` is the ghost list of what each line after the header says. */
  class Logger {
    var lines: seq<string>
    ghost var records: seq<Record>

    ghost predicate Valid()
      reads this
    {
      && |lines| == |records| + 1
      && lines[0] == Header
      && forall i :: 0 <= i < |records| ==> lines[i + 1] == FormatLine(records[i])
    }

    /** Opening the file writes the header line and nothing else. */
    constructor ()
      ensures Valid()
      ensures lines == [Header] && records == []
    {
      lines := [Header];
      records := [];
    }

    /** `Logger::log`: appends exactly one line for the finished job and
        leaves the lines before it as they were. */
    method Log(jobId: int, threadId: int, submitTick: int, startTick: int, endTick: int)
      requires Valid()
      modifies this
      ensures Valid()
      ensures records == old(records) + [Completion(jobId, threadId, submitTick, startTick, endTick)]
      ensures lines == old(lines) + [FormatLine(Completion(jobId, threadId, submitTick, startTick, endTick))]
    {
      var r := Completion(jobId, threadId, submitTick, startTick, endTick);
      lines := lines + [FormatLine(r)];
      records := records + [r];
    }
  }

  /** The file reads back as its header followed by the logged records. */
  lemma LogReadsBack(l: Logger)
    requires l.Valid()
    ensures l.lines[0] == Header
    ensures forall i :: 0 <= i < |l.records| ==> ParseLine(l.lines[i + 1]) == Some(l.records[i])
  {
    forall i | 0 <= i < |l.records|
      ensures ParseLine(l.lines[i + 1]) == Some(l.records[i])
    {
      ParseFormatLine(l.records[i]);
    }
  }
}
