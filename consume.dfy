/**
 * The read/decode/emit loop at the end of `main`: read a sample from the
 * ring buffer, stop when the reader has been closed, log and skip any
 * other read error and any sample `binary.Read` rejects, and otherwise log
 * one line with the pid, user name and password of the decoded event.
 *
 * The ring-buffer reader is abstracted to the sequence of results its
 * successive `Read` calls return; the log to the sequence of lines written.
 */
module Consume {
  import opened Wrappers
  import opened Bytes
  import opened CStrings
  import opened Record
  import opened Seqs

  /** What one `rd.Read()` returns. */
  datatype ReadResult =
    | Sample(raw: seq<byte>)  // a record; its `RawSample`
    | Closed                  // an error that `errors.Is(err, ringbuf.ErrClosed)`
    | OtherErr                // any other read error

  /** One line the loop logs. */
  datatype LogLine =
    | EventLine(pid: int32, username: seq<byte>, password: seq<byte>)  // "pid: %d username: %s password: %s"
    | ReadFailed                                                        // "reading from reader: %s"
    | ParseFailed(err: DecodeError)                                     // "error parsing ringbuf event: %s"
    | Exiting                                                           // "Received signal, exiting.."

  /** The line logged for one read result. */
  function Step(r: ReadResult): (lines: seq<LogLine>)
    ensures |lines| == 1
    ensures lines[0].EventLine? <==> r.Sample? && |r.raw| >= EventSize
    ensures lines[0] == Exiting <==> r.Closed?
    ensures r.OtherErr? ==> lines == [ReadFailed]
  {
    match r
    case Closed => [Exiting]
    case OtherErr => [ReadFailed]
    case Sample(raw) =>
      match Decode(raw)
      case Failure(err) => [ParseFailed(err)]
      case Success(event) =>
        [EventLine(event.pid, CString(event.username), CString(event.password))]
  }

  /**
   * Everything the loop logs for a sequence of read results: one line per
   * result, up to and including the first `Closed`, after which it returns.
   */
  function Run(results: seq<ReadResult>): (log: seq<LogLine>)
    ensures |log| <= |results|
    ensures Exiting in log <==> Closed in results
    ensures Closed in results ==> log[|log| - 1] == Exiting
    ensures Closed !in results ==> |log| == |results|
  {
    if results == [] then []
    else if results[0].Closed? then [Exiting]
    else Step(results[0]) + Run(results[1..])
  }

  /** The results read before the first `Closed` (all of them if none is). */
  function BeforeClose(results: seq<ReadResult>): (p: seq<ReadResult>)
    ensures p <= results
    ensures Closed !in p
    ensures |p| == |results| || results[|p|] == Closed
  {
    if results == [] || results[0].Closed? then [] else [results[0]] + BeforeClose(results[1..])
  }

  /**
   * The event line for a well-formed sample, read straight off the record
   * layout: the `int32` of bytes 0..3 and the text of bytes 20..99 and
   * 100..179.
   */
  function LineFor(raw: seq<byte>): (line: LogLine)
    requires |raw| >= EventSize
    ensures line.EventLine?
    ensures line.username <= raw[20..100] && 0 !in line.username
    ensures line.password <= raw[100..180] && 0 !in line.password
  {
    EventLine(DecodeInt32LE(raw[..4]), CString(raw[20..100]), CString(raw[100..180]))
  }

  /** The event lines expected for some read results: one per sample of at least 180 bytes, in order. */
  function ExpectedEvents(results: seq<ReadResult>): (lines: seq<LogLine>)
    ensures |lines| <= |results|
    ensures forall j :: 0 <= j < |lines| ==> lines[j].EventLine?
    ensures (forall j :: 0 <= j < |results| ==> !results[j].Sample?) ==> lines == []
  {
    if results == [] then []
    else
      var r := results[0];
      (if r.Sample? && |r.raw| >= EventSize then [LineFor(r.raw)] else []) + ExpectedEvents(results[1..])
  }

  /** The event lines of a log, in order. */
  function Events(log: seq<LogLine>): (lines: seq<LogLine>)
    ensures |lines| <= |log|
    ensures forall j :: 0 <= j < |lines| ==> lines[j].EventLine?
  {
    if log == [] then []
    else (if log[0].EventLine? then [log[0]] else []) + Events(log[1..])
  }

  /** A sample of at least 180 bytes is logged as the line its layout gives. */
  lemma StepWellFormed(raw: seq<byte>)
    requires |raw| >= EventSize
    ensures Step(Sample(raw)) == [LineFor(raw)]
  {
    DecodeFields(raw);
  }

  /** A shorter sample is logged as a parse error: no event line. */
  lemma StepShort(raw: seq<byte>)
    requires |raw| < EventSize
    ensures Step(Sample(raw)) == [ParseFailed(if |raw| == 0 then EOF else UnexpectedEOF)]
  {
    DecodeShort(raw);
  }

  /**
   * The loop returns at the first `Closed`: it logs the lines of the results
   * before it, then the exit line, and nothing for what follows.
   */
  lemma {:induction false} RunStopsAtClose(p: seq<ReadResult>, q: seq<ReadResult>)
    requires Closed !in p
    ensures Run(p + [Closed] + q) == Run(p) + [Exiting]
  {
    if p == [] {
      assert p + [Closed] + q == [Closed] + q;
    } else {
      assert (p + [Closed] + q)[1..] == p[1..] + [Closed] + q;
      RunStopsAtClose(p[1..], q);
    }
  }

  /**
   * The event lines logged correspond one to one, and in order, to the
   * samples of at least 180 bytes read before the first `Closed`.
   */
  lemma {:induction false} EventsOfRun(results: seq<ReadResult>)
    ensures Events(Run(results)) == ExpectedEvents(BeforeClose(results))
  {
    if results == [] || results[0].Closed? {
      assert BeforeClose(results) == [];
      if results != [] {
        assert Run(results) == [Exiting];
        assert Events([Exiting]) == [] + Events([]);
      }
    } else {
      var r := results[0];
      var rest := results[1..];
      EventsOfRun(rest);
      EventsAppend(Step(r), Run(rest));
      assert BeforeClose(results) == [r] + BeforeClose(rest);
      assert ([r] + BeforeClose(rest))[1..] == BeforeClose(rest);
      if r.Sample? && |r.raw| >= EventSize {
        StepWellFormed(r.raw);
        assert Events(Step(r)) == [LineFor(r.raw)] + Events([]);
      } else {
        assert Events(Step(r)) == [] + Events([]);
      }
    }
  }

  /** Events distributes over concatenation. */
  lemma {:induction false} EventsAppend(a: seq<LogLine>, b: seq<LogLine>)
    ensures Events(a + b) == Events(a) + Events(b)
  {
    if a == [] {
      assert a + b == b;
    } else {
      assert (a + b)[1..] == a[1..] + b;
      EventsAppend(a[1..], b);
    }
  }

  /**
   * End to end: N well-formed samples followed by a close are logged as
   * exactly N event lines, in order, then the exit line; nothing read
   * after the close is looked at.
   */
  lemma {:induction false} RunWellFormed(raws: seq<seq<byte>>, after: seq<ReadResult>)
    requires forall j :: 0 <= j < |raws| ==> |raws[j]| >= EventSize
    ensures var log := Run(seq(|raws|, j requires 0 <= j < |raws| => Sample(raws[j])) + [Closed] + after);
            |log| == |raws| + 1 && log[|raws|] == Exiting
            && forall j :: 0 <= j < |raws| ==> log[j] == LineFor(raws[j])
  {
    var samples := seq(|raws|, j requires 0 <= j < |raws| => Sample(raws[j]));
    RunStopsAtClose(samples, after);
    RunAllWellFormed(raws);
  }

  lemma {:induction false} RunAllWellFormed(raws: seq<seq<byte>>)
    requires forall j :: 0 <= j < |raws| ==> |raws[j]| >= EventSize
    ensures var log := Run(seq(|raws|, j requires 0 <= j < |raws| => Sample(raws[j])));
            |log| == |raws| && forall j :: 0 <= j < |raws| ==> log[j] == LineFor(raws[j])
  {
    var samples := seq(|raws|, j requires 0 <= j < |raws| => Sample(raws[j]));
    if raws != [] {
      var tail := seq(|raws| - 1, j requires 0 <= j < |raws| - 1 => Sample(raws[1..][j]));
      assert samples[1..] == tail;
      RunAllWellFormed(raws[1..]);
      StepWellFormed(raws[0]);
      var log := Run(samples);
      var rest := Run(tail);
      assert log == [LineFor(raws[0])] + rest;
      forall j | 1 <= j < |raws|
        ensures log[j] == LineFor(raws[j])
      {
        assert log[j] == rest[j - 1];
        assert raws[1..][j - 1] == raws[j];
      }
    }
  }

  /**
   * A malformed sample is logged as a parse error and the loop goes on: a
   * well-formed sample after it is still logged as its event.
   */
  lemma MalformedThenWellFormed(bad: seq<byte>, good: seq<byte>, after: seq<ReadResult>)
    requires 0 < |bad| < EventSize <= |good|
    ensures Run([Sample(bad), Sample(good)] + after)[..2] == [ParseFailed(UnexpectedEOF), LineFor(good)]
  {
    StepShort(bad);
    StepWellFormed(good);
    var results := [Sample(bad), Sample(good)] + after;
    assert results[1..][1..] == after;
  }

  /**
   * The loop of `main`. The single `event` variable declared before it is
   * overwritten by every successful decode; a read error or a rejected
   * sample skips to the next read, and a closed reader ends the loop. The
   * results still unread when they run out are not consumed (the real loop
   * would block in `Read`).
   */
  method ConsumeLoop(results: seq<ReadResult>) returns (log: seq<LogLine>, consumed: nat, exited: bool)
    ensures log == Run(results)
    ensures exited <==> Closed in results
    ensures exited ==> 0 < consumed <= |results| && results[consumed - 1] == Closed
    ensures exited ==> Closed !in results[..consumed - 1]
    ensures !exited ==> consumed == |results|
  {
    var event := ZeroEvent();
    log, consumed, exited := [], 0, false;
    while consumed < |results|
      invariant consumed <= |results|
      invariant Closed !in results[..consumed]
      invariant log + Run(results[consumed..]) == Run(results)
    {
      var record := results[consumed];
      RunFrom(results, consumed);
      TakeNext(results, consumed);
      consumed := consumed + 1;
      if record.Closed? {
        log := log + [Exiting];
        exited := true;
        return;
      }
      var line;
      if record.OtherErr? {
        line := ReadFailed;
      } else {
        var parsed := Decode(record.raw);
        if parsed.Failure? {
          line := ParseFailed(parsed.error);
        } else {
          event := parsed.value;
          var username := ByteArrayToString(event.username);
          var password := ByteArrayToString(event.password);
          line := EventLine(event.pid, username, password);
        }
      }
      assert [line] == Step(record);
      AppendAssoc(log, [line], Run(results[consumed..]));
      log := log + [line];
    }
    TakeAll(results);
  }

  /** Run, one result at a time. */
  lemma RunFrom(results: seq<ReadResult>, i: nat)
    requires i < |results|
    ensures Run(results[i..]) == if results[i].Closed? then [Exiting]
                                 else Step(results[i]) + Run(results[i + 1..])
  {
    assert results[i..][1..] == results[i + 1..];
  }
}
