/**
 Where the models of the log meet: the drop ledger's log is what the segment writer keeps on disk, and what the
 writer keeps on disk is what retention accepts.
 */
module LogJoin {
  import opened Prelude
  import opened SegmentScan
  import opened TextLines
  import SegmentLog
  import DropLedger
  import Retention

  // The drop ledger's log.

  type Encoder = DropLedger.Prepared -> Bytes

  function EventOf(encode: Encoder, e: DropLedger.Prepared): SegmentLog.Event {
    SegmentLog.Event(Header(e.sequence, e.id), encode(e))
  }

  function EventsOf(encode: Encoder, events: seq<DropLedger.Prepared>): (r: seq<SegmentLog.Event>)
    ensures |r| == |events|
  {
    seq(|events|, i requires 0 <= i < |events| => EventOf(encode, events[i]))
  }

  function LinesOf(encode: Encoder, events: seq<DropLedger.Prepared>): (r: seq<Bytes>)
    ensures |r| == |events|
  {
    seq(|events|, i requires 0 <= i < |events| => encode(events[i]))
  }

  ghost predicate Faithfully(decode: Decoder, encode: Encoder, events: seq<DropLedger.Prepared>) {
    forall e :: e in events ==> SegmentLog.Encodes(decode, EventOf(encode, e))
  }

  /** The lines on disk are the encoded events of the log, in order. */
  ghost predicate Represents(encode: Encoder, segments: seq<SegmentLog.Segment>, log: seq<DropLedger.Prepared>) {
    SegmentLog.DiskLines(segments) == LinesOf(encode, log)
  }

  /** Recovery reports the last event of the log, which is what settles an append of unknown outcome. */
  lemma RecoveryReportsLastOfLog(decode: Decoder, encode: Encoder, limit: nat, segments: seq<SegmentLog.Segment>,
                                 log: seq<DropLedger.Prepared>)
    requires BoundedDecoder(decode) && SegmentLog.Sound(decode, limit, segments)
    requires Represents(encode, segments, log) && Faithfully(decode, encode, log)
    ensures SegmentLog.Recoverable(decode, limit, segments)
    ensures SegmentLog.RecoveredLast(decode, segments)
            == if log == [] then None else Some(Header(log[|log| - 1].sequence, log[|log| - 1].id))
  {
    hide SegmentLog.Sound, SegmentLog.Recoverable, SegmentLog.RecoveredLast, BoundedDecoder, SegmentLog.DiskLines;
    SegmentLog.SoundIsRecoverable(decode, limit, segments);
    if log != [] {
      assert log[|log| - 1] in log;
    }
  }

  /**
   The ledger's append, carried out by the segment writer: afterwards the disk holds the log with the whole batch when
   the flush succeeds, and with some prefix of it when it fails. Either way recovery would report the last event of
   that log.
   */
  method AppendToLog(writer: SegmentLog.SegmentWriter, encode: Encoder, ghost log: seq<DropLedger.Prepared>,
                     batch: seq<DropLedger.Prepared>, calm: bool)
    returns (r: Result<SegmentLog.FlushOutcome, SegmentError>, ghost k: nat)
    requires BoundedDecoder(writer.decode) && SegmentLog.Sound(writer.decode, writer.limit, writer.directory.segments)
    requires writer.Tracks() && Represents(encode, writer.directory.segments, log)
    requires Faithfully(writer.decode, encode, log + batch)
    modifies writer, writer.directory
    ensures k <= |batch| && (r.Ok? ==> k == |batch|)
    ensures Represents(encode, writer.directory.segments, log + batch[..k])
    ensures SegmentLog.RecoveredLast(writer.decode, writer.directory.segments)
            == if log + batch[..k] == [] then None
               else Some(Header((log + batch[..k])[|log| + k - 1].sequence, (log + batch[..k])[|log| + k - 1].id))
  {
    hide SegmentLog.Sound, SegmentLog.DiskLines, BoundedDecoder, SegmentLog.SegmentWriter.Tracks, SegmentLog.Encodes,
         SegmentLog.RecoveredLast, SegmentLog.FirstOversized, SegmentLog.WritesBefore, SegmentLog.Fresh;
    ghost var lines := SegmentLog.DiskLines(writer.directory.segments);
    var events := EventsOf(encode, batch);
    BatchEncodes(writer.decode, encode, log, batch);
    r := writer.Flush(events, calm);
    if r.Ok? {
      k := |batch|;
    } else {
      k :| k <= |batch|
           && SegmentLog.DiskLines(writer.directory.segments) == lines + SegmentLog.BatchLines(events)[..k];
    }
    LinesJoin(encode, log, batch, k);
    PrefixEncodes(writer.decode, encode, log, batch, k);
    RecoveryReportsLastOfLog(writer.decode, encode, writer.limit, writer.directory.segments, log + batch[..k]);
  }

  lemma BatchEncodes(decode: Decoder, encode: Encoder, log: seq<DropLedger.Prepared>, batch: seq<DropLedger.Prepared>)
    requires Faithfully(decode, encode, log + batch)
    ensures forall e :: e in EventsOf(encode, batch) ==> SegmentLog.Encodes(decode, e)
  {
    hide SegmentLog.Encodes;
    forall e | e in EventsOf(encode, batch)
      ensures SegmentLog.Encodes(decode, e)
    {
      var i :| 0 <= i < |batch| && EventsOf(encode, batch)[i] == e;
      assert batch[i] in log + batch;
    }
  }

  lemma PrefixEncodes(decode: Decoder, encode: Encoder, log: seq<DropLedger.Prepared>, batch: seq<DropLedger.Prepared>,
                      k: nat)
    requires Faithfully(decode, encode, log + batch) && k <= |batch|
    ensures Faithfully(decode, encode, log + batch[..k])
  {
    hide SegmentLog.Encodes;
  }

  lemma LinesJoin(encode: Encoder, log: seq<DropLedger.Prepared>, batch: seq<DropLedger.Prepared>, k: nat)
    requires k <= |batch|
    ensures LinesOf(encode, log + batch[..k])
            == LinesOf(encode, log) + SegmentLog.BatchLines(EventsOf(encode, batch))[..k]
    ensures SegmentLog.BatchLines(EventsOf(encode, batch))[..|batch|] == SegmentLog.BatchLines(EventsOf(encode, batch))
  {
    var whole := log + batch[..k];
    var lines := LinesOf(encode, log) + SegmentLog.BatchLines(EventsOf(encode, batch))[..k];
    assert forall i :: 0 <= i < |whole| ==> LinesOf(encode, whole)[i] == lines[i];
  }

  // Retention on a log the writer produced.

  /** What retention reads off the bytes of a segment, as `SegmentScan.ValidateComplete` answers it. */
  function CompleteOf(decode: Decoder, b: Bytes): Option<(nat, nat)> {
    var scan := ScanOf(decode, b);
    if 0 < |b| <= MAX_SEGMENT_BYTES && scan.status.Complete? && scan.first.Some? && scan.last.Some? then
      Some((scan.first.value, scan.last.value.sequence))
    else None
  }

  ghost predicate Lists(decode: Decoder, segments: seq<SegmentLog.Segment>, files: seq<Retention.File>) {
    && |files| == |segments|
    && forall k :: 0 <= k < |files| ==>
         files[k].index == Some(segments[k].index) && files[k].complete == CompleteOf(decode, segments[k].bytes)
  }

  ghost predicate PositiveSequences(decode: Decoder) {
    forall line :: decode(line).Some? ==> decode(line).value.sequence > 0
  }

  /** A closed segment of a sound log is complete, with the sequences of its first and last line. */
  lemma ClosedIsComplete(decode: Decoder, limit: nat, segments: seq<SegmentLog.Segment>, k: nat)
    requires BoundedDecoder(decode) && PositiveSequences(decode) && SegmentLog.Sound(decode, limit, segments)
    requires limit <= MAX_SEGMENT_BYTES && k < |segments| - 1
    ensures var complete := CompleteOf(decode, segments[k].bytes);
            complete.Some? && complete.value.0 > 0
            && complete.value.1 == ScanOf(decode, segments[k].bytes).last.value.sequence
  {
    hide Lines, Tail, ScanOf, SegmentLog.DiskLines, SegmentLog.Sound, BoundedDecoder;
    var b := segments[k].bytes;
    SegmentLog.SoundFacts(decode, limit, segments);
    SegmentLog.OrderedSegment(decode, segments, k);
    SegmentLog.ScanOfOrdered(decode, b);
    assert b != [] by { SegmentLog.NoLines(); }
  }

  /** What the check of all segments has found after the first `p`, none of them the active one. */
  lemma {:induction false} CheckedSoFar(decode: Decoder, limit: nat, segments: seq<SegmentLog.Segment>,
                                        files: seq<Retention.File>, p: nat)
    requires BoundedDecoder(decode) && PositiveSequences(decode) && SegmentLog.Sound(decode, limit, segments)
    requires limit <= MAX_SEGMENT_BYTES && Lists(decode, segments, files) && p < |segments|
    ensures p > 0 ==> CompleteOf(decode, segments[p - 1].bytes).Some?
    ensures Retention.Checked(files[..p], Some(segments[|segments| - 1].index))
            == Some(if p == 0 then 0 else CompleteOf(decode, segments[p - 1].bytes).value.1)
    decreases p
  {
    hide ScanOf, BoundedDecoder;
    if p > 0 {
      CheckedSoFar(decode, limit, segments, files, p - 1);
      assert files[..p][..p - 1] == files[..p - 1];
      ClosedIsComplete(decode, limit, segments, p - 1);
      if p > 1 {
        SegmentLog.SoundIsRecoverable(decode, limit, segments);
        assert SegmentLog.Follows(ScanOf(decode, segments[p - 2].bytes), ScanOf(decode, segments[p - 1].bytes));
      }
    }
  }

  /** Retention accepts every log that the writer produced and takes its last segment for the active one. */
  lemma SoundIsChecked(decode: Decoder, limit: nat, segments: seq<SegmentLog.Segment>, files: seq<Retention.File>)
    requires BoundedDecoder(decode) && PositiveSequences(decode) && SegmentLog.Sound(decode, limit, segments)
    requires limit <= MAX_SEGMENT_BYTES && Lists(decode, segments, files) && segments != []
    ensures Retention.Checked(files, Some(segments[|segments| - 1].index)).Some?
    ensures Retention.Highest(files) == segments[|segments| - 1].index
  {
    var n := |segments| - 1;
    CheckedSoFar(decode, limit, segments, files, n);
    HighestIsLast(decode, segments, files, n + 1);
    assert files[..n + 1] == files;
  }

  lemma {:induction false} HighestIsLast(decode: Decoder, segments: seq<SegmentLog.Segment>, files: seq<Retention.File>,
                                         p: nat)
    requires Lists(decode, segments, files) && 0 < p <= |segments|
    requires forall j, k :: 0 <= j < k < |segments| ==> segments[j].index < segments[k].index
    ensures Retention.Highest(files[..p]) == segments[p - 1].index
    decreases p
  {
    assert files[..p][..p - 1] == files[..p - 1];
    if p > 1 {
      HighestIsLast(decode, segments, files, p - 1);
    }
  }

  /** What retention removes from such a log is a closed segment, and the log stays sound without it. */
  lemma RemovalIsSound(decode: Decoder, limit: nat, segments: seq<SegmentLog.Segment>, files: seq<Retention.File>,
                       k: nat, policy: Retention.Policy)
    requires SegmentLog.Sound(decode, limit, segments) && Lists(decode, segments, files) && k < |files|
    requires Retention.Removable(files[k], segments[|segments| - 1].index, policy)
    ensures k < |segments| - 1
    ensures Lists(decode, segments[..k] + segments[k + 1..], files[..k] + files[k + 1..])
    ensures SegmentLog.Sound(decode, limit, segments[..k] + segments[k + 1..])
  {
    hide CompleteOf, SegmentLog.DiskLines, SegmentLog.Ordered;
    SegmentLog.RetireIsSound(decode, limit, segments, k);
    var left, kept := segments[..k] + segments[k + 1..], files[..k] + files[k + 1..];
    assert forall i :: 0 <= i < |left| ==>
        left[i] == segments[if i < k then i else i + 1] && kept[i] == files[if i < k then i else i + 1];
  }
}
