/**
 The resumable line reader of session files: `JsonlCursor` and `JsonlReader` of `wokcore-sessions/src/cursor.rs`.
 A file is its bytes; a read returns any non-empty piece of what was asked, or fails when the environment is not
 calm. Classifying a line (UTF-8, JSON) is a parameter, and the keyed hash of the raw bytes is the bytes it absorbed.
 */
module JsonlReader {
  import opened Prelude
  import opened TextLines

  const MAX_JSONL_LINE_BYTES: nat := 16_777_216
  const MAX_JSONL_RECORDS_PER_SCAN: nat := 512
  const MAX_JSONL_BATCH_INPUT_BYTES: nat := 16_777_216
  const READ_CHUNK_BYTES: nat := 65_536

  datatype Status = Valid | InvalidUtf8 | InvalidJson

  datatype Record = Record(ordinal: nat, byteEnd: nat, status: Status, content: Bytes)

  datatype JsonlError = RecordTooLarge | ReadFailed | CursorOverflow

  datatype Scan = Scan(completeOffset: nat, nextOrdinal: nat, records: seq<Record>, reachedEnd: bool)

  function Clamp(value: nat, low: nat, high: nat): nat {
    if value < low then low else if value > high then high else value
  }

  /** The part of the file after an offset, which may lie beyond its end. */
  function From(b: Bytes, at: nat): Bytes {
    if at <= |b| then b[at..] else []
  }

  /** The records of consecutive lines: ordinals count up and each ends where the lines so far end. */
  function RecordsOf(classify: Bytes -> Status, lines: seq<Bytes>, ordinal: nat, start: nat): (records: seq<Record>)
    ensures |records| == |lines|
  {
    if lines == [] then []
    else
      var n := |lines| - 1;
      RecordsOf(classify, lines[..n], ordinal, start)
      + [Record(ordinal + n, start + |Join(lines)|, classify(lines[n]), lines[n])]
  }

  /**
   Where a batch ends: after `k` lines, all of which fit, and of which all but the first end within the byte limit.
   The batch is full, the file has no further line, or the next line (or the unfinished one) is too large.
   */
  ghost predicate Stops(lines: seq<Bytes>, tail: Bytes, maxRecords: nat, maxBytes: nat, k: nat, tooLarge: bool) {
    && k <= |lines| && k <= maxRecords
    && (forall i :: 0 <= i < k ==> |lines[i]| + 1 <= MAX_JSONL_LINE_BYTES)
    && (forall i :: 1 < i <= k ==> |Join(lines[..i])| <= maxBytes)
    && if tooLarge then
         && k < maxRecords
         && (if k < |lines| then |lines[k]| + 1 > MAX_JSONL_LINE_BYTES else |tail| > MAX_JSONL_LINE_BYTES)
       else
         || k == maxRecords
         || (k == |lines| && |tail| <= MAX_JSONL_LINE_BYTES)
         || (0 < k < |lines| && |lines[k]| + 1 <= MAX_JSONL_LINE_BYTES && |Join(lines[..k + 1])| > maxBytes)
  }

  /** A batch ends in one place only, so it does not depend on how the file is read. */
  lemma StopsOnce(lines: seq<Bytes>, tail: Bytes, maxRecords: nat, maxBytes: nat, k: nat, x: bool, m: nat, y: bool)
    requires Stops(lines, tail, maxRecords, maxBytes, k, x) && Stops(lines, tail, maxRecords, maxBytes, m, y)
    ensures k == m && x == y
  {
  }

  /** Within a batch: `k` lines taken, and the buffer holds the file from the first byte not taken to the last read. */
  ghost predicate Scanning(b: Bytes, start: nat, buffer: Bytes, lineStart: nat, readOffset: nat, lines: seq<Bytes>,
                           tail: Bytes, k: nat) {
    && Holds(b, start, buffer, readOffset) && lineStart <= |buffer|
    && k <= |lines| && lineStart == |Join(lines[..k])|
    && Lines(From(b, start + lineStart)) == lines[k..] && Tail(From(b, start + lineStart)) == tail
  }

  /** The buffer is the part of the file from `start` to `readOffset`. */
  ghost predicate Holds(b: Bytes, start: nat, buffer: Bytes, readOffset: nat) {
    && readOffset == start + |buffer| && (readOffset <= |b| || buffer == [])
    && forall i :: 0 <= i < |buffer| ==> buffer[i] == b[start + i]
  }

  lemma BufferedNewline(b: Bytes, start: nat, buffer: Bytes, readOffset: nat, lineStart: nat)
    requires Holds(b, start, buffer, readOffset) && lineStart <= |buffer| && start + lineStart <= |b|
    ensures var newline := NextNewline(buffer, lineStart);
            && (newline < |buffer| ==>
                  NextNewline(b, start + lineStart) == start + newline
                  && b[start + lineStart..start + newline] == buffer[lineStart..newline])
            && (newline == |buffer| ==> NextNewline(b, start + lineStart) >= readOffset)
  {
    var newline := NextNewline(buffer, lineStart);
    var end := NextNewline(b, start + lineStart);
    if newline < |buffer| {
      forall i | start + lineStart <= i < start + newline
        ensures b[i] != NEWLINE
      {
        assert buffer[i - start] == b[i];
      }
      assert b[start + newline] == buffer[newline];
      NewlineIsNext(b, start + lineStart, start + newline);
      assert forall i :: lineStart <= i < newline ==> buffer[i] == b[start + i];
    } else {
      assert forall i :: start + lineStart <= i < readOffset ==> b[i] == buffer[i - start];
    }
  }

  /** Taking the line that ends at the next newline of the buffer. */
  lemma TakeLine(b: Bytes, start: nat, buffer: Bytes, lineStart: nat, readOffset: nat, lines: seq<Bytes>, tail: Bytes,
                 k: nat)
    requires Scanning(b, start, buffer, lineStart, readOffset, lines, tail, k)
    requires NextNewline(buffer, lineStart) < |buffer|
    ensures var newline := NextNewline(buffer, lineStart);
            && k < |lines| && lines[k] == buffer[lineStart..newline]
            && Scanning(b, start, buffer, newline + 1, readOffset, lines, tail, k + 1)
  {
    hide Lines, Tail, NextNewline, Join, Holds, From;
    var newline, at := NextNewline(buffer, lineStart), start + lineStart;
    HeldWithin(b, start, buffer, readOffset);
    FromWithin(b, at);
    FromWithin(b, start + newline + 1);
    BufferedNewline(b, start, buffer, readOffset, lineStart);
    SuffixLines(b, at);
    FirstOfRest(lines, k, buffer[lineStart..newline], Lines(b[start + newline + 1..]));
    JoinMore(lines, k);
  }

  lemma FromWithin(b: Bytes, at: nat)
    requires at <= |b|
    ensures From(b, at) == b[at..]
  {
  }

  lemma HeldWithin(b: Bytes, start: nat, buffer: Bytes, readOffset: nat)
    requires Holds(b, start, buffer, readOffset) && buffer != []
    ensures start + |buffer| <= |b|
  {
  }

  lemma FirstOfRest(lines: seq<Bytes>, k: nat, line: Bytes, rest: seq<Bytes>)
    requires k <= |lines| && lines[k..] == [line] + rest
    ensures k < |lines| && lines[k] == line && lines[k + 1..] == rest
  {
    assert lines[k] == lines[k..][0];
    assert lines[k + 1..] == lines[k..][1..];
  }

  lemma JoinMore(lines: seq<Bytes>, k: nat)
    requires k < |lines|
    ensures Join(lines[..k + 1]) == Join(lines[..k]) + (lines[k] + [NEWLINE])
  {
    hide Join;
    assert lines[..k + 1] == lines[..k] + [lines[k]];
    JoinAppend(lines[..k], [lines[k]]);
    JoinOne(lines[k]);
  }

  lemma JoinOne(line: Bytes)
    ensures Join([line]) == line + [NEWLINE]
  {
    NothingJoined();
  }

  /** Without a newline in the buffer: what is known of the next line, and of the end of the file. */
  lemma NoLine(b: Bytes, start: nat, buffer: Bytes, lineStart: nat, readOffset: nat, lines: seq<Bytes>, tail: Bytes,
               k: nat)
    requires Scanning(b, start, buffer, lineStart, readOffset, lines, tail, k)
    requires NextNewline(buffer, lineStart) == |buffer|
    ensures if k < |lines| then |lines[k]| >= |buffer| - lineStart else |tail| >= |buffer| - lineStart
    ensures readOffset >= |b| ==> k == |lines| && |tail| == |buffer| - lineStart
  {
    hide Lines, Tail, NextNewline, Join;
    var at := start + lineStart;
    if at <= |b| {
      BufferedNewline(b, start, buffer, readOffset, lineStart);
      SuffixLines(b, at);
    } else {
      OnlyTail([]);
    }
  }

  lemma ReadMore(b: Bytes, start: nat, buffer: Bytes, lineStart: nat, readOffset: nat, lines: seq<Bytes>, tail: Bytes,
                 k: nat, chunk: Bytes)
    requires Scanning(b, start, buffer, lineStart, readOffset, lines, tail, k)
    requires readOffset + |chunk| <= |b| && chunk == b[readOffset..readOffset + |chunk|]
    ensures Scanning(b, start, buffer + chunk, lineStart, readOffset + |chunk|, lines, tail, k)
  {
    hide Lines, Tail, Join;
  }

  lemma RecordsSnoc(classify: Bytes -> Status, lines: seq<Bytes>, k: nat, ordinal: nat, start: nat)
    requires k < |lines|
    ensures RecordsOf(classify, lines[..k + 1], ordinal, start)
            == RecordsOf(classify, lines[..k], ordinal, start)
               + [Record(ordinal + k, start + |Join(lines[..k + 1])|, classify(lines[k]), lines[k])]
  {
    assert lines[..k + 1][..k] == lines[..k];
  }

  datatype JsonlCursor = JsonlCursor(completeOffset: nat, nextOrdinal: nat)

  /** A cursor as saved; ordinals start at one. */
  function NewCursor(completeOffset: nat, nextOrdinal: nat): JsonlCursor {
    JsonlCursor(completeOffset, if nextOrdinal < 1 then 1 else nextOrdinal)
  }

  /** What a fingerprint that is kept has absorbed after more bytes. */
  function Absorbed(fingerprint: Option<Bytes>, bytes: Bytes): Option<Bytes> {
    if fingerprint.Some? then Some(fingerprint.value + bytes) else None
  }

  /** Any piece of what was asked for; empty, or a failure, only when the environment is not calm. */
  method ReadRange(b: Bytes, offset: nat, maximum: nat, calm: bool) returns (r: Result<Bytes, JsonlError>)
    requires offset < |b| && maximum > 0
    ensures r.Ok? ==> |r.value| <= maximum && offset + |r.value| <= |b| && r.value == b[offset..offset + |r.value|]
    ensures r.Err? ==> r == Err(ReadFailed)
    ensures calm ==> r.Ok? && r.value != []
  {
    var failed := Disturbed(calm);
    if failed {
      if * {
        return Err(ReadFailed);
      }
      return Ok([]);
    }
    var length: nat :| 0 < length <= maximum && offset + length <= |b|;
    return Ok(b[offset..offset + length]);
  }

  /** The first `k` lines may be taken into one batch. */
  ghost predicate Taking(lines: seq<Bytes>, maxBytes: nat, k: nat) {
    && k <= |lines| && (forall i :: 0 <= i < k ==> |lines[i]| + 1 <= MAX_JSONL_LINE_BYTES)
    && (forall i :: 1 < i <= k ==> |Join(lines[..i])| <= maxBytes)
  }

  lemma ScanStarts(b: Bytes, start: nat, buffer: Bytes, readOffset: nat, classify: Bytes -> Status, ordinal: nat,
                   maxBytes: nat)
    requires Holds(b, start, buffer, readOffset)
    ensures var lines, tail := Lines(From(b, start)), Tail(From(b, start));
            && Scanning(b, start, buffer, 0, readOffset, lines, tail, 0) && Taking(lines, maxBytes, 0)
            && lines[..0] == [] && RecordsOf(classify, [], ordinal, start) == [] && Join([]) == []
  {
  }

  lemma AbsorbNothing(fingerprint: Option<Bytes>)
    ensures Absorbed(fingerprint, []) == fingerprint
  {
    if fingerprint.Some? {
      assert fingerprint.value + [] == fingerprint.value;
    }
  }

  lemma AbsorbedLength(fingerprint: Option<Bytes>, bytes: Bytes)
    ensures Absorbed(fingerprint, bytes).Some? <==> fingerprint.Some?
    ensures fingerprint.Some? ==> |Absorbed(fingerprint, bytes).value| == |fingerprint.value| + |bytes|
  {
  }

  lemma AbsorbLine(fingerprint: Option<Bytes>, lines: seq<Bytes>, k: nat)
    requires k < |lines|
    ensures Absorbed(Absorbed(fingerprint, Join(lines[..k])), lines[k] + [NEWLINE])
            == Absorbed(fingerprint, Join(lines[..k + 1]))
  {
    hide Join;
    JoinMore(lines, k);
    if fingerprint.Some? {
      Regroup(fingerprint.value, Join(lines[..k]), lines[k] + [NEWLINE]);
    }
  }

  lemma TakingMore(lines: seq<Bytes>, maxBytes: nat, k: nat)
    requires Taking(lines, maxBytes, k) && k < |lines| && |lines[k]| + 1 <= MAX_JSONL_LINE_BYTES
    requires k == 0 || |Join(lines[..k + 1])| <= maxBytes
    ensures Taking(lines, maxBytes, k + 1)
  {
    hide Join;
  }

  lemma StopsHere(lines: seq<Bytes>, tail: Bytes, maxRecords: nat, maxBytes: nat, k: nat, tooLarge: bool)
    requires Taking(lines, maxBytes, k) && k <= maxRecords
    requires
      if tooLarge then
        && k < maxRecords
        && (if k < |lines| then |lines[k]| + 1 > MAX_JSONL_LINE_BYTES else |tail| > MAX_JSONL_LINE_BYTES)
      else
        || k == maxRecords
        || (k == |lines| && |tail| <= MAX_JSONL_LINE_BYTES)
        || (0 < k < |lines| && |lines[k]| + 1 <= MAX_JSONL_LINE_BYTES && |Join(lines[..k + 1])| > maxBytes)
    ensures Stops(lines, tail, maxRecords, maxBytes, k, tooLarge)
  {
  }

  /** Positions of the taken lines, read off the scan. */
  lemma ScanFacts(b: Bytes, start: nat, buffer: Bytes, lineStart: nat, readOffset: nat, lines: seq<Bytes>, tail: Bytes,
                  k: nat)
    requires Scanning(b, start, buffer, lineStart, readOffset, lines, tail, k)
    ensures lineStart == |Join(lines[..k])| <= |buffer| && k <= |lines| && (buffer == [] || start + |buffer| <= |b|)
    ensures Holds(b, start, buffer, readOffset) && Holds(b, start + lineStart, buffer[lineStart..], readOffset)
    ensures Lines(From(b, start + lineStart)) == lines[k..] && Tail(From(b, start + lineStart)) == tail
  {
    hide Lines, Tail, Join;
  }

  /** With the file read to its end and no newline left in the buffer, no line is left. */
  lemma NothingLeft(b: Bytes, at: nat, buffer: Bytes, readOffset: nat)
    requires Holds(b, at, buffer, readOffset) && readOffset >= |b| && NEWLINE !in buffer
    ensures Lines(From(b, at)) == []
  {
    assert From(b, at) == if at <= |b| then buffer else [];
    OnlyTail(From(b, at));
  }

  /** Within a batch: the scan stands after `k` lines, which are the records collected and absorbed so far. */
  ghost predicate Collecting(classify: Bytes -> Status, b: Bytes, start: nat, ordinal: nat, maxBytes: nat,
                             absorbed: Option<Bytes>, buffer: Bytes, lineStart: nat, readOffset: nat,
                             records: seq<Record>, fingerprint: Option<Bytes>, k: nat)
  {
    var lines, tail := Lines(From(b, start)), Tail(From(b, start));
    && k <= |lines| && Scanning(b, start, buffer, lineStart, readOffset, lines, tail, k) && Taking(lines, maxBytes, k)
    && records == RecordsOf(classify, lines[..k], ordinal, start) && fingerprint == Absorbed(absorbed, Join(lines[..k]))
  }

  lemma CollectNothing(classify: Bytes -> Status, b: Bytes, start: nat, ordinal: nat, maxBytes: nat,
                       absorbed: Option<Bytes>, buffer: Bytes, readOffset: nat)
    requires Holds(b, start, buffer, readOffset)
    ensures Collecting(classify, b, start, ordinal, maxBytes, absorbed, buffer, 0, readOffset, [], absorbed, 0)
  {
    hide Lines, Tail, Join, Scanning, Taking, RecordsOf, Absorbed;
    ScanStarts(b, start, buffer, readOffset, classify, ordinal, maxBytes);
    AbsorbNothing(absorbed);
  }

  /** The next complete line in the buffer: either it does not belong to the batch, or it is collected. */
  lemma CollectLine(classify: Bytes -> Status, b: Bytes, start: nat, ordinal: nat, maxBytes: nat,
                    absorbed: Option<Bytes>, buffer: Bytes, lineStart: nat, readOffset: nat, records: seq<Record>,
                    fingerprint: Option<Bytes>, k: nat)
    requires Collecting(classify, b, start, ordinal, maxBytes, absorbed, buffer, lineStart, readOffset, records,
                        fingerprint, k)
    requires lineStart <= |buffer| && NextNewline(buffer, lineStart) < |buffer|
    ensures var newline := NextNewline(buffer, lineStart);
            var lines := Lines(From(b, start));
            var content := buffer[lineStart..newline];
            && k < |lines| && lines[k] == content && newline + 1 == |Join(lines[..k + 1])|
            && start + newline + 1 <= |b|
            && (fingerprint.Some? ==>
                  absorbed.Some? && |fingerprint.value| + |content| + 1 <= |absorbed.value| + |From(b, start)|)
            && (|content| + 1 <= MAX_JSONL_LINE_BYTES && (k == 0 || newline + 1 <= maxBytes) ==>
                  Collecting(classify, b, start, ordinal, maxBytes, absorbed, buffer, newline + 1, readOffset,
                             records + [Record(ordinal + k, start + newline + 1, classify(content), content)],
                             Absorbed(fingerprint, buffer[lineStart..newline + 1]), k + 1))
  {
    hide Lines, Tail, Join, Scanning, Taking, RecordsOf, Absorbed, From, NextNewline;
    var lines, tail := Lines(From(b, start)), Tail(From(b, start));
    var newline := NextNewline(buffer, lineStart);
    TakeLine(b, start, buffer, lineStart, readOffset, lines, tail, k);
    ScanFacts(b, start, buffer, newline + 1, readOffset, lines, tail, k + 1);
    FromWithin(b, start);
    AbsorbLine(absorbed, lines, k);
    AbsorbedLength(absorbed, Join(lines[..k]));
    assert buffer[lineStart..newline + 1] == lines[k] + [NEWLINE];
    ScanFacts(b, start, buffer, lineStart, readOffset, lines, tail, k);
    if |lines[k]| + 1 <= MAX_JSONL_LINE_BYTES && (k == 0 || newline + 1 <= maxBytes) {
      TakingMore(lines, maxBytes, k);
      RecordsSnoc(classify, lines, k, ordinal, start);
    }
  }

  /** What the collected state says when a batch ends there. */
  lemma Collected(classify: Bytes -> Status, b: Bytes, start: nat, ordinal: nat, maxBytes: nat, absorbed: Option<Bytes>,
                  buffer: Bytes, lineStart: nat, readOffset: nat, records: seq<Record>, fingerprint: Option<Bytes>,
                  k: nat)
    requires Collecting(classify, b, start, ordinal, maxBytes, absorbed, buffer, lineStart, readOffset, records,
                        fingerprint, k)
    ensures var lines := Lines(From(b, start));
            && k <= |lines| && |records| == k && lineStart == |Join(lines[..k])| <= |buffer|
            && records == RecordsOf(classify, lines[..k], ordinal, start)
            && fingerprint == Absorbed(absorbed, Join(lines[..k]))
            && Taking(lines, maxBytes, k)
            && Holds(b, start, buffer, readOffset) && Holds(b, start + lineStart, buffer[lineStart..], readOffset)
            && Lines(From(b, start + lineStart)) == lines[k..]
            && Tail(From(b, start + lineStart)) == Tail(From(b, start))
  {
    hide Lines, Tail, Join, Scanning, Taking, Absorbed, From;
    ScanFacts(b, start, buffer, lineStart, readOffset, Lines(From(b, start)), Tail(From(b, start)), k);
  }

  lemma CollectMore(classify: Bytes -> Status, b: Bytes, start: nat, ordinal: nat, maxBytes: nat,
                    absorbed: Option<Bytes>, buffer: Bytes, lineStart: nat, readOffset: nat, records: seq<Record>,
                    fingerprint: Option<Bytes>, k: nat, chunk: Bytes)
    requires Collecting(classify, b, start, ordinal, maxBytes, absorbed, buffer, lineStart, readOffset, records,
                        fingerprint, k)
    requires readOffset + |chunk| <= |b| && chunk == b[readOffset..readOffset + |chunk|]
    ensures Collecting(classify, b, start, ordinal, maxBytes, absorbed, buffer + chunk, lineStart,
                       readOffset + |chunk|, records,
                       fingerprint, k)
  {
    hide Lines, Tail, Join, Scanning, Taking, Absorbed, From, RecordsOf;
    ReadMore(b, start, buffer, lineStart, readOffset, Lines(From(b, start)), Tail(From(b, start)), k, chunk);
  }

  /** Without a newline in the buffer the batch may have to end: the rest is too large, or the file is read. */
  lemma CollectNoLine(classify: Bytes -> Status, b: Bytes, start: nat, ordinal: nat, maxBytes: nat,
                      absorbed: Option<Bytes>, buffer: Bytes, lineStart: nat, readOffset: nat, records: seq<Record>,
                      fingerprint: Option<Bytes>, k: nat, maxRecords: nat)
    requires Collecting(classify, b, start, ordinal, maxBytes, absorbed, buffer, lineStart, readOffset, records,
                        fingerprint, k)
    requires k < maxRecords && lineStart <= |buffer| && NextNewline(buffer, lineStart) == |buffer|
    ensures var lines, tail := Lines(From(b, start)), Tail(From(b, start));
            var large := |buffer| - lineStart > MAX_JSONL_LINE_BYTES;
            large || readOffset >= |b| ==> Stops(lines, tail, maxRecords, maxBytes, k, large)
  {
    hide Lines, Tail, Join, Scanning, Taking, Absorbed, From, RecordsOf, Stops, NextNewline;
    var lines, tail := Lines(From(b, start)), Tail(From(b, start));
    NoLine(b, start, buffer, lineStart, readOffset, lines, tail, k);
    if |buffer| - lineStart > MAX_JSONL_LINE_BYTES {
      StopsHere(lines, tail, maxRecords, maxBytes, k, true);
    } else if readOffset >= |b| {
      StopsHere(lines, tail, maxRecords, maxBytes, k, false);
    }
  }

  class JsonlReader {
    const classify: Bytes -> Status
    var completeOffset: nat
    var nextOrdinal: nat
    var bufferStart: nat
    var readOffset: nat
    var buffer: Bytes
    var fingerprint: Option<Bytes>

    /** Between scans the buffer holds the file from the cursor on. */
    ghost predicate Rests(b: Bytes)
      reads this
    {
      bufferStart == completeOffset && nextOrdinal <= U64_MAX && Holds(b, bufferStart, buffer, readOffset)
    }

    constructor (classify: Bytes -> Status, cursor: JsonlCursor, fingerprinted: bool)
      requires cursor.nextOrdinal <= U64_MAX
      ensures this.classify == classify && completeOffset == cursor.completeOffset && nextOrdinal == cursor.nextOrdinal
      ensures fingerprint == if fingerprinted then Some([]) else None
      ensures forall b: Bytes :: Rests(b)
    {
      this.classify := classify;
      completeOffset, nextOrdinal := cursor.completeOffset, cursor.nextOrdinal;
      bufferStart, readOffset, buffer := cursor.completeOffset, cursor.completeOffset, [];
      fingerprint := if fingerprinted then Some([]) else None;
    }

    /** Feed a committed line to the fingerprint, whose length must stay a 64-bit number. */
    method Absorb(bytes: Bytes) returns (ok: bool)
      modifies this`fingerprint
      ensures ok <==> old(fingerprint).None? || |old(fingerprint).value| + |bytes| <= U64_MAX
      ensures fingerprint == if ok then Absorbed(old(fingerprint), bytes) else old(fingerprint)
    {
      if fingerprint.Some? {
        if |fingerprint.value| + |bytes| > U64_MAX {
          return false;
        }
        fingerprint := Some(fingerprint.value + bytes);
      }
      ok := true;
    }

    /** The bytes under the final hash, if they are as many as the promoted extent. */
    method FinishRawFingerprint(promotedExtent: nat) returns (absorbed: Option<Bytes>)
      modifies this`fingerprint
      ensures fingerprint == None
      ensures absorbed.Some? <==> old(fingerprint).Some? && |old(fingerprint).value| == promotedExtent
      ensures absorbed.Some? ==> absorbed == old(fingerprint)
    {
      absorbed := fingerprint;
      fingerprint := None;
      if absorbed.Some? && |absorbed.value| != promotedExtent {
        absorbed := None;
      }
    }

    /** The collecting half of a batch; the cursor does not move yet. */
    method Collect(b: Bytes, count: nat, input: nat, calm: bool)
      returns (r: Result<(seq<Record>, nat, bool), JsonlError>, ghost k: nat)
      requires Rests(b) && count > 0
      modifies this`buffer, this`readOffset, this`fingerprint
      ensures Holds(b, completeOffset, buffer, readOffset) && k <= |Lines(From(b, completeOffset))|
      ensures r.Ok? ==>
        && Collecting(classify, b, completeOffset, nextOrdinal, input, old(fingerprint), buffer, r.value.1, readOffset,
                      r.value.0, fingerprint, k)
        && nextOrdinal + k <= U64_MAX
        && (calm ==> k > 0 || (!r.value.2 && readOffset >= |b|
                               && r.value.1 <= |buffer| && NextNewline(buffer, r.value.1) == |buffer|))
      ensures calm || r == Err(RecordTooLarge) ==>
        r == Err(CursorOverflow)
        || Stops(Lines(From(b, completeOffset)), Tail(From(b, completeOffset)), count, input, k, r.Err?)
      ensures calm ==> r != Err(ReadFailed)
      ensures r == Err(CursorOverflow) ==>
        || nextOrdinal + |Lines(From(b, completeOffset))| > U64_MAX
        || (old(fingerprint).Some? && |old(fingerprint).value| + |From(b, completeOffset)| > U64_MAX)
      ensures fingerprint == Absorbed(old(fingerprint), Join(Lines(From(b, completeOffset))[..k]))
    {
      hide Lines, Tail, Join, NextNewline, Collecting, Holds, RecordsOf, Absorbed, From, Taking, Stops;
      ghost var lines, tail := Lines(From(b, completeOffset)), Tail(From(b, completeOffset));
      ghost var start, ordinal, absorbed := completeOffset, nextOrdinal, fingerprint;
      var records: seq<Record>, next, lineStart: nat, full := [], nextOrdinal, 0, false;
      CollectNothing(classify, b, start, ordinal, input, absorbed, buffer, readOffset);
      k := 0;
      while |records| < count
        invariant Collecting(classify, b, start, ordinal, input, absorbed, buffer, lineStart, readOffset, records,
                             fingerprint, k)
        invariant !full && next == ordinal + k && |records| == k <= count && next <= U64_MAX
        decreases count - k, |b| - readOffset
      {
        Collected(classify, b, start, ordinal, input, absorbed, buffer, lineStart, readOffset, records, fingerprint, k);
        var newline := NextNewline(buffer, lineStart);
        if newline < |buffer| {
          CollectLine(classify, b, start, ordinal, input, absorbed, buffer, lineStart, readOffset, records, fingerprint,
                      k);
          var lineBytes := newline - lineStart + 1;
          if lineBytes > MAX_JSONL_LINE_BYTES {
            StopsHere(lines, tail, count, input, k, true);
            return Err(RecordTooLarge), k;
          }
          var byteEnd := bufferStart + newline + 1;
          if records != [] && byteEnd - completeOffset > input {
            StopsHere(lines, tail, count, input, k, false);
            full := true;
            break;
          }
          var content := buffer[lineStart..newline];
          var ok := Absorb(buffer[lineStart..newline + 1]);
          if !ok {
            return Err(CursorOverflow), k;
          }
          records := records + [Record(next, byteEnd, classify(content), content)];
          if next == U64_MAX {
            Collected(classify, b, start, ordinal, input, absorbed, buffer, newline + 1, readOffset, records,
                      fingerprint, k + 1);
            return Err(CursorOverflow), k + 1;
          }
          next, lineStart, k := next + 1, newline + 1, k + 1;
        } else {
          CollectNoLine(classify, b, start, ordinal, input, absorbed, buffer, lineStart, readOffset, records,
                        fingerprint, k, count);
          var incomplete := |buffer| - lineStart;
          if incomplete > MAX_JSONL_LINE_BYTES {
            return Err(RecordTooLarge), k;
          }
          if readOffset >= |b| {
            break;
          }
          var capacity := MAX_JSONL_LINE_BYTES + 1 - incomplete;
          var chunk := ReadRange(b, readOffset, if capacity < READ_CHUNK_BYTES then capacity else READ_CHUNK_BYTES,
                                 calm);
          if chunk.Err? {
            return Err(chunk.error), k;
          }
          if chunk.value == [] {
            break;
          }
          CollectMore(classify, b, start, ordinal, input, absorbed, buffer, lineStart, readOffset, records, fingerprint,
                      k, chunk.value);
          readOffset := readOffset + |chunk.value|;
          buffer := buffer + chunk.value;
        }
      }
      Collected(classify, b, start, ordinal, input, absorbed, buffer, lineStart, readOffset, records, fingerprint, k);
      if k == count {
        StopsHere(lines, tail, count, input, k, false);
      }
      r := Ok((records, lineStart, full));
    }

    /**
     One batch: the lines from the cursor up to where a batch stops, whatever pieces the file is read in. Success moves
     the cursor past exactly those lines, and a refusal leaves it; the fingerprint has absorbed `k` lines either way.
     */
    method ScanBounded(b: Bytes, maxRecords: nat, maxBytes: nat, calm: bool)
      returns (r: Result<Scan, JsonlError>, ghost k: nat)
      requires Rests(b)
      modifies this
      ensures Rests(b) && k <= |Lines(From(b, old(completeOffset)))|
      ensures r.Ok? ==>
        var lines := Lines(From(b, old(completeOffset)));
        && r.value.records == RecordsOf(classify, lines[..k], old(nextOrdinal), old(completeOffset))
        && completeOffset == r.value.completeOffset == old(completeOffset) + |Join(lines[..k])|
        && nextOrdinal == r.value.nextOrdinal == old(nextOrdinal) + k
        && Lines(From(b, completeOffset)) == lines[k..]
        && Tail(From(b, completeOffset)) == Tail(From(b, old(completeOffset)))
        && (r.value.reachedEnd ==> lines[k..] == []) && (calm ==> k > 0 || r.value.reachedEnd)
        && Taking(lines, Clamp(maxBytes, 1, 16_777_216), k)
      ensures r.Err? ==> completeOffset == old(completeOffset) && nextOrdinal == old(nextOrdinal)
      ensures calm || r == Err(RecordTooLarge) ==>
        var lines, tail := Lines(From(b, old(completeOffset))), Tail(From(b, old(completeOffset)));
        r == Err(CursorOverflow)
        || Stops(lines, tail, Clamp(maxRecords, 1, 512), Clamp(maxBytes, 1, 16_777_216), k, r.Err?)
      ensures calm ==> r != Err(ReadFailed)
      ensures r == Err(CursorOverflow) ==>
        || old(nextOrdinal) + |Lines(From(b, old(completeOffset)))| > U64_MAX
        || (old(fingerprint).Some? && |old(fingerprint).value| + |From(b, old(completeOffset))| > U64_MAX)
      ensures fingerprint == Absorbed(old(fingerprint), Join(Lines(From(b, old(completeOffset)))[..k]))
    {
      hide Lines, Tail, Join, NextNewline, Collecting, Holds, RecordsOf, Absorbed, From, Taking, Stops;
      var count := Clamp(maxRecords, 1, MAX_JSONL_RECORDS_PER_SCAN);
      var input := Clamp(maxBytes, 1, MAX_JSONL_BATCH_INPUT_BYTES);
      ghost var start, ordinal, absorbed := completeOffset, nextOrdinal, fingerprint;
      var collected, taken := Collect(b, count, input, calm);
      k := taken;
      if collected.Err? {
        return Err(collected.error), k;
      }
      var (records, lineStart, full) := collected.value;
      Collected(classify, b, start, ordinal, input, absorbed, buffer, lineStart, readOffset, records, fingerprint, k);
      var rest := buffer[lineStart..];
      if lineStart != 0 {
        buffer := rest;
        bufferStart := bufferStart + lineStart;
      }
      completeOffset, nextOrdinal := completeOffset + lineStart, nextOrdinal + |records|;
      if readOffset >= |b| && NEWLINE !in rest {
        NothingLeft(b, completeOffset, rest, readOffset);
      }
      var reachedEnd := !full && readOffset >= |b| && NEWLINE !in buffer;
      r := Ok(Scan(completeOffset, nextOrdinal, records, reachedEnd));
    }
  }

  /** The records of some lines and of the lines after them, counted on, are the records of all. */
  lemma {:induction false} RecordsContinue(classify: Bytes -> Status, lines: seq<Bytes>, k: nat, ordinal: nat,
                                           start: nat)
    requires k <= |lines|
    ensures RecordsOf(classify, lines[..k], ordinal, start)
            + RecordsOf(classify, lines[k..], ordinal + k, start + |Join(lines[..k])|)
            == RecordsOf(classify, lines, ordinal, start)
  {
    hide RecordsOf, Join;
    if k == |lines| {
      assert lines[..k] == lines && lines[k..] == [];
      NoRecords(classify, ordinal + k, start + |Join(lines[..k])|);
    } else {
      var n := |lines| - 1;
      var rest := lines[k..];
      RecordsContinue(classify, lines[..n], k, ordinal, start);
      assert lines[..n][..k] == lines[..k] && rest[..n - k] == lines[..n][k..];
      LastRecord(classify, lines, ordinal, start);
      LastRecord(classify, rest, ordinal + k, start + |Join(lines[..k])|);
      JoinContinue(lines, k);
      Regroup(RecordsOf(classify, lines[..k], ordinal, start),
              RecordsOf(classify, rest[..n - k], ordinal + k, start + |Join(lines[..k])|),
              [Record(ordinal + n, start + |Join(lines)|, classify(lines[n]), lines[n])]);
    }
  }

  lemma NoRecords(classify: Bytes -> Status, ordinal: nat, start: nat)
    ensures RecordsOf(classify, [], ordinal, start) == []
  {
  }

  lemma LastRecord(classify: Bytes -> Status, lines: seq<Bytes>, ordinal: nat, start: nat)
    requires lines != []
    ensures var n := |lines| - 1;
            RecordsOf(classify, lines, ordinal, start)
            == RecordsOf(classify, lines[..n], ordinal, start)
               + [Record(ordinal + n, start + |Join(lines)|, classify(lines[n]), lines[n])]
  {
  }

  lemma JoinContinue(lines: seq<Bytes>, k: nat)
    requires k <= |lines|
    ensures Join(lines[..k]) + Join(lines[k..]) == Join(lines)
  {
    assert lines == lines[..k] + lines[k..];
    JoinAppend(lines[..k], lines[k..]);
  }

  ghost predicate Readable(lines: seq<Bytes>, tail: Bytes) {
    |tail| <= MAX_JSONL_LINE_BYTES && forall i :: 0 <= i < |lines| ==> |lines[i]| + 1 <= MAX_JSONL_LINE_BYTES
  }

  /** What remains to be read, and what was read and absorbed so far. */
  ghost predicate Continues(classify: Bytes -> Status, b: Bytes, cursor: JsonlCursor, offset: nat, ordinal: nat,
                            records: seq<Record>, absorbed: Option<Bytes>)
  {
    var lines, rest := Lines(From(b, cursor.completeOffset)), Lines(From(b, offset));
    && records + RecordsOf(classify, rest, ordinal, offset)
       == RecordsOf(classify, lines, cursor.nextOrdinal, cursor.completeOffset)
    && (absorbed.Some? ==>
          absorbed.value + Join(rest) == Join(lines) && |absorbed.value| == offset - cursor.completeOffset)
    && (Readable(lines, Tail(From(b, cursor.completeOffset))) ==> Readable(rest, Tail(From(b, offset))))
    && ordinal + |rest| == cursor.nextOrdinal + |lines|
    && (absorbed.Some? ==> |absorbed.value| + |From(b, offset)| <= |b|)
    && FitBefore(lines, rest)
  }

  /** What was read before the rest is within the limit. */
  ghost predicate FitBefore(lines: seq<Bytes>, rest: seq<Bytes>) {
    && |rest| <= |lines| && lines[|lines| - |rest|..] == rest
    && forall i :: 0 <= i < |lines| - |rest| ==> |lines[i]| + 1 <= MAX_JSONL_LINE_BYTES
  }

  lemma FitFurther(lines: seq<Bytes>, rest: seq<Bytes>, k: nat, maxBytes: nat)
    requires FitBefore(lines, rest) && Taking(rest, maxBytes, k)
    ensures FitBefore(lines, rest[k..])
  {
    hide Join;
    var n := |lines| - |rest|;
    forall i | n <= i < n + k
      ensures |lines[i]| + 1 <= MAX_JSONL_LINE_BYTES
    {
      assert lines[i] == rest[i - n];
    }
  }

  lemma ContinuesAfter(classify: Bytes -> Status, b: Bytes, cursor: JsonlCursor, offset: nat, ordinal: nat,
                       records: seq<Record>, absorbed: Option<Bytes>, k: nat, offset': nat, maxBytes: nat)
    requires Continues(classify, b, cursor, offset, ordinal, records, absorbed)
    requires Taking(Lines(From(b, offset)), maxBytes, k)
    requires var rest := Lines(From(b, offset));
             && k <= |rest| && offset' == offset + |Join(rest[..k])|
             && Lines(From(b, offset')) == rest[k..] && Tail(From(b, offset')) == Tail(From(b, offset))
    ensures var rest := Lines(From(b, offset));
            Continues(classify, b, cursor, offset', ordinal + k,
                      records + RecordsOf(classify, rest[..k], ordinal, offset),
                      Absorbed(absorbed, Join(rest[..k])))
  {
    hide Lines, Tail, Join, RecordsOf, From, FitBefore, Taking;
    var rest := Lines(From(b, offset));
    FitFurther(Lines(From(b, cursor.completeOffset)), rest, k, maxBytes);
    FromAfter(b, offset, k);
    RecordsContinue(classify, rest, k, ordinal, offset);
    Regroup(records, RecordsOf(classify, rest[..k], ordinal, offset),
            RecordsOf(classify, rest[k..], ordinal + k, offset'));
    JoinContinue(rest, k);
    if absorbed.Some? {
      Regroup(absorbed.value, Join(rest[..k]), Join(rest[k..]));
    }
  }

  lemma FromAfter(b: Bytes, at: nat, k: nat)
    requires k <= |Lines(From(b, at))|
    ensures var n := |Join(Lines(From(b, at))[..k])|; n + |From(b, at + n)| == |From(b, at)|
  {
    hide Lines, Tail, Join;
    LinesRoundTrip(From(b, at));
    JoinContinue(Lines(From(b, at)), k);
  }

  lemma ContinuesFirst(classify: Bytes -> Status, b: Bytes, cursor: JsonlCursor, absorbed: Option<Bytes>)
    requires absorbed == None || absorbed == Some([])
    ensures Continues(classify, b, cursor, cursor.completeOffset, cursor.nextOrdinal, [], absorbed)
  {
    hide Lines, Tail, Join, RecordsOf;
  }

  lemma ContinuesFacts(classify: Bytes -> Status, b: Bytes, cursor: JsonlCursor, offset: nat, ordinal: nat,
                       records: seq<Record>, absorbed: Option<Bytes>)
    requires Continues(classify, b, cursor, offset, ordinal, records, absorbed)
    ensures var lines, rest := Lines(From(b, cursor.completeOffset)), Lines(From(b, offset));
            && ordinal + |rest| == cursor.nextOrdinal + |lines|
            && (absorbed.Some? ==> |absorbed.value| + |From(b, offset)| <= |b|)
            && (Readable(lines, Tail(From(b, cursor.completeOffset))) ==> Readable(rest, Tail(From(b, offset))))
            && (rest == [] ==> records == RecordsOf(classify, lines, cursor.nextOrdinal, cursor.completeOffset))
            && (rest == [] && absorbed.Some? ==>
                  absorbed.value == Join(lines) && |absorbed.value| == offset - cursor.completeOffset)
            && (rest == [] ==> forall i :: 0 <= i < |lines| ==> |lines[i]| + 1 <= MAX_JSONL_LINE_BYTES)
  {
    hide Lines, Tail, From;
    NothingJoined();
  }

  lemma TooLargeIsUnreadable(lines: seq<Bytes>, tail: Bytes, maxRecords: nat, maxBytes: nat, k: nat)
    requires Stops(lines, tail, maxRecords, maxBytes, k, true)
    ensures !Readable(lines, tail)
  {
  }

  /**
   Reading a file to its end in batches of any limits, with the reader thrown away and rebuilt from its saved cursor
   between any two of them: exactly the complete lines from the first cursor on, in order, with consecutive ordinals
   and cumulative offsets. A fingerprint kept throughout has absorbed exactly the committed bytes.
   */
  method ReadAll(classify: Bytes -> Status, b: Bytes, cursor: JsonlCursor, fingerprinted: bool, calm: bool)
    returns (r: Result<seq<Record>, JsonlError>, absorbed: Option<Bytes>)
    requires |b| <= U64_MAX && 1 <= cursor.nextOrdinal
    requires cursor.nextOrdinal + |Lines(From(b, cursor.completeOffset))| <= U64_MAX
    ensures r.Ok? ==>
      var lines := Lines(From(b, cursor.completeOffset));
      && r.value == RecordsOf(classify, lines, cursor.nextOrdinal, cursor.completeOffset)
      && (fingerprinted && cursor.completeOffset == 0 ==> absorbed == Some(Join(lines)))
      && (forall i :: 0 <= i < |lines| ==> |lines[i]| + 1 <= MAX_JSONL_LINE_BYTES)
    ensures calm && Readable(Lines(From(b, cursor.completeOffset)), Tail(From(b, cursor.completeOffset))) ==> r.Ok?
    ensures r == Err(RecordTooLarge) ==>
              !Readable(Lines(From(b, cursor.completeOffset)), Tail(From(b, cursor.completeOffset)))
  {
    hide Lines, Tail, Join, From, RecordsOf, Readable, Stops, Holds, Continues, Absorbed, Taking;
    var reader := new JsonlReader(classify, cursor, fingerprinted);
    var records: seq<Record> := [];
    absorbed := None;
    ContinuesFirst(classify, b, cursor, reader.fingerprint);
    while true
      invariant fresh(reader) && reader.classify == classify && reader.Rests(b)
      invariant Continues(classify, b, cursor, reader.completeOffset, reader.nextOrdinal, records, reader.fingerprint)
      invariant (reader.fingerprint.Some? <==> fingerprinted) && 1 <= reader.nextOrdinal
      decreases |Lines(From(b, reader.completeOffset))|
    {
      var maxRecords: nat :| true;
      var maxBytes: nat :| true;
      ghost var offset, ordinal, fed := reader.completeOffset, reader.nextOrdinal, reader.fingerprint;
      ContinuesFacts(classify, b, cursor, offset, ordinal, records, fed);
      var scan, k := reader.ScanBounded(b, maxRecords, maxBytes, calm);
      if scan.Err? {
        if scan == Err(RecordTooLarge) || calm {
          TooLargeIsUnreadable(Lines(From(b, offset)), Tail(From(b, offset)), Clamp(maxRecords, 1, 512),
                               Clamp(maxBytes, 1, 16_777_216), k);
        }
        return Err(scan.error), absorbed;
      }
      ContinuesAfter(classify, b, cursor, offset, ordinal, records, fed, k, reader.completeOffset,
                     Clamp(maxBytes, 1, 16_777_216));
      AbsorbedLength(fed, Join(Lines(From(b, offset))[..k]));
      records := records + scan.value.records;
      if scan.value.reachedEnd {
        ContinuesFacts(classify, b, cursor, reader.completeOffset, reader.nextOrdinal, records, reader.fingerprint);
        absorbed := reader.FinishRawFingerprint(reader.completeOffset);
        return Ok(records), absorbed;
      }
      if scan.value.records == [] {
        return Err(ReadFailed), absorbed;
      }
      if * {
        if !fingerprinted {
          reader := new JsonlReader(classify, NewCursor(scan.value.completeOffset, scan.value.nextOrdinal), false);
        }
      }
    }
  }

  // Fingerprints after refused batches.

  datatype Batch = Batch(maxRecords: nat, maxBytes: nat, calm: bool)

  /** One batch of a run: the cursor moves past the `taken` lines, or stays when the batch is refused. */
  ghost predicate Scanned(b: Bytes, batch: Batch, from: nat, to: nat, answer: Result<Scan, JsonlError>, taken: nat) {
    var lines, tail := Lines(From(b, from)), Tail(From(b, from));
    && taken <= |lines| && to == (if answer.Ok? then from + |Join(lines[..taken])| else from)
    && (answer.Ok? ==> answer.value.completeOffset == to && |answer.value.records| == taken)
    && (answer == Err(RecordTooLarge) || (batch.calm && answer != Err(CursorOverflow)) ==>
          Stops(lines, tail, Clamp(batch.maxRecords, 1, 512), Clamp(batch.maxBytes, 1, 16_777_216), taken, answer.Err?))
  }

  /** A refused batch had taken a line before the line, the read or the number that it was refused for. */
  ghost predicate Spoiled(answers: seq<Result<Scan, JsonlError>>, taken: seq<nat>)
    requires |answers| == |taken|
  {
    exists i :: 0 <= i < |answers| && answers[i].Err? && taken[i] > 0
  }

  lemma TakenIsPrefix(b: Bytes, at: nat, k: nat)
    requires at <= |b| && k <= |Lines(From(b, at))|
    ensures var taken := Join(Lines(From(b, at))[..k]);
            at + |taken| <= |b| && b[..at] + taken == b[..at + |taken|] && (taken == [] <==> k == 0)
  {
    hide Lines, Tail;
    var lines := Lines(From(b, at));
    LinesRoundTrip(From(b, at));
    JoinContinue(lines, k);
    var taken := Join(lines[..k]);
    assert b[at..] == taken + (Join(lines[k..]) + Tail(From(b, at)));
    assert b == b[..at] + b[at..];
  }

  /** The fingerprint is the bytes up to the cursor, or longer than that. */
  ghost predicate Follows(fingerprint: Option<Bytes>, b: Bytes, offset: nat, spoiled: bool) {
    && fingerprint.Some? && offset <= |b|
    && if spoiled then |fingerprint.value| > offset else fingerprint.value == b[..offset]
  }

  lemma FollowsBatch(fingerprint: Option<Bytes>, b: Bytes, offset: nat, spoiled: bool, k: nat, refused: bool)
    requires Follows(fingerprint, b, offset, spoiled) && k <= |Lines(From(b, offset))|
    ensures var taken := Join(Lines(From(b, offset))[..k]);
            Follows(Absorbed(fingerprint, taken), b, if refused then offset else offset + |taken|,
                    spoiled || (refused && k > 0))
  {
    hide Lines, Join, From;
    TakenIsPrefix(b, offset, k);
    var taken := Join(Lines(From(b, offset))[..k]);
    assert fingerprint.value + [] == fingerprint.value;
  }

  /**
   Every sequence of batches of a reader that fingerprints from the start of the file. The fingerprint is given for the
   cursor, and is that of the bytes before it, exactly when no refused batch had taken a line.
   */
  method FingerprintAfter(classify: Bytes -> Status, b: Bytes, batches: seq<Batch>)
    returns (answers: seq<Result<Scan, JsonlError>>, offsets: seq<nat>, absorbed: Option<Bytes>, ghost taken: seq<nat>)
    ensures |answers| == |taken| == |batches| && |offsets| == |batches| + 1 && offsets[0] == 0
    ensures forall i :: 0 <= i < |batches| ==>
              Scanned(b, batches[i], offsets[i], offsets[i + 1], answers[i], taken[i])
    ensures offsets[|batches|] <= |b|
    ensures absorbed == if Spoiled(answers, taken) then None else Some(b[..offsets[|batches|]])
  {
    hide Lines, Tail, Join, From, RecordsOf, Stops, Holds, Absorbed, Clamp;
    var reader := new JsonlReader(classify, NewCursor(0, 1), true);
    answers, offsets, taken := [], [0], [];
    for n := 0 to |batches|
      invariant fresh(reader) && reader.Rests(b) && |answers| == |taken| == n && |offsets| == n + 1
      invariant offsets[0] == 0 && offsets[n] == reader.completeOffset
      invariant forall i :: 0 <= i < n ==> Scanned(b, batches[i], offsets[i], offsets[i + 1], answers[i], taken[i])
      invariant Follows(reader.fingerprint, b, reader.completeOffset, Spoiled(answers, taken))
    {
      ghost var from, fed, spoiled := reader.completeOffset, reader.fingerprint, Spoiled(answers, taken);
      var batch := batches[n];
      var answer, k := reader.ScanBounded(b, batch.maxRecords, batch.maxBytes, batch.calm);
      FollowsBatch(fed, b, from, spoiled, k, answer.Err?);
      assert Scanned(b, batch, from, reader.completeOffset, answer, k);
      SpoiledMore(answers, taken, answer, k);
      answers, offsets, taken := answers + [answer], offsets + [reader.completeOffset], taken + [k];
    }
    absorbed := reader.FinishRawFingerprint(reader.completeOffset);
  }

  lemma SpoiledMore(answers: seq<Result<Scan, JsonlError>>, taken: seq<nat>, answer: Result<Scan, JsonlError>, k: nat)
    requires |answers| == |taken|
    ensures Spoiled(answers + [answer], taken + [k]) <==> Spoiled(answers, taken) || (answer.Err? && k > 0)
  {
    if answer.Err? && k > 0 {
      assert (answers + [answer])[|answers|] == answer;
    }
    forall i | 0 <= i < |answers|
      ensures (answers + [answer])[i] == answers[i] && (taken + [k])[i] == taken[i]
    {
    }
  }

  /** A line, and behind it one that is too long. */
  function ShortThenLong(): Bytes {
    [97, NEWLINE] + seq(MAX_JSONL_LINE_BYTES + 1, i => 98)
  }

  lemma ShortThenLongLines()
    ensures Lines(From(ShortThenLong(), 0)) == [[97]] && Lines(From(ShortThenLong(), 2)) == []
    ensures |Tail(From(ShortThenLong(), 0))| == |Tail(From(ShortThenLong(), 2))| == MAX_JSONL_LINE_BYTES + 1
    ensures |From(ShortThenLong(), 0)| == MAX_JSONL_LINE_BYTES + 3
    ensures |From(ShortThenLong(), 2)| == MAX_JSONL_LINE_BYTES + 1
    ensures Join([[97]]) == [97, NEWLINE] && Join([]) == []
  {
    var long: Bytes := seq(MAX_JSONL_LINE_BYTES + 1, i => 98);
    OnlyTail(long);
    assert ShortThenLong() == [97] + [NEWLINE] + long && ShortThenLong()[2..] == long;
    assert From(ShortThenLong(), 0) == ShortThenLong();
    FirstLine(ShortThenLong(), [97], long);
    JoinOne([97]);
  }

  /** Where batches of that file end. */
  lemma ShortThenLongStops(tail: Bytes, k: nat, tooLarge: bool)
    requires |tail| > MAX_JSONL_LINE_BYTES
    ensures Stops([[97]], tail, 512, 16_777_216, k, tooLarge) ==> k == 1 && tooLarge
    ensures Stops([[97]], tail, 1, 16_777_216, k, tooLarge) ==> k == 1 && !tooLarge
    ensures Stops([], tail, 512, 16_777_216, k, tooLarge) ==> k == 0 && tooLarge
  {
  }

  lemma OneError(scan: Result<Scan, JsonlError>)
    ensures scan.Ok? || scan == Err(RecordTooLarge) || scan == Err(ReadFailed) || scan == Err(CursorOverflow)
  {
    if scan.Err? {
      assert scan.error.RecordTooLarge? || scan.error.ReadFailed? || scan.error.CursorOverflow?;
    }
  }

  /**
   Read in one batch, the short line is refused with the long one and the fingerprint is lost; read alone first, it is
   committed, and the refusal of the long line leaves its fingerprint.
   */
  method RefusesOrKeeps(classify: Bytes -> Status, alone: bool)
    returns (answer: Result<Scan, JsonlError>, offset: nat, absorbed: Option<Bytes>)
    ensures answer == Err(RecordTooLarge)
    ensures if alone then offset == 2 && absorbed == Some([97, NEWLINE]) else offset == 0 && absorbed == None
  {
    hide Lines, Tail, Join, Holds, RecordsOf, From, ShortThenLong, Stops;
    var b := ShortThenLong();
    ShortThenLongLines();
    var reader := new JsonlReader(classify, NewCursor(0, 1), true);
    if alone {
      var first, k := reader.ScanBounded(b, 1, MAX_JSONL_BATCH_INPUT_BYTES, true);
      ShortThenLongStops(Tail(From(b, 0)), k, first.Err?);
      assert [[97]][..k] == [[97]];
      assert reader.fingerprint.value == [97, NEWLINE];
    }
    ghost var from := reader.completeOffset;
    var scan, k := reader.ScanBounded(b, MAX_JSONL_RECORDS_PER_SCAN, MAX_JSONL_BATCH_INPUT_BYTES, true);
    ShortThenLongStops(Tail(From(b, from)), k, scan.Err?);
    assert scan == Err(RecordTooLarge) by { OneError(scan); }
    assert Lines(From(b, from))[..k] == Lines(From(b, from));
    assert alone ==> reader.fingerprint.value == [97, NEWLINE];
    answer, offset := scan, reader.completeOffset;
    absorbed := reader.FinishRawFingerprint(reader.completeOffset);
  }
}
