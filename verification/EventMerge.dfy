/**
 The k-way merge of persistent event sources: `PersistentLineReader` and `MergedPersistentEvents` of
 `wokcore-diagnostics/src/export.rs`. A source is the bytes of a leased file; reading it may return any
 shorter piece. Validation of one event line and of a snapshot header line are parameters.
 */
module EventMerge {
  import opened Prelude
  import opened TextLines

  const MAX_SEGMENT_BYTES: nat := 4_194_304
  const MAX_FAILURE_SNAPSHOT_BYTES: nat := 2_097_152
  const MAX_SNAPSHOT_CAUSAL_EVENTS: nat := 64

  /** `NotAfterPrevious` is the InvalidInput of the guard against emitting a sequence twice or out of order. */
  datatype ExportError = InvalidInput | Limit | Boundary | Cancelled | NotAfterPrevious

  /** The sequence of a canonical, leak-free event line. */
  type Validator = Bytes -> Option<nat>

  datatype Kind = SegmentFile | SnapshotFile

  datatype Source = Source(kind: Kind, bytes: Bytes)

  function MaxSourceBytes(kind: Kind): nat {
    if kind == SegmentFile then MAX_SEGMENT_BYTES else MAX_FAILURE_SNAPSHOT_BYTES
  }

  // Reading one line.

  datatype LineReader = LineReader(next: nat, buffer: Bytes, position: nat) {
    ghost predicate Reads(b: Bytes) {
      position <= |buffer| <= next <= |b| && buffer == b[next - |buffer|..next]
    }

    /** The offset of the first byte not handed out. */
    function At(): int {
      next - |buffer| + position
    }

    predicate Exhausted(length: nat) {
      position == |buffer| && next == length
    }
  }

  /** The line at an offset: it must end in a newline and may not exceed the limit. */
  function LineAt(b: Bytes, at: nat, maxLine: nat): Result<Bytes, ExportError>
    requires at <= |b|
  {
    var end := NextNewline(b, at);
    if at == |b| then Err(InvalidInput)
    else if end - at > maxLine then Err(Limit)
    else if end == |b| then Err(InvalidInput)
    else Ok(b[at..end])
  }

  /** Any non-empty piece of what was asked for, or a failure when the environment is not calm. */
  method ReadRange(b: Bytes, offset: nat, maximum: nat, calm: bool) returns (r: Result<Bytes, ExportError>)
    requires offset < |b| && 0 < maximum <= |b| - offset
    ensures r.Ok? ==> 0 < |r.value| <= maximum && r.value == b[offset..offset + |r.value|]
    ensures r.Err? ==> !calm && (r == Err(Boundary) || r == Err(Cancelled))
  {
    var failed := Disturbed(calm);
    if failed {
      if * {
        return Err(Cancelled);
      }
      return Err(Boundary);
    }
    var length: nat :| 0 < length <= maximum;
    return Ok(b[offset..offset + length]);
  }

  predicate Interrupted<T(==)>(r: Result<T, ExportError>) {
    r == Err(Boundary) || r == Err(Cancelled)
  }

  /** In the middle of a line that starts at `at`: what was handed out of it so far, without its newline. */
  ghost predicate WithinLine(b: Bytes, at: nat, reader: LineReader, line: Bytes) {
    && reader.Reads(b) && at <= reader.At() && at < |b|
    && line == b[at..reader.At()] && NEWLINE !in line
  }

  lemma Refilled(b: Bytes, at: nat, reader: LineReader, line: Bytes, piece: Bytes)
    requires WithinLine(b, at, reader, line) && reader.position == |reader.buffer|
    requires reader.next + |piece| <= |b| && piece == b[reader.next..reader.next + |piece|]
    ensures WithinLine(b, at, LineReader(reader.next + |piece|, piece, 0), line)
  {
  }

  /** What the rest of the buffer up to its next newline adds to the line. */
  lemma Scanned(b: Bytes, at: nat, reader: LineReader, line: Bytes)
    requires WithinLine(b, at, reader, line)
    ensures var newline := NextNewline(reader.buffer, reader.position);
            var whole := line + reader.buffer[reader.position..newline];
            && at + |whole| <= |b| && whole == b[at..at + |whole|] && NEWLINE !in whole
            && (newline < |reader.buffer| ==> at + |whole| < |b| && b[at + |whole|] == NEWLINE)
  {
    hide NextNewline;
    var newline := NextNewline(reader.buffer, reader.position);
    var available := reader.buffer[reader.position..newline];
    Buffered(b, reader, reader.position, newline);
    SliceJoin(b, at, reader.At(), reader.At() + |available|);
    assert NEWLINE !in available;
  }

  lemma Buffered(b: Bytes, reader: LineReader, from: nat, to: nat)
    requires reader.Reads(b) && from <= to <= |reader.buffer|
    ensures var base := reader.next - |reader.buffer|;
            reader.buffer[from..to] == b[base + from..base + to]
            && (to < |reader.buffer| ==> reader.buffer[to] == b[base + to])
  {
    var base := reader.next - |reader.buffer|;
    assert forall i :: from <= i < to ==> reader.buffer[i] == b[base + i];
    assert reader.buffer[from..to] == b[base + from..base + to];
  }

  lemma LineEnds(b: Bytes, at: nat, line: Bytes, maxLine: nat)
    requires at < |b| && at + |line| <= |b| && line == b[at..at + |line|] && NEWLINE !in line
    requires at + |line| == |b| || b[at + |line|] == NEWLINE
    ensures LineAt(b, at, maxLine) ==
            if |line| > maxLine then Err(Limit) else if at + |line| == |b| then Err(InvalidInput) else Ok(line)
  {
    assert forall i :: at <= i < at + |line| ==> b[i] == line[i - at];
    NewlineIsNext(b, at, at + |line|);
  }

  lemma LineIsTooLong(b: Bytes, at: nat, line: Bytes, maxLine: nat)
    requires at < |b| && at + |line| <= |b| && line == b[at..at + |line|] && NEWLINE !in line && |line| > maxLine
    ensures LineAt(b, at, maxLine) == Err(Limit)
  {
    assert forall i :: at <= i < at + |line| ==> b[i] == line[i - at];
  }

  lemma LineStarts(b: Bytes, reader: LineReader)
    requires reader.Reads(b) && !reader.Exhausted(|b|)
    ensures reader.At() >= 0 && WithinLine(b, reader.At(), reader, [])
  {
  }

  lemma FileEnds(b: Bytes, at: nat, reader: LineReader, line: Bytes, maxLine: nat)
    requires WithinLine(b, at, reader, line) && reader.Exhausted(|b|) && |line| <= maxLine
    ensures LineAt(b, at, maxLine) == Err(InvalidInput)
  {
    LineEnds(b, at, line, maxLine);
  }

  /** The three ways a piece ends: the line is too long, the line is complete, or more is needed. */
  lemma PieceRead(b: Bytes, at: nat, reader: LineReader, line: Bytes, maxLine: nat)
    requires WithinLine(b, at, reader, line)
    ensures var newline := NextNewline(reader.buffer, reader.position);
            var whole := line + reader.buffer[reader.position..newline];
            if |whole| > maxLine then LineAt(b, at, maxLine) == Err(Limit)
            else if newline < |reader.buffer| then
              var after := reader.(position := newline + 1);
              LineAt(b, at, maxLine) == Ok(whole) && after.Reads(b) && after.At() == at + |whole| + 1
            else WithinLine(b, at, reader.(position := newline), whole)
  {
    hide LineAt, NextNewline;
    Scanned(b, at, reader, line);
    var newline := NextNewline(reader.buffer, reader.position);
    var whole := line + reader.buffer[reader.position..newline];
    if |whole| > maxLine {
      LineIsTooLong(b, at, whole, maxLine);
    } else if newline < |reader.buffer| {
      LineEnds(b, at, whole, maxLine);
    }
  }

  lemma WithinReads(b: Bytes, at: nat, reader: LineReader, line: Bytes)
    requires WithinLine(b, at, reader, line)
    ensures reader.Reads(b) && at <= reader.At() <= |b| && at < |b| && reader.position <= |reader.buffer|
    ensures reader.next <= |b|
  {
  }

  /** Reading line by line does not depend on the pieces the file comes in. */
  method ReadLine(reader: LineReader, b: Bytes, maxLine: nat, calm: bool)
    returns (r: Result<Bytes, ExportError>, after: LineReader)
    requires reader.Reads(b)
    ensures after.Reads(b)
    ensures r == LineAt(b, reader.At(), maxLine) || (!calm && Interrupted(r))
    ensures r.Ok? ==> after.At() == reader.At() + |r.value| + 1
    ensures r != Err(NotAfterPrevious)
  {
    hide NextNewline, WithinLine, LineReader.Reads;
    after := reader;
    if after.Exhausted(|b|) {
      return Err(InvalidInput), after;
    }
    var line: Bytes := [];
    LineStarts(b, after);
    ghost var at: nat := reader.At();
    hide LineAt;
    while true
      invariant WithinLine(b, at, after, line) && |line| <= maxLine
      decreases |b| - after.At()
    {
      WithinReads(b, at, after, line);
      if after.position == |after.buffer| {
        var remaining := |b| - after.next;
        if remaining == 0 {
          FileEnds(b, at, after, line, maxLine);
          return Err(InvalidInput), after;
        }
        var piece := ReadRange(b, after.next,
                               if remaining < EXPORT_BUFFER_BYTES then remaining else EXPORT_BUFFER_BYTES, calm);
        if piece.Err? {
          return Err(piece.error), after;
        }
        Refilled(b, at, after, line, piece.value);
        after := LineReader(after.next + |piece.value|, piece.value, 0);
        WithinReads(b, at, after, line);
      }
      PieceRead(b, at, after, line, maxLine);
      var newline := NextNewline(after.buffer, after.position);
      var whole := line + after.buffer[after.position..newline];
      if |whole| > maxLine {
        return Err(Limit), after;
      }
      if newline < |after.buffer| {
        return Ok(whole), after.(position := newline + 1);
      }
      line := whole;
      after := after.(position := newline);
      WithinReads(b, at, after, line);
    }
  }

  // Sources.

  function EventLines(source: Source): seq<Bytes> {
    var lines := Lines(source.bytes);
    if source.kind == SnapshotFile && lines != [] then lines[1..] else lines
  }

  /** Lines that validate, in strictly increasing sequence order. */
  ghost predicate Good(validate: Validator, events: seq<Bytes>) {
    && (forall i :: 0 <= i < |events| ==> |events[i]| <= MAX_PREPARED_EVENT_BYTES && validate(events[i]).Some?)
    && (forall i, j :: 0 <= i < j < |events| ==> validate(events[i]).value < validate(events[j]).value)
  }

  /** A non-empty source within its size, starting with a valid header if it is a snapshot. */
  ghost predicate Started(header: Bytes -> bool, source: Source) {
    && 0 < |source.bytes| <= MaxSourceBytes(source.kind)
    && (source.kind == SnapshotFile ==>
          var lines := Lines(source.bytes);
          lines != [] && |lines[0]| <= EXPORT_BUFFER_BYTES && header(lines[0]))
  }

  /** What the export demands of one source. */
  ghost predicate WellFormed(validate: Validator, header: Bytes -> bool, source: Source) {
    && Started(header, source) && Tail(source.bytes) == [] && Good(validate, EventLines(source))
    && (source.kind == SnapshotFile ==> 0 < |EventLines(source)| <= MAX_SNAPSHOT_CAUSAL_EVENTS)
  }

  datatype Cursor = Cursor(reader: LineReader, current: Bytes, sequence: nat, count: nat)

  /** A cursor stands on event `k` of its source; without one, the whole source was read and is well formed. */
  ghost predicate Tracks(validate: Validator, header: Bytes -> bool, source: Source, cursor: Option<Cursor>, k: nat) {
    var events := EventLines(source);
    match cursor
    case None => k == |events| && WellFormed(validate, header, source)
    case Some(c) =>
      && k < |events| && Started(header, source) && Good(validate, events[..k + 1])
      && c.current == events[k] && validate(c.current) == Some(c.sequence) && c.count == k + 1
      && (source.kind == SnapshotFile ==> c.count <= MAX_SNAPSHOT_CAUSAL_EVENTS)
      && c.reader.Reads(source.bytes) && Leaves(source, c.reader, k + 1)
  }

  /** The reader has everything from event `k` on before it. */
  ghost predicate Leaves(source: Source, reader: LineReader, k: nat)
    requires reader.Reads(source.bytes)
  {
    var rest := source.bytes[reader.At()..];
    k <= |EventLines(source)| && Lines(rest) == EventLines(source)[k..] && Tail(rest) == Tail(source.bytes)
  }

  /** The outcome of fetching event `k`. */
  ghost predicate Fetched(validate: Validator, source: Source, k: nat, count: nat,
                          r: Result<Option<Cursor>, ExportError>) {
    var events := EventLines(source);
    match r
    case Ok(None) => k == |events| && Tail(source.bytes) == []
    case Ok(Some(c)) =>
      && k < |events| && c.current == events[k] && |c.current| <= MAX_PREPARED_EVENT_BYTES
      && validate(c.current) == Some(c.sequence) && c.count == count
      && c.reader.Reads(source.bytes) && Leaves(source, c.reader, k + 1)
    case Err(e) =>
      || Tail(source.bytes) != []
      || (k < |events| && (|events[k]| > MAX_PREPARED_EVENT_BYTES || validate(events[k]).None?))
  }

  lemma RestAt(b: Bytes, at: nat, maxLine: nat)
    requires at <= |b|
    ensures at == |b| ==> Lines(b[at..]) == [] && Tail(b[at..]) == []
    ensures at < |b| && LineAt(b, at, maxLine).Ok? ==>
              var line := LineAt(b, at, maxLine).value;
              && |line| <= maxLine && at + |line| < |b| && Lines(b[at..]) == [line] + Lines(b[at + |line| + 1..])
              && Tail(b[at..]) == Tail(b[at + |line| + 1..])
    ensures at < |b| && LineAt(b, at, maxLine).Err? ==>
              Tail(b[at..]) != [] || (Lines(b[at..]) != [] && |Lines(b[at..])[0]| > maxLine)
  {
    hide Lines, Tail;
    SuffixLines(b, at);
  }

  method NextCursor(validate: Validator, source: Source, reader: LineReader, ghost k: nat, count: nat, calm: bool)
    returns (r: Result<Option<Cursor>, ExportError>)
    requires reader.Reads(source.bytes) && Leaves(source, reader, k)
    ensures Fetched(validate, source, k, count, r) || (!calm && Interrupted(r))
    ensures r != Err(NotAfterPrevious)
  {
    hide Lines, Tail, NextNewline, EventLines;
    ghost var b, at := source.bytes, reader.At();
    if reader.Exhausted(|source.bytes|) {
      RestAt(b, at, 0);
      return Ok(None);
    }
    var line, after := ReadLine(reader, source.bytes, MAX_PREPARED_EVENT_BYTES, calm);
    RestAt(b, at, MAX_PREPARED_EVENT_BYTES);
    if line.Err? {
      return Err(line.error);
    }
    assert EventLines(source)[k..][1..] == EventLines(source)[k + 1..];
    var sequence := validate(line.value);
    if sequence.None? {
      return Err(InvalidInput);
    }
    return Ok(Some(Cursor(after, line.value, sequence.value, count)));
  }

  lemma Begins(source: Source)
    requires source.kind == SegmentFile || Lines(source.bytes) != []
    ensures var reader := LineReader(0, [], 0);
            && reader.Reads(source.bytes)
            && (source.kind == SegmentFile ==> Leaves(source, reader, 0))
  {
    assert source.bytes[0..] == source.bytes;
  }

  lemma HeaderRead(source: Source, reader: LineReader, line: Bytes)
    requires source.kind == SnapshotFile && source.bytes != [] && reader.Reads(source.bytes)
    requires LineAt(source.bytes, 0, EXPORT_BUFFER_BYTES) == Ok(line) && reader.At() == |line| + 1
    ensures Lines(source.bytes) != [] && Lines(source.bytes)[0] == line && |line| <= EXPORT_BUFFER_BYTES
    ensures Leaves(source, reader, 0)
  {
    hide Lines, Tail, NextNewline;
    assert source.bytes[0..] == source.bytes;
    RestAt(source.bytes, 0, EXPORT_BUFFER_BYTES);
  }

  lemma HeaderMissing(validate: Validator, header: Bytes -> bool, source: Source)
    requires source.kind == SnapshotFile && source.bytes != []
    requires LineAt(source.bytes, 0, EXPORT_BUFFER_BYTES).Err?
    ensures !WellFormed(validate, header, source)
  {
    hide Lines, Tail, NextNewline;
    assert source.bytes[0..] == source.bytes;
    RestAt(source.bytes, 0, EXPORT_BUFFER_BYTES);
  }

  /** The first event of a source: whatever is refused here is not well formed. */
  lemma FirstFetched(validate: Validator, header: Bytes -> bool, source: Source, r: Result<Option<Cursor>, ExportError>)
    requires Started(header, source) && Fetched(validate, source, 0, 1, r)
    ensures r.Ok? && !(source.kind == SnapshotFile && r.value.None?) ==> Tracks(validate, header, source, r.value, 0)
    ensures r.Err? || (source.kind == SnapshotFile && r.value.None?) ==> !WellFormed(validate, header, source)
  {
    hide Lines, Tail, EventLines, Leaves, Started;
  }

  /** A later event: refusing it, or finding it out of order or beyond the snapshot's share, means not well formed. */
  lemma NextFetched(validate: Validator, header: Bytes -> bool, source: Source, c: Cursor, k: nat,
                    r: Result<Option<Cursor>, ExportError>)
    requires Tracks(validate, header, source, Some(c), k) && Fetched(validate, source, k + 1, c.count + 1, r)
    ensures var refused := r.Ok? && r.value.Some? && (r.value.value.sequence <= c.sequence
                || (source.kind == SnapshotFile && r.value.value.count > MAX_SNAPSHOT_CAUSAL_EVENTS));
            if r.Err? || refused then !WellFormed(validate, header, source)
            else Tracks(validate, header, source, r.value, k + 1)
  {
    hide Lines, Tail, EventLines, Leaves, Started;
    var events := EventLines(source);
    if r.Ok? && r.value.Some? {
      assert events[..k + 2] == events[..k + 1] + [r.value.value.current];
      assert events[k] == events[..k + 1][k];
    } else if r.Ok? {
      assert events[..k + 1] == events;
    }
  }

  method OpenSource(validate: Validator, header: Bytes -> bool, source: Source, calm: bool)
    returns (r: Result<Option<Cursor>, ExportError>)
    ensures r.Ok? ==> Tracks(validate, header, source, r.value, 0)
    ensures r.Err? ==> !WellFormed(validate, header, source) || (!calm && Interrupted(r))
    ensures r != Err(NotAfterPrevious)
  {
    hide Lines, Tail, EventLines, Leaves, Tracks, Fetched, LineAt;
    if source.bytes == [] || |source.bytes| > MaxSourceBytes(source.kind) {
      return Err(InvalidInput);
    }
    var reader := LineReader(0, [], 0);
    if source.kind == SnapshotFile {
      var line, after := ReadLine(reader, source.bytes, EXPORT_BUFFER_BYTES, calm);
      if line.Err? {
        if LineAt(source.bytes, 0, EXPORT_BUFFER_BYTES).Err? {
          HeaderMissing(validate, header, source);
        }
        return Err(line.error);
      }
      HeaderRead(source, after, line.value);
      if !header(line.value) {
        return Err(InvalidInput);
      }
      reader := after;
    } else {
      Begins(source);
    }
    var first := NextCursor(validate, source, reader, 0, 1, calm);
    if Fetched(validate, source, 0, 1, first) {
      FirstFetched(validate, header, source, first);
    }
    if first.Err? {
      return Err(first.error);
    }
    if source.kind == SnapshotFile && first.value.None? {
      return Err(InvalidInput);
    }
    return first;
  }

  method AdvanceCursor(validate: Validator, header: Bytes -> bool, source: Source, c: Cursor, ghost k: nat, calm: bool)
    returns (r: Result<Option<Cursor>, ExportError>)
    requires Tracks(validate, header, source, Some(c), k)
    ensures r.Ok? ==>
              Tracks(validate, header, source, r.value, k + 1)
              && (r.value.Some? ==> r.value.value.sequence > c.sequence)
    ensures r.Err? ==> !WellFormed(validate, header, source) || (!calm && Interrupted(r))
    ensures r != Err(NotAfterPrevious)
  {
    hide Lines, Tail, EventLines, Leaves, Fetched, LineAt, WellFormed;
    var next := NextCursor(validate, source, c.reader, k + 1, c.count + 1, calm);
    if Fetched(validate, source, k + 1, c.count + 1, next) {
      NextFetched(validate, header, source, c, k, next);
    }
    if next.Err? {
      return Err(next.error);
    }
    if next.value.Some? && (next.value.value.sequence <= c.sequence
                            || (source.kind == SnapshotFile && next.value.value.count > MAX_SNAPSHOT_CAUSAL_EVENTS)) {
      return Err(InvalidInput);
    }
    return next;
  }

  // The merge.

  /** Sources that carry the same sequence carry the same bytes for it. */
  ghost predicate Agree(validate: Validator, sources: seq<Source>) {
    forall i, j, x, y |
      0 <= i < |sources| && 0 <= j < |sources| && x in EventLines(sources[i]) && y in EventLines(sources[j]) ::
      validate(x).Some? && validate(x) == validate(y) ==> x == y
  }

  ghost predicate AllWellFormed(validate: Validator, header: Bytes -> bool, sources: seq<Source>) {
    forall i :: 0 <= i < |sources| ==> WellFormed(validate, header, sources[i])
  }

  /** The events of all sources once each, in increasing sequence order. */
  ghost predicate SortedUnion(validate: Validator, sources: seq<Source>, out: seq<Bytes>) {
    && Good(validate, out)
    && (forall x :: x in out <==> exists i :: 0 <= i < |sources| && x in EventLines(sources[i]))
  }

  ghost function Elements(s: seq<Bytes>): set<Bytes> {
    set x | x in s
  }

  lemma GoodInit(validate: Validator, a: seq<Bytes>)
    requires Good(validate, a) && a != []
    ensures var m := |a| - 1; Good(validate, a[..m]) && Elements(a[..m]) == Elements(a) - {a[m]}
  {
    var m := |a| - 1;
    assert a == a[..m] + [a[m]];
  }

  lemma GoodMaximum(validate: Validator, a: seq<Bytes>, x: Bytes)
    requires Good(validate, a) && x in a
    ensures validate(x).Some? && validate(a[|a| - 1]).Some? && validate(x).value <= validate(a[|a| - 1]).value
    ensures x == a[|a| - 1] || validate(x).value < validate(a[|a| - 1]).value
  {
  }

  /** There is only one sorted union. */
  lemma {:induction false} GoodIsUnique(validate: Validator, a: seq<Bytes>, b: seq<Bytes>)
    requires Good(validate, a) && Good(validate, b) && Elements(a) == Elements(b)
    ensures a == b
  {
    hide Good, Elements;
    ElementsOf(a);
    ElementsOf(b);
    if a != [] && b != [] {
      var m, n := |a| - 1, |b| - 1;
      assert a[m] in Elements(b) && b[n] in Elements(a);
      GoodMaximum(validate, b, a[m]);
      GoodMaximum(validate, a, b[n]);
      GoodInit(validate, a);
      GoodInit(validate, b);
      GoodIsUnique(validate, a[..m], b[..n]);
      assert a == a[..m] + [a[m]] && b == b[..n] + [b[n]];
    }
  }

  lemma ElementsOf(a: seq<Bytes>)
    ensures (a == [] <==> Elements(a) == {}) && (a != [] ==> a[|a| - 1] in Elements(a))
    ensures forall x :: x in Elements(a) ==> x in a
  {
    assert a != [] ==> a[|a| - 1] in Elements(a);
  }

  /** Every source is followed: `taken[i]` of its events were consumed and its cursor stands on the next one. */
  ghost predicate Following(validate: Validator, header: Bytes -> bool, sources: seq<Source>,
                            cursors: seq<Option<Cursor>>, taken: seq<nat>)
  {
    && |cursors| == |taken| == |sources|
    && forall i :: 0 <= i < |sources| ==> Tracks(validate, header, sources[i], cursors[i], taken[i])
  }

  /** The lines consumed from the sources, once each, in increasing sequence order. */
  ghost predicate Emitted(validate: Validator, sources: seq<Source>, taken: seq<nat>, out: seq<Bytes>) {
    && |taken| == |sources| && (forall i :: 0 <= i < |sources| ==> taken[i] <= |EventLines(sources[i])|)
    && Good(validate, out)
    && (forall x :: x in out <==> exists i :: 0 <= i < |sources| && x in EventLines(sources[i])[..taken[i]])
  }

  /** What the heap holds at rest: the sequence and index of every cursor. */
  ghost function Heads(cursors: seq<Option<Cursor>>): set<(nat, nat)> {
    set i: nat | i < |cursors| && cursors[i].Some? :: (cursors[i].value.sequence, i)
  }

  lemma HeadOf(cursors: seq<Option<Cursor>>, p: (nat, nat))
    ensures p in Heads(cursors) <==> p.1 < |cursors| && cursors[p.1].Some? && cursors[p.1].value.sequence == p.0
  {
    if p.1 < |cursors| && cursors[p.1].Some? {
      assert (cursors[p.1].value.sequence, p.1) in Heads(cursors);
    }
  }

  /** Every cursor stands beyond what was emitted last. */
  ghost predicate Beyond(validate: Validator, cursors: seq<Option<Cursor>>, last: Option<nat>, out: seq<Bytes>) {
    match last
    case None => out == []
    case Some(q) =>
      && out != [] && validate(out[|out| - 1]) == Some(q)
      && forall i :: 0 <= i < |cursors| && cursors[i].Some? ==> q < cursors[i].value.sequence
  }

  predicate Before(a: (nat, nat), b: (nat, nat)) {
    a.0 < b.0 || (a.0 == b.0 && a.1 < b.1)
  }

  ghost predicate IsTop(pending: set<(nat, nat)>, top: Option<(nat, nat)>) {
    match top
    case None => pending == {}
    case Some(least) => least in pending && forall other :: other in pending ==> !Before(other, least)
  }

  lemma {:induction false} LeastExists(s: set<(nat, nat)>) returns (least: (nat, nat))
    requires s != {}
    ensures least in s && forall other :: other in s ==> !Before(other, least)
    decreases |s|
  {
    var some :| some in s;
    least := some;
    var rest := s - {some};
    if rest != {} {
      var below := LeastExists(rest);
      least := if Before(some, below) then some else below;
      assert forall other :: other in s ==> other == some || other in rest;
    }
  }

  lemma NoHeads(cursors: seq<Option<Cursor>>)
    ensures Heads(cursors) == {} ==> forall i :: 0 <= i < |cursors| ==> cursors[i].None?
  {
    forall i | 0 <= i < |cursors| && cursors[i].Some?
      ensures Heads(cursors) != {}
    {
      assert (cursors[i].value.sequence, i) in Heads(cursors);
    }
  }

  /** Consuming the event under a cursor: it is emitted now, or it is one emitted already. */
  lemma EmittedGrows(validate: Validator, sources: seq<Source>, taken: seq<nat>, out: seq<Bytes>, a: nat,
                     out': seq<Bytes>)
    requires Emitted(validate, sources, taken, out) && a < |sources| && taken[a] < |EventLines(sources[a])|
    requires Good(validate, out')
    requires var x := EventLines(sources[a])[taken[a]]; out' == out + [x] || (x in out && out' == out)
    ensures Emitted(validate, sources, taken[a := taken[a] + 1], out')
  {
    hide EventLines, Good;
    var taken', x := taken[a := taken[a] + 1], EventLines(sources[a])[taken[a]];
    assert EventLines(sources[a])[..taken'[a]] == EventLines(sources[a])[..taken[a]] + [x];
    forall y, i | 0 <= i < |sources| && y in EventLines(sources[i])[..taken'[i]]
      ensures y in out'
    {
      assert y == x || y in EventLines(sources[i])[..taken[i]];
    }
    forall y | y in out'
      ensures exists i :: 0 <= i < |sources| && y in EventLines(sources[i])[..taken'[i]]
    {
      if y == x {
        assert y in EventLines(sources[a])[..taken'[a]];
      } else {
        var i :| 0 <= i < |sources| && y in EventLines(sources[i])[..taken[i]];
        assert y in EventLines(sources[i])[..taken'[i]];
      }
    }
  }

  /** The event under the least cursor comes after everything emitted so far. */
  lemma GoodGrows(validate: Validator, out: seq<Bytes>, last: Option<nat>, x: Bytes, q: nat)
    requires Good(validate, out) && validate(x) == Some(q) && |x| <= MAX_PREPARED_EVENT_BYTES
    requires if last.None? then out == [] else out != [] && validate(out[|out| - 1]) == last && last.value < q
    ensures Good(validate, out + [x]) && x !in out
  {
    forall i | 0 <= i < |out|
      ensures validate(out[i]).value < q
    {
      GoodMaximum(validate, out, out[i]);
    }
  }

  lemma CursorFacts(validate: Validator, header: Bytes -> bool, source: Source, c: Cursor, k: nat)
    requires Tracks(validate, header, source, Some(c), k)
    ensures k < |EventLines(source)| && c.current == EventLines(source)[k] && c.current in EventLines(source)
    ensures validate(c.current) == Some(c.sequence) && |c.current| <= MAX_PREPARED_EVENT_BYTES
  {
    assert EventLines(source)[..k + 1][k] == EventLines(source)[k];
  }

  lemma NothingEmitted(validate: Validator, header: Bytes -> bool, sources: seq<Source>, cursors: seq<Option<Cursor>>,
                       taken: seq<nat>)
    requires Following(validate, header, sources, cursors, taken) && forall i :: 0 <= i < |taken| ==> taken[i] == 0
    ensures Emitted(validate, sources, taken, [])
  {
  }

  /** Once every cursor is gone, all sources are well formed and agree, and everything was emitted. */
  lemma AllEmitted(validate: Validator, header: Bytes -> bool, sources: seq<Source>, cursors: seq<Option<Cursor>>,
                   taken: seq<nat>, out: seq<Bytes>)
    requires Following(validate, header, sources, cursors, taken) && Emitted(validate, sources, taken, out)
    requires Heads(cursors) == {}
    ensures AllWellFormed(validate, header, sources) && Agree(validate, sources) && SortedUnion(validate, sources, out)
  {
    hide EventLines, WellFormed, Good;
    NoHeads(cursors);
    forall i | 0 <= i < |sources|
      ensures WellFormed(validate, header, sources[i]) && EventLines(sources[i])[..taken[i]] == EventLines(sources[i])
    {
      assert Tracks(validate, header, sources[i], cursors[i], taken[i]);
    }
    forall i, j, x, y | 0 <= i < |sources| && 0 <= j < |sources|
        && x in EventLines(sources[i]) && y in EventLines(sources[j]) && validate(x).Some? && validate(x) == validate(y)
      ensures x == y
    {
      assert x in EventLines(sources[i])[..taken[i]] && y in EventLines(sources[j])[..taken[j]];
      GoodHasNoTwins(validate, out, x, y);
    }
  }

  lemma GoodHasNoTwins(validate: Validator, out: seq<Bytes>, x: Bytes, y: Bytes)
    requires Good(validate, out) && x in out && y in out && validate(x) == validate(y)
    ensures x == y
  {
    var i :| 0 <= i < |out| && out[i] == x;
    var j :| 0 <= j < |out| && out[j] == y;
    assert i < j ==> validate(out[i]).value < validate(out[j]).value;
    assert j < i ==> validate(out[j]).value < validate(out[i]).value;
  }

  /** Moving one cursor on keeps the others followed. */
  lemma FollowingStep(validate: Validator, header: Bytes -> bool, sources: seq<Source>, cursors: seq<Option<Cursor>>,
                      taken: seq<nat>, a: nat, cursor: Option<Cursor>)
    requires Following(validate, header, sources, cursors, taken) && a < |sources|
    requires Tracks(validate, header, sources[a], cursor, taken[a] + 1)
    ensures Following(validate, header, sources, cursors[a := cursor], taken[a := taken[a] + 1])
  {
    hide Tracks;
  }

  lemma HeadsStep(cursors: seq<Option<Cursor>>, a: nat, cursor: Option<Cursor>)
    requires a < |cursors| && cursors[a].Some?
    ensures Heads(cursors[a := cursor])
            == Heads(cursors) - {(cursors[a].value.sequence, a)}
               + (if cursor.Some? then {(cursor.value.sequence, a)} else {})
  {
    var after := cursors[a := cursor];
    forall p
      ensures p in Heads(after) <==>
              p in Heads(cursors) - {(cursors[a].value.sequence, a)}
                + (if cursor.Some? then {(cursor.value.sequence, a)} else {})
    {
      HeadOf(cursors, p);
      HeadOf(after, p);
    }
  }

  class Merge {
    const validate: Validator
    const header: Bytes -> bool
    const sources: seq<Source>
    var cursors: seq<Option<Cursor>>
    var pending: set<(nat, nat)>
    var last: Option<nat>
    ghost var taken: seq<nat>

    /** Between two events, after the lines `out`. */
    ghost predicate Rests(out: seq<Bytes>)
      reads this
    {
      && Following(validate, header, sources, cursors, taken) && pending == Heads(cursors)
      && Emitted(validate, sources, taken, out) && Beyond(validate, cursors, last, out)
    }

    constructor (validate: Validator, header: Bytes -> bool, sources: seq<Source>)
      ensures this.validate == validate && this.header == header && this.sources == sources
      ensures cursors == [] && pending == {} && last == None && taken == []
    {
      this.validate, this.header, this.sources := validate, header, sources;
      cursors, pending, last, taken := [], {}, None, [];
    }

    method Start(calm: bool) returns (r: Result<(), ExportError>)
      requires cursors == [] && pending == {} && last == None && taken == []
      modifies this
      ensures r.Ok? ==> Rests([])
      ensures r.Err? ==> !AllWellFormed(validate, header, sources) || (!calm && Interrupted(r))
      ensures r != Err(NotAfterPrevious)
    {
      hide Tracks, WellFormed;
      for i := 0 to |sources|
        invariant |cursors| == |taken| == i && last == None && pending == Heads(cursors)
        invariant forall j :: 0 <= j < i ==> taken[j] == 0 && Tracks(validate, header, sources[j], cursors[j], 0)
      {
        var cancelled := Disturbed(calm);
        if cancelled {
          return Err(Cancelled);
        }
        var cursor := OpenSource(validate, header, sources[i], calm);
        if cursor.Err? {
          return Err(cursor.error);
        }
        HeadsAppend(cursors, cursor.value);
        if cursor.value.Some? {
          pending := pending + {(cursor.value.value.sequence, i)};
        }
        cursors, taken := cursors + [cursor.value], taken + [0];
      }
      NothingEmitted(validate, header, sources, cursors, taken);
      r := Ok(());
    }

    /** The least entry of the heap, left where it is. */
    method Peek() returns (top: Option<(nat, nat)>)
      ensures IsTop(pending, top)
    {
      if pending == {} {
        return None;
      }
      ghost var some := LeastExists(pending);
      var least :| least in pending && forall other :: other in pending ==> !Before(other, least);
      top := Some(least);
    }

    method Advance(a: nat, calm: bool) returns (r: Result<(), ExportError>)
      requires Following(validate, header, sources, cursors, taken) && a < |cursors| && cursors[a].Some?
      requires pending == Heads(cursors) - {(cursors[a].value.sequence, a)}
      modifies this
      ensures r.Ok? ==>
        && |cursors| == |old(cursors)| && cursors == old(cursors)[a := cursors[a]]
        && taken == old(taken)[a := old(taken)[a] + 1]
        && last == old(last) && Following(validate, header, sources, cursors, taken) && pending == Heads(cursors)
        && pending == old(pending) + (if cursors[a].Some? then {(cursors[a].value.sequence, a)} else {})
        && (cursors[a].Some? ==> cursors[a].value.sequence > old(cursors)[a].value.sequence)
      ensures r.Err? ==> !AllWellFormed(validate, header, sources) || (!calm && Interrupted(r))
      ensures r != Err(NotAfterPrevious)
    {
      hide Tracks, WellFormed, Heads;
      var cancelled := Disturbed(calm);
      if cancelled {
        return Err(Cancelled);
      }
      var cursor := cursors[a].value;
      ghost var before := cursors;
      var next := AdvanceCursor(validate, header, sources[a], cursor, taken[a], calm);
      cursors := cursors[a := None];
      if next.Err? {
        return Err(next.error);
      }
      FollowingStep(validate, header, sources, before, taken, a, next.value);
      HeadsStep(before, a, next.value);
      assert before[a := None][a := next.value] == before[a := next.value];
      cursors, taken := cursors[a := next.value], taken[a := taken[a] + 1];
      if next.value.Some? {
        pending := pending + {(next.value.value.sequence, a)};
      }
      r := Ok(());
    }

    /** Consume every other cursor that stands on the sequence just taken; all must carry the same bytes. */
    method DropDuplicates(sequence: nat, canonical: Bytes, calm: bool, ghost out: seq<Bytes>)
      returns (r: Result<(), ExportError>)
      requires Following(validate, header, sources, cursors, taken) && pending == Heads(cursors)
      requires Emitted(validate, sources, taken, out) && canonical in out
      requires canonical in AllEvents(sources) && validate(canonical) == Some(sequence)
      requires forall i :: 0 <= i < |cursors| && cursors[i].Some? ==> sequence <= cursors[i].value.sequence
      modifies this
      ensures r.Ok? ==>
        && Following(validate, header, sources, cursors, taken) && pending == Heads(cursors) && last == old(last)
        && Emitted(validate, sources, taken, out)
        && forall i :: 0 <= i < |cursors| && cursors[i].Some? ==> sequence < cursors[i].value.sequence
      ensures r.Err? ==>
                !AllWellFormed(validate, header, sources) || !Agree(validate, sources) || (!calm && Interrupted(r))
      ensures r != Err(NotAfterPrevious)
    {
      hide Following, Heads, EventLines, Emitted, AllEvents, Agree, AllWellFormed;
      var top := Peek();
      while top.Some? && top.value.0 == sequence
        invariant Following(validate, header, sources, cursors, taken) && pending == Heads(cursors) && last == old(last)
        invariant Emitted(validate, sources, taken, out) && IsTop(pending, top)
        invariant forall i :: 0 <= i < |cursors| && cursors[i].Some? ==> sequence <= cursors[i].value.sequence
        decreases set p | p in pending && p.0 == sequence
      {
        var duplicate := top.value.1;
        HeadOf(cursors, top.value);
        ghost var before := set p | p in pending && p.0 == sequence;
        assert top.value in before;
        pending := pending - {top.value};
        if cursors[duplicate].value.current != canonical {
          Disagrees(validate, header, sources, cursors, taken, duplicate, canonical);
          return Err(InvalidInput);
        }
        Absorbs(validate, header, sources, cursors, taken, duplicate, out);
        var advanced := Advance(duplicate, calm);
        if advanced.Err? {
          return Err(advanced.error);
        }
        top := Peek();
      }
      NoneLeft(cursors, sequence, top);
      r := Ok(());
    }

    /**
     The next line of the merge, or None at the end. Any refusal means that some source is not well formed or that
     two sources disagree; the guard against repeating a sequence never answers.
     */
    method NextEvent(calm: bool, ghost out: seq<Bytes>) returns (r: Result<Option<Bytes>, ExportError>)
      requires Rests(out)
      modifies this
      ensures r == Ok(None) ==>
                AllWellFormed(validate, header, sources) && Agree(validate, sources)
                && SortedUnion(validate, sources, out)
      ensures r.Ok? && r.value.Some? ==>
        && |r.value.value| > 0
        && var line := r.value.value[..|r.value.value| - 1];
           r.value.value == line + [NEWLINE] && line in AllEvents(sources) && line !in out && Rests(out + [line])
      ensures r.Err? ==>
                !AllWellFormed(validate, header, sources) || !Agree(validate, sources) || (!calm && Interrupted(r))
      ensures r != Err(NotAfterPrevious)
    {
      hide Tracks, WellFormed, Heads, EventLines, Emitted, Good, SortedUnion, AllEvents, Agree, AllWellFormed;
      var top := Peek();
      if top.None? {
        AllEmitted(validate, header, sources, cursors, taken, out);
        return Ok(None);
      }
      var (sequence, first) := top.value;
      HeadOf(cursors, top.value);
      NoneBefore(cursors, top.value);
      pending := pending - {top.value};
      var cancelled := Disturbed(calm);
      if cancelled {
        return Err(Cancelled);
      }
      if last.Some? && sequence <= last.value {
        return Err(NotAfterPrevious);
      }
      var canonical := cursors[first].value.current;
      Emits(validate, header, sources, cursors, taken, last, out, first);
      var advanced := Advance(first, calm);
      if advanced.Err? {
        return Err(advanced.error);
      }
      advanced := DropDuplicates(sequence, canonical, calm, out + [canonical]);
      if advanced.Err? {
        return Err(advanced.error);
      }
      last := Some(sequence);
      assert (canonical + [NEWLINE])[..|canonical|] == canonical;
      r := Ok(Some(canonical + [NEWLINE]));
    }
  }

  ghost function AllEvents(sources: seq<Source>): set<Bytes> {
    set i, x | 0 <= i < |sources| && x in EventLines(sources[i]) :: x
  }

  lemma NoneBefore(cursors: seq<Option<Cursor>>, least: (nat, nat))
    requires forall p :: p in Heads(cursors) ==> !Before(p, least)
    ensures forall i :: 0 <= i < |cursors| && cursors[i].Some? ==> least.0 <= cursors[i].value.sequence
  {
    forall i | 0 <= i < |cursors| && cursors[i].Some?
      ensures least.0 <= cursors[i].value.sequence
    {
      HeadOf(cursors, (cursors[i].value.sequence, i));
    }
  }

  lemma NoneLeft(cursors: seq<Option<Cursor>>, sequence: nat, top: Option<(nat, nat)>)
    requires IsTop(Heads(cursors), top) && (top.Some? ==> top.value.0 != sequence)
    requires forall i :: 0 <= i < |cursors| && cursors[i].Some? ==> sequence <= cursors[i].value.sequence
    ensures forall i :: 0 <= i < |cursors| && cursors[i].Some? ==> sequence < cursors[i].value.sequence
  {
    forall i | 0 <= i < |cursors| && cursors[i].Some?
      ensures sequence < cursors[i].value.sequence
    {
      HeadOf(cursors, (cursors[i].value.sequence, i));
      HeadOf(cursors, top.value);
    }
  }

  lemma Emits(validate: Validator, header: Bytes -> bool, sources: seq<Source>, cursors: seq<Option<Cursor>>,
              taken: seq<nat>, last: Option<nat>, out: seq<Bytes>, a: nat)
    requires Following(validate, header, sources, cursors, taken) && Emitted(validate, sources, taken, out)
    requires Beyond(validate, cursors, last, out) && a < |cursors| && cursors[a].Some?
    ensures var x := cursors[a].value.current;
            && Emitted(validate, sources, taken[a := taken[a] + 1], out + [x]) && x in AllEvents(sources) && x !in out
            && validate(x) == Some(cursors[a].value.sequence)
  {
    hide Tracks, EventLines, Good;
    var c := cursors[a].value;
    CursorFacts(validate, header, sources[a], c, taken[a]);
    GoodGrows(validate, out, last, c.current, c.sequence);
    EmittedGrows(validate, sources, taken, out, a, out + [c.current]);
  }

  lemma Absorbs(validate: Validator, header: Bytes -> bool, sources: seq<Source>, cursors: seq<Option<Cursor>>,
                taken: seq<nat>, a: nat, out: seq<Bytes>)
    requires Following(validate, header, sources, cursors, taken) && Emitted(validate, sources, taken, out)
    requires a < |cursors| && cursors[a].Some? && cursors[a].value.current in out
    ensures Emitted(validate, sources, taken[a := taken[a] + 1], out)
  {
    hide Tracks, EventLines, Good;
    CursorFacts(validate, header, sources[a], cursors[a].value, taken[a]);
    EmittedGrows(validate, sources, taken, out, a, out);
  }

  lemma Disagrees(validate: Validator, header: Bytes -> bool, sources: seq<Source>, cursors: seq<Option<Cursor>>,
                  taken: seq<nat>, a: nat, x: Bytes)
    requires Following(validate, header, sources, cursors, taken) && a < |cursors| && cursors[a].Some?
    requires x in AllEvents(sources) && validate(x) == Some(cursors[a].value.sequence) && cursors[a].value.current != x
    ensures !Agree(validate, sources)
  {
    hide Tracks, EventLines;
    CursorFacts(validate, header, sources[a], cursors[a].value, taken[a]);
    var i :| 0 <= i < |sources| && x in EventLines(sources[i]);
    assert cursors[a].value.current in EventLines(sources[a]);
  }

  lemma HeadsAppend(cursors: seq<Option<Cursor>>, cursor: Option<Cursor>)
    ensures Heads(cursors + [cursor])
            == Heads(cursors) + (if cursor.Some? then {(cursor.value.sequence, |cursors|)} else {})
  {
    var after := cursors + [cursor];
    forall p
      ensures p in Heads(after) <==>
              p in Heads(cursors) + (if cursor.Some? then {(cursor.value.sequence, |cursors|)} else {})
    {
      HeadOf(cursors, p);
      HeadOf(after, p);
    }
  }

  /** All sorted unions of the same sources are one sequence, so the merged file is determined by its sources. */
  lemma UnionIsUnique(validate: Validator, sources: seq<Source>, a: seq<Bytes>, b: seq<Bytes>)
    requires SortedUnion(validate, sources, a) && SortedUnion(validate, sources, b)
    ensures a == b
  {
    hide Good, EventLines;
    assert forall x :: x in a <==> x in b;
    assert Elements(a) == Elements(b);
    GoodIsUnique(validate, a, b);
  }

  /**
   Draining the merge. It succeeds with the lines of the sorted union, or it is refused: undisturbed, it succeeds
   exactly when every source is well formed and the sources agree.
   */
  method MergeAll(validate: Validator, header: Bytes -> bool, sources: seq<Source>, calm: bool)
    returns (r: Result<Bytes, ExportError>, ghost out: seq<Bytes>)
    ensures r.Ok? ==>
      && AllWellFormed(validate, header, sources) && Agree(validate, sources)
      && SortedUnion(validate, sources, out) && r.value == Join(out)
    ensures r.Err? ==>
              !AllWellFormed(validate, header, sources) || !Agree(validate, sources) || (!calm && Interrupted(r))
    ensures r != Err(NotAfterPrevious)
  {
    hide AllWellFormed, Agree, SortedUnion, Following, Emitted, AllEvents;
    var file: Bytes := [];
    out := [];
    NothingJoined();
    var merge := new Merge(validate, header, sources);
    var started := merge.Start(calm);
    if started.Err? {
      return Err(started.error), out;
    }
    while true
      invariant merge.Rests(out) && file == Join(out)
      invariant merge.validate == validate && merge.header == header && merge.sources == sources
      decreases AllEvents(sources) - Elements(out)
    {
      var next := merge.NextEvent(calm, out);
      if next.Err? {
        return Err(next.error), out;
      }
      if next.value.None? {
        return Ok(file), out;
      }
      var bytes := next.value.value;
      ghost var line := bytes[..|bytes| - 1];
      JoinSnoc(out, line);
      assert Elements(out + [line]) == Elements(out) + {line};
      assert line in AllEvents(sources) - Elements(out);
      file, out := file + bytes, out + [line];
    }
  }

  lemma JoinSnoc(lines: seq<Bytes>, line: Bytes)
    ensures Join(lines + [line]) == Join(lines) + (line + [NEWLINE])
  {
    JoinAppend(lines, [line]);
    JoinFirst(line, []);
    assert [line] + [] == [line];
    assert Join([line]) == line + [NEWLINE];
  }
}
