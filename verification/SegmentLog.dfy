/**
 The rotating segment log: `SegmentWriter` of `wokcore-diagnostics/src/segment.rs`.

 The directory is its listing in name order; names are zero padded, so that is index order. A failed
 append leaves any prefix of its bytes on disk, a failed creation may or may not leave the empty
 file, and a crash is a new writer on the directory as it stands. Storage may fail at every operation
 unless the caller says it is calm.
 */
module SegmentLog {
  import opened Prelude
  import opened SegmentScan
  import opened TextLines

  datatype Segment = Segment(index: nat, bytes: Bytes)

  /** A prepared event: what its encoding decodes to, and the encoding. */
  datatype Event = Event(header: Header, encoded: Bytes)

  // The directory.

  function DiskLines(segments: seq<Segment>): seq<Bytes> {
    if segments == [] then [] else DiskLines(segments[..|segments| - 1]) + Lines(segments[|segments| - 1].bytes)
  }

  /** Every line decodes, and sequences strictly increase. */
  ghost predicate Ordered(decode: Decoder, lines: seq<Bytes>) {
    && (forall i :: 0 <= i < |lines| ==> decode(lines[i]).Some?)
    && (forall i, j :: 0 <= i < j < |lines| ==> decode(lines[i]).value.sequence < decode(lines[j]).value.sequence)
  }

  ghost predicate Closed(segment: Segment) {
    Tail(segment.bytes) == [] && Lines(segment.bytes) != []
  }

  /** What every directory the writer produces satisfies. */
  ghost predicate Sound(decode: Decoder, limit: nat, segments: seq<Segment>) {
    && Ordered(decode, DiskLines(segments))
    && (forall k :: 0 <= k < |segments| ==> |segments[k].bytes| <= limit)
    && (forall k :: 0 <= k < |segments| - 1 ==> Closed(segments[k]))
    && (forall j, k :: 0 <= j < k < |segments| ==> segments[j].index < segments[k].index)
  }

  function Last(decode: Decoder, lines: seq<Bytes>): Option<Header> {
    if lines == [] then None else decode(lines[|lines| - 1])
  }

  function First(decode: Decoder, lines: seq<Bytes>): Option<nat> {
    if lines == [] || decode(lines[0]).None? then None else Some(decode(lines[0]).value.sequence)
  }

  /** On ordered lines followed by a torn tail the scan reports all the lines and stops at the tail. */
  lemma ScanOfOrdered(decode: Decoder, b: Bytes)
    requires BoundedDecoder(decode) && Ordered(decode, Lines(b))
    ensures var scan := ScanOf(decode, b);
            && scan.validLen == |b| - |Tail(b)| && b[..scan.validLen] == Join(Lines(b))
            && scan.first == First(decode, Lines(b)) && scan.last == Last(decode, Lines(b))
            && (scan.status.Complete? <==> Tail(b) == [])
  {
    LinesRoundTrip(b);
    ScanOfSuffix(decode, b, 0, None, None);
    assert b[0..] == b;
    StatusMeaning(decode, MAX_PREPARED_EVENT_BYTES, b, 0, None, None);
  }

  lemma OrderedTail(decode: Decoder, line: Bytes, rest: seq<Bytes>)
    requires Ordered(decode, [line] + rest)
    ensures decode(line).Some? && Ordered(decode, rest)
    ensures rest != [] ==> decode(line).value.sequence < decode(rest[0]).value.sequence
    ensures Last(decode, [line] + rest) == if rest == [] then decode(line) else Last(decode, rest)
  {
    var lines := [line] + rest;
    assert lines[0] == line;
    forall i | 0 <= i < |rest|
      ensures decode(rest[i]).Some?
    {
      assert rest[i] == lines[i + 1];
    }
    forall i, j | 0 <= i < j < |rest|
      ensures decode(rest[i]).value.sequence < decode(rest[j]).value.sequence
    {
      assert rest[i] == lines[i + 1] && rest[j] == lines[j + 1];
    }
    if rest != [] {
      assert rest[0] == lines[1];
    }
  }

  lemma {:induction false} ScanOfSuffix(decode: Decoder, b: Bytes, at: nat, first: Option<nat>, last: Option<Header>)
    requires at <= |b| && BoundedDecoder(decode) && Ordered(decode, Lines(b[at..]))
    requires last.Some? && Lines(b[at..]) != [] ==> last.value.sequence < decode(Lines(b[at..])[0]).value.sequence
    ensures var scan := ScanFrom(decode, MAX_PREPARED_EVENT_BYTES, b, at, first, last);
            && scan.validLen == |b| - |Tail(b[at..])|
            && scan.first == (if first.Some? then first else First(decode, Lines(b[at..])))
            && scan.last == (if Lines(b[at..]) == [] then last else Last(decode, Lines(b[at..])))
    decreases |b| - at
  {
    hide Lines, Tail, Ordered, Last;
    var end := NextNewline(b, at);
    SuffixLines(b, at);
    if end < |b| {
      var line := b[at..end];
      OrderedTail(decode, line, Lines(b[end + 1..]));
      ScanOfSuffix(decode, b, end + 1, if first.Some? then first else Some(decode(line).value.sequence), decode(line));
    }
  }

  // Steps of the directory.

  function WithLast(segments: seq<Segment>, bytes: Bytes): (after: seq<Segment>)
    requires segments != []
    ensures |after| == |segments|
  {
    segments[..|segments| - 1] + [segments[|segments| - 1].(bytes := bytes)]
  }

  function LastBytes(segments: seq<Segment>): Bytes
    requires segments != []
  {
    segments[|segments| - 1].bytes
  }

  lemma DiskLinesSnoc(segments: seq<Segment>, segment: Segment)
    ensures DiskLines(segments + [segment]) == DiskLines(segments) + Lines(segment.bytes)
  {
    assert (segments + [segment])[..|segments|] == segments;
  }

  lemma DiskLinesWithLast(segments: seq<Segment>, bytes: Bytes)
    requires segments != []
    ensures DiskLines(WithLast(segments, bytes)) == DiskLines(segments[..|segments| - 1]) + Lines(bytes)
  {
    assert WithLast(segments, bytes)[..|segments| - 1] == segments[..|segments| - 1];
  }

  /** Any prefix of an append keeps the directory sound and adds a prefix of the appended lines. */
  lemma AppendIsSound(decode: Decoder, limit: nat, segments: seq<Segment>, lines: seq<Bytes>, torn: Bytes)
    requires segments != [] && Sound(decode, limit, segments) && Tail(LastBytes(segments)) == []
    requires NoNewlines(lines) && torn <= Join(lines) && Ordered(decode, DiskLines(segments) + lines)
    requires |LastBytes(segments)| + |torn| <= limit
    ensures Lines(torn) <= lines
    ensures var after := WithLast(segments, LastBytes(segments) + torn);
            && Sound(decode, limit, after)
            && DiskLines(after) == DiskLines(segments) + Lines(torn)
            && Tail(LastBytes(after)) == Tail(torn)
  {
    hide Lines, Tail, Join, Ordered, DiskLines, Closed;
    TornLines(lines, torn);
    AppendedLines(segments, torn);
    var before, k := DiskLines(segments), |Lines(torn)|;
    assert before + Lines(torn) == (before + lines)[..|before| + k];
    OrderedPrefix(decode, before + lines, |before| + k);
    var n, after := |segments|, WithLast(segments, LastBytes(segments) + torn);
    assert forall j :: 0 <= j < n ==> after[j].index == segments[j].index && (j < n - 1 ==> after[j] == segments[j]);
  }

  lemma AppendedLines(segments: seq<Segment>, torn: Bytes)
    requires segments != [] && Tail(LastBytes(segments)) == []
    ensures var after := WithLast(segments, LastBytes(segments) + torn);
            DiskLines(after) == DiskLines(segments) + Lines(torn) && Tail(LastBytes(after)) == Tail(torn)
  {
    hide Lines, Tail, DiskLines;
    var b := LastBytes(segments);
    LinesAppend(b, torn);
    DiskLinesWithLast(segments, b + torn);
    DiskLinesWithLast(segments, b);
    assert WithLast(segments, b) == segments;
    Regroup(DiskLines(segments[..|segments| - 1]), Lines(b), Lines(torn));
  }

  lemma OrderedPrefix(decode: Decoder, lines: seq<Bytes>, n: nat)
    requires Ordered(decode, lines) && n <= |lines|
    ensures Ordered(decode, lines[..n])
  {
  }

  lemma RotateIsSound(decode: Decoder, limit: nat, segments: seq<Segment>, index: nat)
    requires Sound(decode, limit, segments)
    requires segments != [] ==> Closed(segments[|segments| - 1]) && segments[|segments| - 1].index < index
    ensures Sound(decode, limit, segments + [Segment(index, [])])
    ensures DiskLines(segments + [Segment(index, [])]) == DiskLines(segments)
  {
    hide Lines, Tail, Ordered, DiskLines, Closed;
    var n, after := |segments|, segments + [Segment(index, [])];
    DiskLinesSnoc(segments, Segment(index, []));
    NoLines();
    assert DiskLines(after) == DiskLines(segments);
    forall k | 0 <= k < n
      ensures Closed(after[k])
    {
      assert after[k] == segments[k];
    }
    forall j, k | 0 <= j < k < |after|
      ensures after[j].index < after[k].index
    {
      assert after[j] == segments[j];
      assert k < n ==> after[k] == segments[k];
    }
  }

  /** Cutting the torn tail off the last segment changes no line. */
  function Repaired(segments: seq<Segment>): (after: seq<Segment>)
    ensures after != []
  {
    if segments == [] then [Segment(1, [])]
    else WithLast(segments, LastBytes(segments)[..|LastBytes(segments)| - |Tail(LastBytes(segments))|])
  }

  lemma RepairIsSound(decode: Decoder, limit: nat, segments: seq<Segment>)
    requires Sound(decode, limit, segments)
    ensures var after := Repaired(segments);
            && Sound(decode, limit, after) && DiskLines(after) == DiskLines(segments)
            && Tail(LastBytes(after)) == []
  {
    hide Lines, Tail, Join, Ordered, DiskLines, Closed;
    if segments == [] {
      RotateIsSound(decode, limit, [], 1);
      NoLines();
      assert [] + [Segment(1, [])] == [Segment(1, [])];
    } else {
      var b := LastBytes(segments);
      TailLength(b);
      DiskLinesWithLast(segments, Join(Lines(b)));
      DiskLinesWithLast(segments, b);
      assert WithLast(segments, b) == segments;
    }
  }

  lemma NoLines()
    ensures Lines([]) == [] && Tail([]) == [] && DiskLines([]) == []
  {
  }

  lemma {:induction false} DiskLinesSplit(a: seq<Segment>, b: seq<Segment>)
    ensures DiskLines(a + b) == DiskLines(a) + DiskLines(b)
  {
    if b == [] {
      assert a + b == a;
    } else {
      hide Lines;
      var n := |b| - 1;
      assert (a + b)[..|a + b| - 1] == a + b[..n] && (a + b)[|a + b| - 1] == b[n];
      DiskLinesSplit(a, b[..n]);
      Regroup(DiskLines(a), DiskLines(b[..n]), Lines(b[n].bytes));
    }
  }

  lemma DiskLinesAround(segments: seq<Segment>, k: nat)
    requires k < |segments|
    ensures DiskLines(segments) == DiskLines(segments[..k]) + Lines(segments[k].bytes) + DiskLines(segments[k + 1..])
    ensures DiskLines(segments[..k] + segments[k + 1..]) == DiskLines(segments[..k]) + DiskLines(segments[k + 1..])
  {
    hide Lines, DiskLines;
    var a, b := segments[..k], segments[k + 1..];
    SplitAround(segments, 0, k);
    DiskLinesSnoc(a, segments[k]);
    DiskLinesSplit(a + [segments[k]], b);
    DiskLinesSplit(a, b);
  }

  /** Retention takes a closed segment away: the other lines stay, in order. */
  lemma RetireIsSound(decode: Decoder, limit: nat, segments: seq<Segment>, k: nat)
    requires Sound(decode, limit, segments) && k < |segments| - 1
    ensures Sound(decode, limit, segments[..k] + segments[k + 1..])
    ensures DiskLines(segments) == DiskLines(segments[..k]) + Lines(segments[k].bytes) + DiskLines(segments[k + 1..])
    ensures DiskLines(segments[..k] + segments[k + 1..]) == DiskLines(segments[..k]) + DiskLines(segments[k + 1..])
  {
    hide Lines, Tail, Ordered, DiskLines, Closed, Sound;
    DiskLinesAround(segments, k);
    SoundLines(decode, limit, segments);
    OrderedGap(decode, DiskLines(segments[..k]), Lines(segments[k].bytes), DiskLines(segments[k + 1..]));
    RetireKeepsShape(decode, limit, segments, k);
  }

  lemma SoundLines(decode: Decoder, limit: nat, segments: seq<Segment>)
    requires Sound(decode, limit, segments)
    ensures Ordered(decode, DiskLines(segments))
  {
  }

  lemma RetireKeepsShape(decode: Decoder, limit: nat, segments: seq<Segment>, k: nat)
    requires Sound(decode, limit, segments) && k < |segments| - 1
    requires Ordered(decode, DiskLines(segments[..k] + segments[k + 1..]))
    ensures Sound(decode, limit, segments[..k] + segments[k + 1..])
  {
    hide Ordered, DiskLines, Closed;
    var after := segments[..k] + segments[k + 1..];
    assert forall i :: 0 <= i < |after| ==> after[i] == segments[if i < k then i else i + 1];
  }

  lemma OrderedGap(decode: Decoder, a: seq<Bytes>, b: seq<Bytes>, c: seq<Bytes>)
    requires Ordered(decode, a + b + c)
    ensures Ordered(decode, a + c)
  {
    var all, gap := a + b + c, a + c;
    assert forall i :: 0 <= i < |gap| ==> gap[i] == all[if i < |a| then i else i + |b|];
  }

  // Recovery.

  datatype RecoveryReport = RecoveryReport(truncated: nat, active: nat, last: Option<Header>)

  /** A segment may be followed by another only when it is complete, non-empty and below it. */
  predicate Follows(previous: Scan, scan: Scan) {
    && previous.status.Complete? && previous.last.Some?
    && (scan.first.Some? ==> previous.last.value.sequence < scan.first.value)
  }

  ghost predicate Recoverable(decode: Decoder, limit: nat, segments: seq<Segment>) {
    && (forall k :: 0 <= k < |segments| ==> |segments[k].bytes| <= limit)
    && forall k :: 0 < k < |segments| ==>
         Follows(ScanOf(decode, segments[k - 1].bytes), ScanOf(decode, segments[k].bytes))
  }

  lemma ScanBounds(decode: Decoder, b: Bytes)
    ensures ScanOf(decode, b).validLen <= |b|
  {
    StatusMeaning(decode, MAX_PREPARED_EVENT_BYTES, b, 0, None, None);
  }

  /** The directory after recovery: the last segment cut to the valid length of its scan. */
  function Cut(decode: Decoder, segments: seq<Segment>): seq<Segment> {
    if segments == [] then [Segment(1, [])]
    else
      var b := LastBytes(segments);
      ScanBounds(decode, b);
      WithLast(segments, b[..ScanOf(decode, b).validLen])
  }

  function RecoveredLast(decode: Decoder, segments: seq<Segment>): Option<Header> {
    if segments == [] then None
    else
      var last := ScanOf(decode, LastBytes(segments)).last;
      if last.Some? || |segments| == 1 then last else ScanOf(decode, segments[|segments| - 2].bytes).last
  }

  lemma OrderedMiddle(decode: Decoder, a: seq<Bytes>, b: seq<Bytes>, c: seq<Bytes>)
    requires Ordered(decode, a + b + c)
    ensures Ordered(decode, b)
  {
    var all := a + b + c;
    assert forall i :: 0 <= i < |b| ==> b[i] == all[|a| + i];
  }

  lemma OrderedSegment(decode: Decoder, segments: seq<Segment>, k: nat)
    requires k < |segments| && Ordered(decode, DiskLines(segments))
    ensures Ordered(decode, Lines(segments[k].bytes))
  {
    hide Lines, DiskLines, Ordered;
    DiskLinesAround(segments, k);
    OrderedMiddle(decode, DiskLines(segments[..k]), Lines(segments[k].bytes), DiskLines(segments[k + 1..]));
  }

  lemma OrderedNeighbours(decode: Decoder, segments: seq<Segment>, k: nat)
    requires 0 < k < |segments| && Ordered(decode, DiskLines(segments))
    ensures Ordered(decode, Lines(segments[k - 1].bytes) + Lines(segments[k].bytes))
  {
    hide Lines, DiskLines, Ordered;
    var a, x, y := segments[..k - 1], segments[k - 1], segments[k];
    SplitAround(segments, 0, k);
    SplitAround(segments[..k], 0, k - 1);
    assert segments[..k] == a + [x];
    DiskLinesSnoc(a, x);
    DiskLinesAround(segments, k);
    var p, q, r, t := DiskLines(a), Lines(x.bytes), Lines(y.bytes), DiskLines(segments[k + 1..]);
    assert p + q + r + t == p + (q + r) + t;
    OrderedMiddle(decode, p, q + r, t);
  }

  lemma OrderedAcross(decode: Decoder, a: seq<Bytes>, b: seq<Bytes>)
    requires Ordered(decode, a + b) && a != [] && b != []
    ensures decode(a[|a| - 1]).Some? && decode(b[0]).Some?
    ensures decode(a[|a| - 1]).value.sequence < decode(b[0]).value.sequence
  {
    var all := a + b;
    assert all[|a| - 1] == a[|a| - 1] && all[|a|] == b[0];
  }

  lemma SoundFacts(decode: Decoder, limit: nat, segments: seq<Segment>)
    requires Sound(decode, limit, segments)
    ensures Ordered(decode, DiskLines(segments)) && forall k :: 0 <= k < |segments| ==> |segments[k].bytes| <= limit
    ensures forall k :: 0 <= k < |segments| - 1 ==> Closed(segments[k])
  {
    hide Ordered, DiskLines, Closed;
  }

  lemma NeighboursFollow(decode: Decoder, segments: seq<Segment>, k: nat)
    requires BoundedDecoder(decode) && Ordered(decode, DiskLines(segments)) && 0 < k < |segments|
    requires Closed(segments[k - 1])
    ensures Follows(ScanOf(decode, segments[k - 1].bytes), ScanOf(decode, segments[k].bytes))
  {
    hide Lines, Tail, Ordered, ScanOf, DiskLines, BoundedDecoder;
    OrderedSegment(decode, segments, k - 1);
    OrderedSegment(decode, segments, k);
    ScanOfOrdered(decode, segments[k - 1].bytes);
    ScanOfOrdered(decode, segments[k].bytes);
    OrderedNeighbours(decode, segments, k);
    if Lines(segments[k].bytes) != [] {
      OrderedAcross(decode, Lines(segments[k - 1].bytes), Lines(segments[k].bytes));
    } else {
      LastLine(decode, segments[k - 1].bytes);
    }
  }

  /** Recovery never rejects a directory the writer produced, cuts only the torn tail and finds the last event. */
  lemma SoundIsRecoverable(decode: Decoder, limit: nat, segments: seq<Segment>)
    requires BoundedDecoder(decode) && Sound(decode, limit, segments)
    ensures Recoverable(decode, limit, segments)
    ensures Cut(decode, segments) == Repaired(segments)
    ensures RecoveredLast(decode, segments) == Last(decode, DiskLines(segments))
  {
    hide Lines, Tail, Ordered, ScanOf, DiskLines, Follows, Sound, BoundedDecoder, RecoveredLast, Last;
    SoundFacts(decode, limit, segments);
    forall k | 0 < k < |segments|
      ensures Follows(ScanOf(decode, segments[k - 1].bytes), ScanOf(decode, segments[k].bytes))
    {
      NeighboursFollow(decode, segments, k);
    }
    if segments != [] {
      OrderedSegment(decode, segments, |segments| - 1);
      ScanOfOrdered(decode, LastBytes(segments));
      LastOfDisk(decode, limit, segments);
    } else {
      NothingRecovered(decode);
    }
  }

  lemma NothingRecovered(decode: Decoder)
    ensures RecoveredLast(decode, []) == Last(decode, DiskLines([]))
  {
  }

  lemma LastLine(decode: Decoder, b: Bytes)
    requires Ordered(decode, Lines(b)) && Lines(b) != []
    ensures Last(decode, Lines(b)).Some?
  {
  }

  lemma LastOfDisk(decode: Decoder, limit: nat, segments: seq<Segment>)
    requires BoundedDecoder(decode) && Sound(decode, limit, segments) && segments != []
    ensures RecoveredLast(decode, segments) == Last(decode, DiskLines(segments))
  {
    hide Tail, Ordered, ScanOf, Lines, DiskLines, Last;
    var n := |segments|;
    var final := LastBytes(segments);
    OrderedSegment(decode, segments, n - 1);
    ScanOfOrdered(decode, final);
    LastOfSnoc(decode, segments);
    NoLast(decode);
    if Lines(final) != [] {
      LastLine(decode, final);
    } else if n > 1 {
      OrderedSegment(decode, segments, n - 2);
      ScanOfOrdered(decode, segments[n - 2].bytes);
      assert Closed(segments[n - 2]);
      LastOfSnoc(decode, segments[..n - 1]);
      LastLine(decode, segments[n - 2].bytes);
    } else {
      NoLines();
      assert segments[..0] == [];
    }
  }

  lemma LastOfSnoc(decode: Decoder, segments: seq<Segment>)
    requires segments != []
    ensures var lines := Lines(LastBytes(segments));
            Last(decode, DiskLines(segments))
            == if lines == [] then Last(decode, DiskLines(segments[..|segments| - 1])) else Last(decode, lines)
  {
    hide Lines, DiskLines, Last;
    var n := |segments| - 1;
    assert segments == segments[..n] + [segments[n]];
    DiskLinesSnoc(segments[..n], segments[n]);
    LastOfAppend(decode, DiskLines(segments[..n]), Lines(LastBytes(segments)));
  }

  lemma LastOfAppend(decode: Decoder, a: seq<Bytes>, b: seq<Bytes>)
    ensures Last(decode, a + b) == if b == [] then Last(decode, a) else Last(decode, b)
  {
    assert b == [] ==> a + b == a;
  }

  lemma NoLast(decode: Decoder)
    ensures Last(decode, []) == None
  {
  }

  // Where the lines of a batch go.

  /** A line goes to the last segment if it fits there, and to a new one otherwise. */
  function Placed(limit: nat, segments: seq<Segment>, line: Bytes): (after: seq<Segment>)
    requires segments != []
    ensures after != []
  {
    if |LastBytes(segments)| + |line| + 1 > limit then
      segments + [Segment(segments[|segments| - 1].index + 1, line + [NEWLINE])]
    else WithLast(segments, LastBytes(segments) + (line + [NEWLINE]))
  }

  function Spread(limit: nat, segments: seq<Segment>, lines: seq<Bytes>): (after: seq<Segment>)
    requires segments != []
    ensures after != []
  {
    if lines == [] then segments
    else Placed(limit, Spread(limit, segments, lines[..|lines| - 1]), lines[|lines| - 1])
  }

  /** All of `whole` but some end of its last segment. */
  ghost predicate Partial(part: seq<Segment>, whole: seq<Segment>) {
    && part != [] && |part| == |whole| && part[..|part| - 1] == whole[..|whole| - 1]
    && part[|part| - 1].index == whole[|whole| - 1].index && LastBytes(part) <= LastBytes(whole)
  }

  /** From segment `from` on: within the limit, and each next one begins with a line that did not fit. */
  ghost predicate Packed(limit: nat, segments: seq<Segment>, from: nat) {
    && (forall j :: from <= j < |segments| ==> |segments[j].bytes| <= limit && Tail(segments[j].bytes) == [])
    && forall j :: from <= j < |segments| - 1 ==> Overflows(limit, segments[j], segments[j + 1])
  }

  ghost predicate Overflows(limit: nat, segment: Segment, next: Segment) {
    && next.index == segment.index + 1
    && Lines(next.bytes) != [] && |segment.bytes| + |Lines(next.bytes)[0]| + 1 > limit
  }

  /**
   The closed segments stay, and the last one grows. No segment is added exactly when everything fits the last one.
   A segment is closed only when the first line of the next one does not fit it any more, and none is left empty.
   */
  lemma {:induction false} SpreadIsPacked(limit: nat, segments: seq<Segment>, lines: seq<Bytes>)
    requires segments != [] && Tail(LastBytes(segments)) == [] && |LastBytes(segments)| <= limit
    requires NoNewlines(lines) && forall i :: 0 <= i < |lines| ==> |lines[i]| + 1 <= limit
    ensures var after, n := Spread(limit, segments, lines), |segments| - 1;
            && |segments| <= |after| && after[..n] == segments[..n] && after[n].index == segments[n].index
            && segments[n].bytes <= after[n].bytes && Packed(limit, after, n)
            && (|after| == |segments| ==> LastBytes(after) == LastBytes(segments) + Join(lines))
            && (|after| == |segments| <==> |LastBytes(segments)| + |Join(lines)| <= limit)
    decreases |lines|
  {
    hide Lines, Tail, Join;
    var after, n := Spread(limit, segments, lines), |segments| - 1;
    if lines == [] {
      NothingJoined();
      assert LastBytes(segments) + [] == LastBytes(segments);
    } else {
      var m := |lines| - 1;
      var rest, line := lines[..m], lines[m];
      SpreadIsPacked(limit, segments, rest);
      var earlier := Spread(limit, segments, rest);
      assert lines[..m + 1] == lines;
      JoinGrows(lines, m);
      JoinSnoc(rest, line);
      assert lines == rest + [line];
      LineAlone(line);
      if |LastBytes(earlier)| + |line| + 1 > limit {
        PackedGrows(limit, earlier, n, line);
      } else {
        LastGrows(limit, earlier, n, line);
        Regroup(LastBytes(segments), Join(rest), line + [NEWLINE]);
      }
    }
  }

  lemma JoinSnoc(lines: seq<Bytes>, line: Bytes)
    ensures Join(lines + [line]) == Join(lines) + (line + [NEWLINE])
  {
    JoinAppend(lines, [line]);
    JoinFirst(line, []);
    NothingJoined();
    assert [line] + [] == [line];
    assert line + [NEWLINE] + [] == line + [NEWLINE];
  }

  lemma LineAlone(line: Bytes)
    requires NEWLINE !in line
    ensures Lines(line + [NEWLINE]) == [line] && Tail(line + [NEWLINE]) == []
  {
    assert line + [NEWLINE] + [] == line + [NEWLINE];
    FirstLine(line + [NEWLINE], line, []);
    NoLines();
  }

  lemma PackedGrows(limit: nat, segments: seq<Segment>, from: nat, line: Bytes)
    requires from < |segments| && Packed(limit, segments, from) && NEWLINE !in line && |line| + 1 <= limit
    requires |LastBytes(segments)| + |line| + 1 > limit
    ensures Packed(limit, Placed(limit, segments, line), from)
  {
    hide Lines, Tail;
    LineAlone(line);
    var after := Placed(limit, segments, line);
    forall j | from <= j < |after| - 1
      ensures Overflows(limit, after[j], after[j + 1])
    {
      if j < |segments| - 1 {
        assert Overflows(limit, segments[j], segments[j + 1]);
      }
    }
  }

  lemma LastGrows(limit: nat, segments: seq<Segment>, from: nat, line: Bytes)
    requires from < |segments| && Packed(limit, segments, from) && NEWLINE !in line
    requires |LastBytes(segments)| + |line| + 1 <= limit
    ensures Packed(limit, Placed(limit, segments, line), from)
  {
    hide Lines, Tail;
    LineAlone(line);
    LinesAppend(LastBytes(segments), line + [NEWLINE]);
    var after := Placed(limit, segments, line);
    forall j | from <= j < |after| - 1
      ensures Overflows(limit, after[j], after[j + 1])
    {
      assert Overflows(limit, segments[j], segments[j + 1]);
    }
  }

  /** With the pending bytes appended, the directory holds the first `i` lines where they belong. */
  ghost predicate Spreading(limit: nat, base: seq<Segment>, segments: seq<Segment>, lines: seq<Bytes>, i: nat,
                            pending: Bytes) {
    && base != [] && segments != [] && i <= |lines|
    && WithLast(segments, LastBytes(segments) + pending) == Spread(limit, base, lines[..i])
  }

  lemma SpreadingStarts(limit: nat, segments: seq<Segment>, lines: seq<Bytes>)
    requires segments != []
    ensures Spreading(limit, segments, segments, lines, 0, [])
  {
    assert LastBytes(segments) + [] == LastBytes(segments);
    assert WithLast(segments, LastBytes(segments)) == segments;
  }

  lemma SpreadingPush(limit: nat, base: seq<Segment>, segments: seq<Segment>, lines: seq<Bytes>, i: nat, pending: Bytes)
    requires Spreading(limit, base, segments, lines, i, pending) && i < |lines|
    requires |LastBytes(segments)| + |pending| + |lines[i]| + 1 <= limit
    ensures Spreading(limit, base, segments, lines, i + 1, pending + lines[i] + [NEWLINE])
  {
    assert lines[..i + 1][..i] == lines[..i];
    Regroup(LastBytes(segments), pending, lines[i] + [NEWLINE]);
    Regroup(pending, lines[i], [NEWLINE]);
  }

  lemma SpreadingRotate(limit: nat, base: seq<Segment>, segments: seq<Segment>, lines: seq<Bytes>, i: nat,
                        pending: Bytes)
    requires Spreading(limit, base, segments, lines, i, pending) && i < |lines|
    requires |LastBytes(segments)| + |pending| + |lines[i]| + 1 > limit
    ensures var rotated := WithLast(segments, LastBytes(segments) + pending)
                           + [Segment(segments[|segments| - 1].index + 1, [])];
            && Spreading(limit, base, rotated, lines, i + 1, [] + lines[i] + [NEWLINE])
            && Partial(rotated, Spread(limit, base, lines[..i + 1]))
  {
    assert lines[..i + 1][..i] == lines[..i];
    assert [] + lines[i] == lines[i];
    assert [] + (lines[i] + [NEWLINE]) == lines[i] + [NEWLINE];
  }

  lemma SpreadingIsPartial(limit: nat, base: seq<Segment>, segments: seq<Segment>, lines: seq<Bytes>, i: nat,
                           pending: Bytes, torn: Bytes)
    requires Spreading(limit, base, segments, lines, i, pending) && torn <= pending
    ensures Partial(WithLast(segments, LastBytes(segments) + torn), Spread(limit, base, lines[..i]))
    ensures torn == pending ==>
              WithLast(segments, LastBytes(segments) + torn) == Spread(limit, base, lines[..i])
    ensures torn == [] ==> Partial(segments, Spread(limit, base, lines[..i]))
  {
    assert LastBytes(segments) + [] == LastBytes(segments);
    assert WithLast(segments, LastBytes(segments)) == segments;
  }

  // The writer.

  datatype FlushOutcome = Noop | Written | Rotated(count: nat, active: nat)

  ghost predicate Encodes(decode: Decoder, event: Event) {
    decode(event.encoded) == Some(event.header) && NEWLINE !in event.encoded
  }

  function BatchLines(batch: seq<Event>): (lines: seq<Bytes>)
    ensures |lines| == |batch|
  {
    seq(|batch|, i requires 0 <= i < |batch| => batch[i].encoded)
  }

  function SequenceOf(last: Option<Header>): nat {
    if last.Some? then last.value.sequence else 0
  }

  /** The last line has no sequence above `newest`. */
  ghost predicate UpTo(decode: Decoder, newest: nat, lines: seq<Bytes>) {
    lines != [] ==> Last(decode, lines).Some? && Last(decode, lines).value.sequence <= newest
  }

  /** No line has a sequence above the writer's last one. */
  ghost predicate Bounds(decode: Decoder, last: Option<Header>, lines: seq<Bytes>) {
    UpTo(decode, SequenceOf(last), lines)
  }

  /** The flush accepts a batch when its sequences strictly increase from the last one written. */
  predicate Fresh(last: Option<Header>, batch: seq<Event>) {
    Increasing(SequenceOf(last), batch)
  }

  predicate Increasing(from: nat, batch: seq<Event>)
    decreases |batch|
  {
    batch == [] || (from < batch[0].header.sequence && Increasing(batch[0].header.sequence, batch[1..]))
  }

  lemma OrderedSnoc(decode: Decoder, lines: seq<Bytes>, line: Bytes)
    requires Ordered(decode, lines) && decode(line).Some?
    requires lines != [] ==> decode(lines[|lines| - 1]).value.sequence < decode(line).value.sequence
    ensures Ordered(decode, lines + [line])
  {
    var all := lines + [line];
    forall i, j | 0 <= i < j < |all|
      ensures decode(all[i]).value.sequence < decode(all[j]).value.sequence
    {
      if j == |lines| && i < |lines| - 1 {
        assert decode(lines[i]).value.sequence < decode(lines[|lines| - 1]).value.sequence;
      }
    }
  }

  lemma {:induction false} FreshIsOrdered(decode: Decoder, lines: seq<Bytes>, last: Option<Header>, batch: seq<Event>)
    requires Ordered(decode, lines) && Bounds(decode, last, lines) && Fresh(last, batch)
    requires forall e :: e in batch ==> Encodes(decode, e)
    ensures Ordered(decode, lines + BatchLines(batch))
    decreases |batch|
  {
    if batch == [] {
      assert lines + BatchLines(batch) == lines;
    } else {
      var line, rest := batch[0].encoded, BatchLines(batch[1..]);
      assert batch[0] in batch;
      OrderedSnoc(decode, lines, line);
      FreshIsOrdered(decode, lines + [line], Some(batch[0].header), batch[1..]);
      assert lines + BatchLines(batch) == lines + [line] + rest;
    }
  }

  lemma BatchHasNoNewlines(decode: Decoder, batch: seq<Event>)
    requires forall e :: e in batch ==> Encodes(decode, e)
    ensures NoNewlines(BatchLines(batch))
  {
    forall i | 0 <= i < |batch|
      ensures NEWLINE !in BatchLines(batch)[i]
    {
      assert batch[i] in batch;
    }
  }

  /** In the middle of a flush: lines before `p` are on disk, lines from `p` to `i` wait in `pending`. */
  ghost predicate Flushing(decode: Decoder, limit: nat, segments: seq<Segment>, activeLen: nat, next: nat,
                           before: seq<Bytes>, lines: seq<Bytes>, p: nat, i: nat, pending: Bytes)
  {
    && p <= i <= |lines| && pending == Join(lines[p..i])
    && segments != [] && Sound(decode, limit, segments) && Tail(LastBytes(segments)) == []
    && activeLen == |LastBytes(segments)| && next == segments[|segments| - 1].index + 1
    && activeLen + |pending| <= limit
    && DiskLines(segments) == before + lines[..p]
    && NoNewlines(lines) && Ordered(decode, before + lines)
  }

  lemma FlushingPush(decode: Decoder, limit: nat, segments: seq<Segment>, activeLen: nat, next: nat, before: seq<Bytes>,
                     lines: seq<Bytes>, p: nat, i: nat, pending: Bytes)
    requires Flushing(decode, limit, segments, activeLen, next, before, lines, p, i, pending)
    requires i < |lines| && activeLen + |pending| + |lines[i]| + 1 <= limit
    ensures Flushing(decode, limit, segments, activeLen, next, before, lines, p, i + 1, pending + lines[i] + [NEWLINE])
  {
    hide Sound, Ordered, Tail, DiskLines;
    assert lines[p..i + 1] == lines[p..i] + [lines[i]];
    JoinAppend(lines[p..i], [lines[i]]);
    JoinFirst(lines[i], []);
    assert [lines[i]] + [] == [lines[i]];
    assert Join([lines[i]]) == lines[i] + [NEWLINE];
    Regroup(pending, lines[i], [NEWLINE]);
  }

  /** Whatever part of the pending bytes reaches disk, the directory stays sound and gains whole lines in order. */
  lemma FlushingAppend(decode: Decoder, limit: nat, segments: seq<Segment>, activeLen: nat, next: nat,
                       before: seq<Bytes>, lines: seq<Bytes>, p: nat, i: nat, pending: Bytes, torn: Bytes)
    returns (k: nat)
    requires Flushing(decode, limit, segments, activeLen, next, before, lines, p, i, pending) && torn <= pending
    ensures p <= k <= i
    ensures var after := WithLast(segments, LastBytes(segments) + torn);
            && Sound(decode, limit, after) && DiskLines(after) == before + lines[..k]
            && (torn == pending ==>
                  k == i && Flushing(decode, limit, after, activeLen + |pending|, next, before, lines, i, i, []))
  {
    hide Ordered, Lines, Tail;
    var chunk := lines[p..i];
    var written := before + lines[..p];
    assert before + lines == written + lines[p..];
    assert written + chunk == (before + lines)[..|before| + i];
    OrderedPrefix(decode, before + lines, |before| + i);
    AppendIsSound(decode, limit, segments, chunk, torn);
    TornLines(chunk, torn);
    k := p + |Lines(torn)|;
    assert Lines(torn) == chunk[..k - p] == lines[p..k];
    assert written + lines[p..k] == before + lines[..k];
    if torn == pending {
      assert lines[i..i] == [];
    }
  }

  lemma FlushingRotate(decode: Decoder, limit: nat, segments: seq<Segment>, activeLen: nat, next: nat,
                       before: seq<Bytes>, lines: seq<Bytes>, i: nat)
    requires Flushing(decode, limit, segments, activeLen, next, before, lines, i, i, []) && activeLen > 0
    ensures var after := segments + [Segment(next, [])];
            && Sound(decode, limit, after) && DiskLines(after) == before + lines[..i]
            && Flushing(decode, limit, after, 0, next + 1, before, lines, i, i, [])
  {
    hide Ordered, Lines, Tail, Join;
    NoLines();
    LinesRoundTrip(LastBytes(segments));
    assert Lines(LastBytes(segments)) != [] by { EmptyWithoutLines(LastBytes(segments)); }
    RotateIsSound(decode, limit, segments, next);
  }

  class Directory {
    var segments: seq<Segment>

    constructor ()
      ensures segments == []
    {
      segments := [];
    }
  }

  class SegmentWriter {
    const decode: Decoder
    const limit: nat
    const directory: Directory
    var initialized: bool
    var activeLen: nat
    var last: Option<Header>
    var next: nat

    /** A writer on a directory as it stands: at the start of the process, or after a crash. */
    constructor (decode: Decoder, limit: nat, directory: Directory)
      ensures this.decode == decode && this.limit == limit && this.directory == directory && !initialized
    {
      this.decode, this.limit, this.directory := decode, limit, directory;
      initialized, activeLen, last, next := false, 0, None, 1;
    }

    /**
     An initialized writer knows the length and index of the active segment, and no event on disk is after its
     last.
     */
    ghost predicate Tracks()
      reads this, directory
    {
      initialized ==>
        var segments := directory.segments;
        && segments != [] && Tail(LastBytes(segments)) == []
        && activeLen == |LastBytes(segments)| && next == segments[|segments| - 1].index + 1
        && Bounds(decode, last, DiskLines(segments))
    }

    method Reset()
      modifies this
      ensures !initialized
    {
      initialized, activeLen, last := false, 0, None;
    }

    /** Scan every segment in order; the scans of the last segment and the last event before it. */
    method Enumerate(calm: bool) returns (r: Result<(Option<Scan>, Option<Header>), SegmentError>)
      ensures calm ==> r != Err(Io)
      ensures r == Err(InvalidData) ==> !Recoverable(decode, limit, directory.segments)
      ensures r != Err(EventExceedsSegment)
      ensures r.Ok? ==>
        var segments := directory.segments;
        && Recoverable(decode, limit, segments)
        && r.value.0 == (if segments == [] then None else Some(ScanOf(decode, LastBytes(segments))))
        && r.value.1 == (if |segments| < 2 then None else ScanOf(decode, segments[|segments| - 2].bytes).last)
    {
      hide ScanOf;
      var segments := directory.segments;
      var previous: Option<Scan>, immutableLast: Option<Header> := None, None;
      for i := 0 to |segments|
        invariant Recoverable(decode, limit, segments[..i])
        invariant previous == if i == 0 then None else Some(ScanOf(decode, segments[i - 1].bytes))
        invariant immutableLast == if i < 2 then None else ScanOf(decode, segments[i - 2].bytes).last
      {
        var failed := Disturbed(calm);
        if failed {
          return Err(Io);
        }
        if |segments[i].bytes| > limit {
          return Err(InvalidData);
        }
        var scan := ScanOf(decode, segments[i].bytes);
        if previous.Some? {
          if !Follows(previous.value, scan) {
            return Err(InvalidData);
          }
          immutableLast := previous.value.last;
        }
        previous := Some(scan);
      }
      assert segments[..|segments|] == segments;
      r := Ok((previous, immutableLast));
    }

    method Recover(calm: bool) returns (r: Result<RecoveryReport, SegmentError>)
      modifies this, directory
      ensures calm ==> r != Err(Io)
      ensures r == Err(InvalidData) ==> !Recoverable(decode, limit, old(directory.segments))
      ensures r != Err(EventExceedsSegment)
      ensures r.Err? ==>
                initialized == old(initialized) && activeLen == old(activeLen) && last == old(last) && next == old(next)
      ensures r.Err? ==> directory.segments == old(directory.segments)
                         || (Recoverable(decode, limit, old(directory.segments))
                             && directory.segments == Cut(decode, old(directory.segments)))
      ensures r.Ok? ==>
        var before, after := old(directory.segments), directory.segments;
        && Recoverable(decode, limit, before) && after == Cut(decode, before)
        && initialized && activeLen == |LastBytes(after)| && next == after[|after| - 1].index + 1
        && last == RecoveredLast(decode, before)
        && r.value.active == after[|after| - 1].index && r.value.last == last
        && r.value.truncated == (if before == [] then 0 else |LastBytes(before)| - |LastBytes(after)|)
    {
      hide ScanOf, Recoverable;
      var segments := directory.segments;
      var scans := Enumerate(calm);
      if scans.Err? {
        return Err(scans.error);
      }
      var (previous, immutableLast) := scans.value;
      var index, length, valid := 1, 0, 0;
      var failed := Disturbed(calm);
      if segments == [] {
        if failed {
          if * {
            directory.segments := [Segment(1, [])];
          }
          return Err(Io);
        }
        directory.segments := [Segment(1, [])];
      } else {
        index, length, valid := segments[|segments| - 1].index, |LastBytes(segments)|, previous.value.validLen;
        ScanBounds(decode, LastBytes(segments));
        if failed {
          if * {
            directory.segments := Cut(decode, segments);
          }
          return Err(Io);
        }
        directory.segments := WithLast(segments, LastBytes(segments)[..valid]);
      }
      next, activeLen, initialized := index + 1, valid, true;
      last := if previous.Some? && previous.value.last.Some? then previous.value.last else immutableLast;
      r := Ok(RecoveryReport(length - valid, index, last));
    }

    /** Append to the active segment; on failure some prefix reached disk and the writer forgets its state. */
    method Append(bytes: Bytes, calm: bool) returns (ok: bool, ghost torn: Bytes)
      requires initialized && directory.segments != []
      modifies this, directory
      ensures torn <= bytes && (calm ==> ok)
      ensures directory.segments == WithLast(old(directory.segments), LastBytes(old(directory.segments)) + torn)
      ensures ok ==>
                torn == bytes && initialized && activeLen == old(activeLen) + |bytes| && last == old(last)
                && next == old(next)
      ensures !ok ==> !initialized
    {
      var segments := directory.segments;
      assert LastBytes(segments) + [] == LastBytes(segments);
      assert WithLast(segments, LastBytes(segments)) == segments;
      if bytes == [] {
        return true, [];
      }
      var failed := Disturbed(calm);
      if !failed {
        directory.segments := WithLast(segments, LastBytes(segments) + bytes);
        activeLen := activeLen + |bytes|;
        return true, bytes;
      }
      var k: nat :| k <= |bytes|;
      directory.segments := WithLast(segments, LastBytes(segments) + bytes[..k]);
      Reset();
      return false, bytes[..k];
    }

    method Rotate(calm: bool) returns (ok: bool)
      requires initialized
      modifies this, directory
      ensures calm ==> ok
      ensures ok && old(activeLen) > 0 ==>
        && directory.segments == old(directory.segments) + [Segment(old(next), [])]
        && initialized && activeLen == 0 && next == old(next) + 1 && last == old(last)
      ensures ok && old(activeLen) == 0 ==>
        directory.segments == old(directory.segments) && initialized && activeLen == 0 && next == old(next)
        && last == old(last)
      ensures !ok ==>
        && !initialized && old(activeLen) > 0
        && (directory.segments == old(directory.segments)
            || directory.segments == old(directory.segments) + [Segment(old(next), [])])
    {
      if activeLen == 0 {
        return true;
      }
      var failed := Disturbed(calm);
      if failed {
        if * {
          directory.segments := directory.segments + [Segment(next, [])];
        }
        Reset();
        return false;
      }
      directory.segments := directory.segments + [Segment(next, [])];
      next := next + 1;
      activeLen := 0;
      return true;
    }

    /** Open the log if needed: afterwards the writer tracks a sound directory with the same lines. */
    method Open(calm: bool) returns (r: Result<(), SegmentError>)
      requires BoundedDecoder(decode) && Sound(decode, limit, directory.segments) && Tracks()
      modifies this, directory
      ensures r != Err(EventExceedsSegment) && r != Err(InvalidData) && (calm ==> r != Err(Io))
      ensures Sound(decode, limit, directory.segments) && Tracks()
      ensures DiskLines(directory.segments) == DiskLines(old(directory.segments))
      ensures r.Err? ==> !initialized
      ensures r.Err? ==>
                directory.segments == old(directory.segments) || directory.segments == Repaired(old(directory.segments))
      ensures r.Ok? ==>
                initialized && activeLen == OpenLength(old(initialized), old(activeLen), old(directory.segments))
      ensures r.Ok? ==> last == OpenLast(decode, old(initialized), old(last), old(directory.segments))
      ensures r.Ok? ==> directory.segments == Repaired(old(directory.segments))
    {
      hide Tail, Lines, Ordered, DiskLines, Recoverable, ScanOf, Bounds;
      if initialized {
        RepairKeepsTracking(directory.segments);
        return Ok(());
      }
      SoundIsRecoverable(decode, limit, directory.segments);
      RepairIsSound(decode, limit, directory.segments);
      LastBounds(decode, DiskLines(directory.segments));
      var report := Recover(calm);
      if report.Err? {
        return Err(report.error);
      }
      return Ok(());
    }

    method CheckSequences(batch: seq<Event>) returns (accepted: bool, newest: Option<Header>)
      ensures accepted == Fresh(last, batch)
      ensures accepted ==> newest == if batch == [] then last else Some(batch[|batch| - 1].header)
    {
      newest := last;
      for i := 0 to |batch|
        invariant newest == if i == 0 then last else Some(batch[i - 1].header)
        invariant Fresh(last, batch) == Fresh(newest, batch[i..])
      {
        assert batch[i..][1..] == batch[i + 1..];
        if batch[i].header.sequence <= SequenceOf(newest) {
          return false, newest;
        }
        newest := Some(batch[i].header);
      }
      accepted := true;
    }

    /** Finish the active segment with the pending lines and begin the next one, for a line that does not fit. */
    method AppendAndRotate(pending: Bytes, calm: bool, ghost base: seq<Segment>, ghost before: seq<Bytes>,
                           ghost batch: seq<Event>, ghost p: nat, ghost i: nat) returns (ok: bool)
      requires initialized && i < |batch| && activeLen + |pending| + |batch[i].encoded| + 1 > limit
      requires Flushing(decode, limit, directory.segments, activeLen, next, before, BatchLines(batch), p, i, pending)
      requires base != [] && Spreading(limit, base, directory.segments, BatchLines(batch), i, pending)
      requires |batch[i].encoded| + 1 <= limit
      modifies this, directory
      ensures calm ==> ok
      ensures ok ==>
        && initialized && last == old(last) && |directory.segments| == |old(directory.segments)| + 1 && activeLen == 0
        && Flushing(decode, limit, directory.segments, activeLen, next, before, BatchLines(batch), i, i, [])
        && Spreading(limit, base, directory.segments, BatchLines(batch), i + 1, [] + batch[i].encoded + [NEWLINE])
      ensures !ok ==> !initialized && Sound(decode, limit, directory.segments)
      ensures !ok ==>
                exists k :: 0 <= k <= |batch| && DiskLines(directory.segments) == before + BatchLines(batch)[..k]
      ensures !ok ==> exists k :: 0 <= k <= |batch| && Reaches(limit, base, directory.segments, batch, k)
    {
      hide Lines, Tail, Ordered, DiskLines, Join, Flushing, Sound, WithLast, Spreading, Spread, Partial;
      ghost var lines, segments, length, index := BatchLines(batch), directory.segments, activeLen, next;
      FlushingFacts(decode, limit, segments, length, index, before, lines, p, i, pending);
      var appended, torn := Append(pending, calm);
      ghost var k := FlushingAppend(decode, limit, segments, length, index, before, lines, p, i, pending, torn);
      SpreadingIsPartial(limit, base, segments, lines, i, pending, torn);
      assert Reaches(limit, base, directory.segments, batch, i);
      if !appended {
        return false;
      }
      SpreadingRotate(limit, base, segments, lines, i, pending);
      segments := directory.segments;
      FlushingFacts(decode, limit, segments, length + |pending|, index, before, lines, i, i, []);
      FlushingRotate(decode, limit, segments, activeLen, next, before, lines, i);
      ok := Rotate(calm);
      assert !ok && directory.segments != segments ==> Reaches(limit, base, directory.segments, batch, i + 1);
    }

    /** The writing half of a flush, on a batch whose sequences were checked. */
    method Write(batch: seq<Event>, newest: Option<Header>, ghost before: seq<Bytes>, calm: bool)
      returns (r: Result<FlushOutcome, SegmentError>)
      requires initialized && Sound(decode, limit, directory.segments) && Tracks()
      requires before == DiskLines(directory.segments)
      requires batch != [] && Fresh(last, batch) && newest == Some(batch[|batch| - 1].header)
      requires forall e :: e in batch ==> Encodes(decode, e)
      modifies this, directory
      ensures Sound(decode, limit, directory.segments)
      ensures r.Ok? ==> initialized && Tracks() && DiskLines(directory.segments) == before + BatchLines(batch)
      ensures r.Ok? ==> last == Last(decode, DiskLines(directory.segments))
      ensures r.Ok? ==>
        && directory.segments == Spread(limit, old(directory.segments), BatchLines(batch))
        && Reports(r.value, old(directory.segments), directory.segments)
      ensures r.Err? ==>
                exists k :: 0 <= k <= |batch| && DiskLines(directory.segments) == before + BatchLines(batch)[..k]
      ensures r.Err? ==>
                exists k :: 0 <= k <= |batch| && Reaches(limit, old(directory.segments), directory.segments, batch, k)
      ensures r.Err? && r.error != EventExceedsSegment ==> !initialized
      ensures r.Ok? ==> forall e :: e in batch ==> |e.encoded| + 1 <= limit
      ensures r != Err(InvalidData) && (calm ==> r != Err(Io))
      ensures r == Err(EventExceedsSegment) ==> initialized && last == old(last)
      ensures r == Err(EventExceedsSegment) ==> (Tracks() <==> Bounds(decode, last, DiskLines(directory.segments)))
      ensures r == Err(EventExceedsSegment) ==>
                exists m :: 0 <= m < |batch| && FirstOversized(limit, BatchLines(batch), m)
                  && (Tracks() <==> !WritesBefore(limit, old(activeLen), BatchLines(batch), m))
    {
      hide Lines, Tail, Ordered, DiskLines, Join, Flushing, Sound, Filling, Fresh, WithLast, FirstOversized,
           WritesBefore, UpTo, Encodes, Spreading, Spread, Partial;
      ghost var lines, p := BatchLines(batch), 0;
      ghost var base := directory.segments;
      SpreadingStarts(limit, base, lines);
      FlushingStarts(decode, limit, directory.segments, activeLen, next, before, last, batch);
      var pending: Bytes, rotations: nat := [], 0;
      FillingStarts(limit, activeLen, lines);
      for i := 0 to |batch|
        invariant initialized && last == old(last) && 0 <= p <= i
        invariant |directory.segments| == |old(directory.segments)| + rotations
        invariant Flushing(decode, limit, directory.segments, activeLen, next, before, lines, p, i, pending)
        invariant Filling(limit, old(activeLen), lines, p, i, activeLen)
        invariant Spreading(limit, base, directory.segments, lines, i, pending)
        invariant forall j :: 0 <= j < i ==> |lines[j]| + 1 <= limit
      {
        var encoded := batch[i].encoded;
        FlushingFacts(decode, limit, directory.segments, activeLen, next, before, lines, p, i, pending);
        if |encoded| + 1 > limit {
          Oversized(decode, limit, directory.segments, activeLen, next, before, last, batch, p, i, pending,
                    old(activeLen));
          SpreadingIsPartial(limit, base, directory.segments, lines, i, pending, []);
          assert Reaches(limit, base, directory.segments, batch, i);
          return Err(EventExceedsSegment);
        }
        if activeLen + |pending| + |encoded| + 1 > limit {
          FillingRotates(limit, old(activeLen), lines, p, i, activeLen, pending);
          var ok := AppendAndRotate(pending, calm, base, before, batch, p, i);
          if !ok {
            return Err(Io);
          }
          pending, p, rotations := [], i, rotations + 1;
        } else {
          FillingGrows(limit, old(activeLen), lines, p, i, activeLen, pending);
          SpreadingPush(limit, base, directory.segments, lines, i, pending);
        }
        FlushingPush(decode, limit, directory.segments, activeLen, next, before, lines, p, i, pending);
        pending := pending + encoded + [NEWLINE];
      }
      ghost var segments, length, index := directory.segments, activeLen, next;
      FlushingFacts(decode, limit, segments, length, index, before, lines, p, |batch|, pending);
      var ok, torn := Append(pending, calm);
      ghost var k := FlushingAppend(decode, limit, segments, length, index, before, lines, p, |batch|, pending, torn);
      SpreadingIsPartial(limit, base, segments, lines, |batch|, pending, torn);
      assert lines[..|batch|] == lines;
      assert Reaches(limit, base, directory.segments, batch, |batch|);
      if !ok {
        return Err(Io);
      }
      FlushingFacts(decode, limit, directory.segments, activeLen, next, before, lines, |batch|, |batch|, []);
      LastOfBatch(decode, before, batch);
      EachFits(limit, batch);
      last := newest;
      r := Ok(if rotations == 0 then Written else Rotated(rotations, next - 1));
    }

    method Flush(batch: seq<Event>, calm: bool) returns (r: Result<FlushOutcome, SegmentError>)
      requires BoundedDecoder(decode) && Sound(decode, limit, directory.segments) && Tracks()
      requires forall e :: e in batch ==> Encodes(decode, e)
      modifies this, directory
      ensures Sound(decode, limit, directory.segments)
      ensures calm ==> r != Err(Io)
      ensures r != Err(EventExceedsSegment) ==> Tracks()
      ensures batch == [] ==>
                directory.segments == old(directory.segments) && initialized == old(initialized) && last == old(last)
      ensures r.Ok? ==> forall e :: e in batch ==> |e.encoded| + 1 <= limit
      ensures r == Err(Io) ==> !initialized
      ensures r.Ok? ==> DiskLines(directory.segments) == DiskLines(old(directory.segments)) + BatchLines(batch)
      ensures r.Ok? && batch != [] ==> initialized && last == Last(decode, DiskLines(directory.segments))
      ensures r.Err? ==>
                exists k :: 0 <= k <= |batch|
                  && DiskLines(directory.segments) == DiskLines(old(directory.segments)) + BatchLines(batch)[..k]
      ensures r == Err(InvalidData) ==>
                && DiskLines(directory.segments) == DiskLines(old(directory.segments))
                && !Fresh(OpenLast(decode, old(initialized), old(last), old(directory.segments)), batch)
                && last == OpenLast(decode, old(initialized), old(last), old(directory.segments))
      ensures r == Err(EventExceedsSegment) ==>
                && initialized && (Tracks() <==> Bounds(decode, last, DiskLines(directory.segments)))
                && last == OpenLast(decode, old(initialized), old(last), old(directory.segments))
      ensures r.Ok? && batch != [] ==>
                && Fresh(OpenLast(decode, old(initialized), old(last), old(directory.segments)), batch)
                && directory.segments == Spread(limit, Repaired(old(directory.segments)), BatchLines(batch))
                && Reports(r.value, Repaired(old(directory.segments)), directory.segments)
      ensures r.Ok? && batch == [] ==> r.value.Noop?
      ensures r.Err? ==> Interrupts(limit, old(directory.segments), directory.segments, batch)
      ensures r == Err(EventExceedsSegment) ==>
                exists m :: 0 <= m < |batch| && FirstOversized(limit, BatchLines(batch), m)
                  && (Tracks() <==> !WritesBefore(limit,
                                                  OpenLength(old(initialized), old(activeLen), old(directory.segments)),
                                                  BatchLines(batch), m))
    {
      hide Lines, Tail, Ordered, DiskLines, Sound, Fresh, FirstOversized, WritesBefore, Bounds, OpenLength, OpenLast,
           Encodes, Repaired, Spread, Reaches;
      if batch == [] {
        assert DiskLines(directory.segments) + BatchLines(batch) == DiskLines(directory.segments);
        return Ok(Noop);
      }
      ghost var before := DiskLines(directory.segments);
      ghost var lines := BatchLines(batch);
      assert before + lines[..0] == before;
      ghost var segments := directory.segments;
      NothingReached(limit, segments, batch);
      var ready := Open(calm);
      if ready.Err? {
        return Err(ready.error);
      }
      var accepted, newest := CheckSequences(batch);
      if !accepted {
        return Err(InvalidData);
      }
      r := Write(batch, newest, before, calm);
    }
  }

  lemma EachFits(limit: nat, batch: seq<Event>)
    requires forall j :: 0 <= j < |batch| ==> |BatchLines(batch)[j]| + 1 <= limit
    ensures forall e :: e in batch ==> |e.encoded| + 1 <= limit
  {
    forall e | e in batch
      ensures |e.encoded| + 1 <= limit
    {
      var j :| 0 <= j < |batch| && batch[j] == e;
      assert BatchLines(batch)[j] == e.encoded;
    }
  }

  /** The active length at which a flush starts writing: a writer that must recover first finds the repaired one. */
  function OpenLength(initialized: bool, activeLen: nat, segments: seq<Segment>): nat {
    if initialized then activeLen else |LastBytes(Repaired(segments))|
  }

  /** The last event known when a flush checks its batch. */
  function OpenLast(decode: Decoder, initialized: bool, last: Option<Header>, segments: seq<Segment>): Option<Header> {
    if initialized then last else Last(decode, DiskLines(segments))
  }

  /** The first `k` lines, but some end of the last segment they reach. */
  ghost predicate Reaches(limit: nat, base: seq<Segment>, segments: seq<Segment>, batch: seq<Event>, k: nat)
    requires base != []
  {
    k <= |batch| && Partial(segments, Spread(limit, base, BatchLines(batch)[..k]))
  }

  lemma NothingReached(limit: nat, segments: seq<Segment>, batch: seq<Event>)
    ensures Reaches(limit, Repaired(segments), Repaired(segments), batch, 0)
  {
    hide Repaired;
  }

  /** What a failed flush may leave: the directory as it was, or part of what it was to be. */
  ghost predicate Interrupts(limit: nat, before: seq<Segment>, after: seq<Segment>, batch: seq<Event>) {
    after == before || exists k :: 0 <= k <= |batch| && Reaches(limit, Repaired(before), after, batch, k)
  }

  /** The report of a flush: how many segments were added, and the index of the last one. */
  ghost predicate Reports(outcome: FlushOutcome, base: seq<Segment>, segments: seq<Segment>) {
    && segments != []
    && if |segments| == |base| then outcome.Written?
       else |segments| > |base| && outcome == Rotated(|segments| - |base|, segments[|segments| - 1].index)
  }

  ghost predicate FirstOversized(limit: nat, lines: seq<Bytes>, m: nat) {
    m < |lines| && |lines[m]| + 1 > limit && forall j :: 0 <= j < m ==> |lines[j]| + 1 <= limit
  }

  /** The lines before the first oversized one do not fit the active segment, or the fresh one that follows it. */
  predicate WritesBefore(limit: nat, activeLen: nat, lines: seq<Bytes>, m: nat)
    requires m <= |lines|
  {
    m > 0 && (if activeLen + |lines[0]| + 1 > limit then 0 else activeLen) + |Join(lines[..m])| > limit
  }

  /** How full the log was when line `i` was reached: nothing written yet exactly while everything still fitted. */
  ghost predicate Filling(limit: nat, openLen: nat, lines: seq<Bytes>, p: nat, i: nat, activeLen: nat) {
    && p <= i <= |lines|
    && if i == 0 then activeLen == openLen
       else
         var start := if openLen + |lines[0]| + 1 > limit then 0 else openLen;
         if p == 0 then activeLen == start && start + |Join(lines[..i])| <= limit
         else start + |Join(lines[..i])| > limit
  }

  lemma FillingStarts(limit: nat, openLen: nat, lines: seq<Bytes>)
    ensures Filling(limit, openLen, lines, 0, 0, openLen)
  {
  }

  lemma JoinGrows(lines: seq<Bytes>, i: nat)
    requires i < |lines|
    ensures |Join(lines[..i + 1])| == |Join(lines[..i])| + |lines[i]| + 1
  {
    assert lines[..i + 1] == lines[..i] + [lines[i]];
    JoinAppend(lines[..i], [lines[i]]);
    JoinFirst(lines[i], []);
    assert [lines[i]] + [] == [lines[i]];
  }

  lemma FillingGrows(limit: nat, openLen: nat, lines: seq<Bytes>, p: nat, i: nat, activeLen: nat, pending: Bytes)
    requires Filling(limit, openLen, lines, p, i, activeLen) && i < |lines|
    requires pending == Join(lines[p..i]) && activeLen + |pending| + |lines[i]| + 1 <= limit
    ensures Filling(limit, openLen, lines, p, i + 1, activeLen)
  {
    hide Join;
    JoinGrows(lines, i);
    assert lines[0..i] == lines[..i];
    if i == 0 {
      assert lines[..0] == [];
      NothingJoined();
    }
  }

  lemma FillingRotates(limit: nat, openLen: nat, lines: seq<Bytes>, p: nat, i: nat, activeLen: nat, pending: Bytes)
    requires Filling(limit, openLen, lines, p, i, activeLen) && i < |lines| && |lines[i]| + 1 <= limit
    requires pending == Join(lines[p..i]) && activeLen + |pending| + |lines[i]| + 1 > limit
    ensures Filling(limit, openLen, lines, i, i + 1, 0)
  {
    hide Join;
    JoinGrows(lines, i);
    assert lines[0..i] == lines[..i];
    if i == 0 {
      assert lines[..0] == [];
      NothingJoined();
    }
  }

  lemma FlushingStarts(decode: Decoder, limit: nat, segments: seq<Segment>, activeLen: nat, next: nat,
                       before: seq<Bytes>, last: Option<Header>, batch: seq<Event>)
    requires segments != [] && Sound(decode, limit, segments) && before == DiskLines(segments)
    requires Tail(LastBytes(segments)) == [] && activeLen == |LastBytes(segments)|
    requires next == segments[|segments| - 1].index + 1
    requires Bounds(decode, last, before) && Fresh(last, batch)
    requires forall e :: e in batch ==> Encodes(decode, e)
    ensures Flushing(decode, limit, segments, activeLen, next, before, BatchLines(batch), 0, 0, [])
  {
    hide Tail, DiskLines, Ordered, Fresh;
    FreshIsOrdered(decode, before, last, batch);
    BatchHasNoNewlines(decode, batch);
    assert before + BatchLines(batch)[..0] == before;
    NothingJoined();
  }

  lemma FlushingFacts(decode: Decoder, limit: nat, segments: seq<Segment>, activeLen: nat, next: nat,
                      before: seq<Bytes>, lines: seq<Bytes>, p: nat, i: nat, pending: Bytes)
    requires Flushing(decode, limit, segments, activeLen, next, before, lines, p, i, pending)
    ensures p <= i <= |lines| && pending == Join(lines[p..i])
    ensures segments != [] && Sound(decode, limit, segments) && DiskLines(segments) == before + lines[..p]
    ensures Tail(LastBytes(segments)) == []
    ensures activeLen == |LastBytes(segments)| && next == segments[|segments| - 1].index + 1
  {
  }

  lemma LastOfBatch(decode: Decoder, before: seq<Bytes>, batch: seq<Event>)
    requires batch != [] && forall e :: e in batch ==> Encodes(decode, e)
    ensures Last(decode, before + BatchLines(batch)) == Some(batch[|batch| - 1].header)
    ensures before + BatchLines(batch)[..|batch|] == before + BatchLines(batch)
    ensures Bounds(decode, Some(batch[|batch| - 1].header), before + BatchLines(batch))
  {
    assert batch[|batch| - 1] in batch;
  }

  /** An oversized event leaves the writer's last sequence stale exactly when earlier lines were already written. */
  lemma Oversized(decode: Decoder, limit: nat, segments: seq<Segment>, activeLen: nat, next: nat, before: seq<Bytes>,
                  last: Option<Header>, batch: seq<Event>, p: nat, i: nat, pending: Bytes, openLen: nat)
    requires var lines := BatchLines(batch);
             && Flushing(decode, limit, segments, activeLen, next, before, lines, p, i, pending)
             && Filling(limit, openLen, lines, p, i, activeLen)
             && i < |batch| && |lines[i]| + 1 > limit && forall j :: 0 <= j < i ==> |lines[j]| + 1 <= limit
    requires Bounds(decode, last, before) && Fresh(last, batch)
    requires forall e :: e in batch ==> Encodes(decode, e)
    ensures FirstOversized(limit, BatchLines(batch), i)
    ensures Bounds(decode, last, DiskLines(segments)) <==> !WritesBefore(limit, openLen, BatchLines(batch), i)
  {
    hide Tail, Ordered, Join, Sound;
    var lines := BatchLines(batch);
    assert lines[0..i] == lines[..i];
    if p > 0 {
      assert batch[p - 1] in batch;
      assert DiskLines(segments)[|before| + p - 1] == lines[p - 1];
      FreshAbove(last, batch, p - 1);
    } else {
      assert before + lines[..0] == before;
    }
  }

  lemma {:induction false} FreshAbove(last: Option<Header>, batch: seq<Event>, i: nat)
    requires Fresh(last, batch) && i < |batch|
    ensures SequenceOf(last) < batch[i].header.sequence
    decreases i
  {
    if i > 0 {
      FreshAbove(Some(batch[0].header), batch[1..], i - 1);
    }
  }

  // A limit below the largest line.

  function SmallLines(): seq<Bytes> {
    [[1], [2], [3], [1, 1, 1, 1]]
  }

  function SmallBatch(): seq<Event> {
    [Event(Header(1, 0), [1]), Event(Header(2, 0), [2]), Event(Header(3, 0), [3]), Event(Header(4, 0), [1, 1, 1, 1])]
  }

  function DecodeSmall(line: Bytes): Option<Header> {
    if line == [1] then Some(Header(1, 0))
    else if line == [2] then Some(Header(2, 0))
    else if line == [3] then Some(Header(3, 0))
    else if line == [1, 1, 1, 1] then Some(Header(4, 0))
    else None
  }

  /** With a limit of four bytes an oversized fourth line arrives after two lines were written. */
  lemma SmallLimitCanGoStale()
    ensures FirstOversized(4, SmallLines(), 3) && WritesBefore(4, 0, SmallLines(), 3)
  {
    var lines := SmallLines();
    JoinGrows(lines, 0);
    JoinGrows(lines, 1);
    JoinGrows(lines, 2);
    assert lines[..0] == [];
  }

  lemma SmallBatchIsFresh()
    ensures BatchLines(SmallBatch()) == SmallLines() && Fresh(None, SmallBatch()) && BoundedDecoder(DecodeSmall)
    ensures forall e :: e in SmallBatch() ==> Encodes(DecodeSmall, e)
    ensures exists e :: e in SmallBatch() && |e.encoded| + 1 > 4
  {
    var batch := SmallBatch();
    assert batch[3] in batch && |batch[3].encoded| == 4;
    assert batch[1..][1..] == batch[2..] && batch[2..][1..] == batch[3..] && batch[3..][1..] == [];
    assert Increasing(3, batch[3..]);
    assert Increasing(2, batch[2..]);
    assert Increasing(1, batch[1..]);
  }

  /**
   An undisturbed flush that fails and leaves a writer behind its own log: it is ready to write, and a line on
   disk has a later sequence than the last one it knows.
   */
  method GoesStale() returns (r: Result<FlushOutcome, SegmentError>, last: Option<Header>, segments: seq<Segment>)
    ensures r == Err(EventExceedsSegment) && Ordered(DecodeSmall, DiskLines(segments))
    ensures last == None && SequenceOf(Last(DecodeSmall, DiskLines(segments))) > 0
  {
    hide Lines, Tail, Join, DiskLines, WritesBefore, FirstOversized, SmallBatch, SmallLines, DecodeSmall, Ordered,
         Encodes, Fresh, Bounds, BoundedDecoder, BatchLines, OpenLast, OpenLength, SegmentWriter.Tracks;
    var directory := new Directory();
    EmptyIsSound(DecodeSmall, 4);
    var writer := new SegmentWriter(DecodeSmall, 4, directory);
    NotInitialized(writer);
    SmallBatchIsFresh();
    OpensEmpty(DecodeSmall);
    r := writer.Flush(SmallBatch(), true);
    Outcomes(r);
    SmallLimitCanGoStale();
    last, segments := writer.last, directory.segments;
    ghost var m :| 0 <= m < |SmallBatch()| && FirstOversized(4, SmallLines(), m)
                   && (writer.Tracks() <==> !WritesBefore(4, 0, SmallLines(), m));
    OneFirstOversized(4, SmallLines(), m, 3);
    Unbounded(DecodeSmall, 4, segments);
  }

  lemma Outcomes<T>(r: Result<T, SegmentError>)
    ensures r.Ok? || r == Err(Io) || r == Err(InvalidData) || r == Err(EventExceedsSegment)
  {
    if r.Err? {
      match r.error
      case Io =>
      case InvalidData =>
      case EventExceedsSegment =>
    }
  }

  lemma OpensEmpty(decode: Decoder)
    ensures forall last :: OpenLast(decode, false, last, []) == None
    ensures forall length :: OpenLength(false, length, []) == 0
  {
    NoLines();
  }

  lemma Unbounded(decode: Decoder, limit: nat, segments: seq<Segment>)
    requires Sound(decode, limit, segments) && !Bounds(decode, None, DiskLines(segments))
    ensures Ordered(decode, DiskLines(segments)) && SequenceOf(Last(decode, DiskLines(segments))) > 0
  {
    hide DiskLines;
  }

  lemma OneFirstOversized(limit: nat, lines: seq<Bytes>, m: nat, n: nat)
    requires FirstOversized(limit, lines, m) && FirstOversized(limit, lines, n)
    ensures m == n
  {
  }

  // Whole runs.

  /** What may happen to the log. A flush or recovery that is not calm may fail at any storage operation. */
  datatype Operation =
    | FlushBatch(batch: seq<Event>, calm: bool)
    | RecoverLog(calm: bool)
    | Crash
    | Retire(k: nat)

  /** The largest sequence offered so far. */
  function NewestIn(from: nat, batch: seq<Event>): (newest: nat)
    ensures from <= newest && forall e :: e in batch ==> e.header.sequence <= newest
  {
    if batch == [] then from
    else
      var n, rest := batch[|batch| - 1].header.sequence, NewestIn(from, batch[..|batch| - 1]);
      assert forall e :: e in batch ==> e in batch[..|batch| - 1] || e == batch[|batch| - 1];
      if n < rest then rest else n
  }

  function NewestAfter(from: nat, operation: Operation): nat {
    if operation.FlushBatch? then NewestIn(from, operation.batch) else from
  }

  function Newest(operations: seq<Operation>): nat {
    if operations == [] then 0
    else NewestAfter(Newest(operations[..|operations| - 1]), operations[|operations| - 1])
  }

  /** An undisturbed flush whose sequences increase from above all offered before. */
  predicate Welcome(operations: seq<Operation>, n: nat)
    requires n < |operations|
  {
    operations[n].FlushBatch? && operations[n].calm && Increasing(Newest(operations[..n]), operations[n].batch)
  }

  datatype Answer = Failed | Done | Flushed(outcome: FlushOutcome)

  /** What an operation does to the directory, given its answer. */
  ghost predicate Step(decode: Decoder, limit: nat, before: seq<Segment>, after: seq<Segment>, operation: Operation,
                       answer: Answer) {
    match operation
    case FlushBatch(batch, _) => Flushes(limit, before, after, batch, answer)
    case RecoverLog(calm) =>
      && (after == Cut(decode, before) || (answer.Failed? && after == before)) && DiskLines(after) == DiskLines(before)
      && (calm ==> answer.Done?)
    case Crash => after == before
    case Retire(k) => after == if k < |before| - 1 then before[..k] + before[k + 1..] else before
  }

  ghost predicate Flushes(limit: nat, before: seq<Segment>, after: seq<Segment>, batch: seq<Event>, answer: Answer) {
    match answer
    case Flushed(outcome) =>
      && DiskLines(after) == DiskLines(before) + BatchLines(batch)
      && if batch == [] then after == before && outcome.Noop?
         else after == Spread(limit, Repaired(before), BatchLines(batch)) && Reports(outcome, Repaired(before), after)
    case Failed =>
      && (exists k :: 0 <= k <= |batch| && DiskLines(after) == DiskLines(before) + BatchLines(batch)[..k])
      && Interrupts(limit, before, after, batch)
    case Done => false
  }

  ghost predicate Run(decode: Decoder, limit: nat, trace: seq<seq<Segment>>, operations: seq<Operation>,
                      answers: seq<Answer>) {
    && |trace| == |operations| + 1 && |answers| == |operations| && trace[0] == []
    && forall n :: 0 <= n < |operations| ==> Step(decode, limit, trace[n], trace[n + 1], operations[n], answers[n])
  }

  /**
   When a flush adds segments: not at all exactly when the batch fits the last segment; else the last one reported is
   the last one there, no segment it filled had room for the first line of the next, and none is empty.
   */
  ghost predicate Rotates(limit: nat, before: seq<Segment>, after: seq<Segment>, batch: seq<Event>,
                          outcome: FlushOutcome) {
    var base := Repaired(before);
    && |base| <= |after| && after[..|base| - 1] == base[..|base| - 1] && Packed(limit, after, |base| - 1)
    && Reports(outcome, base, after)
    && (outcome.Written? <==> |LastBytes(base)| + |Join(BatchLines(batch))| <= limit)
  }

  lemma FlushRotates(decode: Decoder, limit: nat, before: seq<Segment>, after: seq<Segment>, batch: seq<Event>,
                     answer: Answer)
    requires Sound(decode, limit, before) && Flushes(limit, before, after, batch, answer)
    requires answer.Flushed? && batch != [] && forall e :: e in batch ==> Encodes(decode, e) && |e.encoded| + 1 <= limit
    ensures Rotates(limit, before, after, batch, answer.outcome)
  {
    hide Lines, Tail, Join, DiskLines, Spread, Packed, Ordered;
    RepairIsSound(decode, limit, before);
    BatchHasNoNewlines(decode, batch);
    forall i | 0 <= i < |batch|
      ensures |BatchLines(batch)[i]| + 1 <= limit
    {
      assert batch[i] in batch;
    }
    SpreadIsPacked(limit, Repaired(before), BatchLines(batch));
  }

  /** The lines of the flushes that answered Ok. */
  function Acknowledged(operations: seq<Operation>, answers: seq<Answer>): seq<Bytes>
    requires |answers| == |operations|
  {
    if operations == [] then []
    else
      var n := |operations| - 1;
      Acknowledged(operations[..n], answers[..n])
      + if operations[n].FlushBatch? && answers[n].Flushed? then BatchLines(operations[n].batch) else []
  }

  /** The lines of the closed segments that retention took away. */
  function Retired(trace: seq<seq<Segment>>, operations: seq<Operation>): seq<Bytes>
    requires |trace| == |operations| + 1
  {
    if operations == [] then []
    else
      var n := |operations| - 1;
      Retired(trace[..n + 1], operations[..n])
      + if operations[n].Retire? && operations[n].k < |trace[n]| - 1 then Lines(trace[n][operations[n].k].bytes) else []
  }

  ghost predicate Offered(operations: seq<Operation>, line: Bytes) {
    exists n, i :: 0 <= n < |operations| && operations[n].FlushBatch? && 0 <= i < |operations[n].batch|
      && operations[n].batch[i].encoded == line
  }

  /** No run loses a line of an acknowledged flush, except to retention, or has a line that was never offered. */
  lemma {:induction false} NothingIsLost(decode: Decoder, limit: nat, trace: seq<seq<Segment>>,
                                         operations: seq<Operation>, answers: seq<Answer>)
    requires Run(decode, limit, trace, operations, answers)
    ensures forall line :: line in Acknowledged(operations, answers) ==>
              line in DiskLines(trace[|operations|]) || line in Retired(trace, operations)
    ensures forall line :: line in DiskLines(trace[|operations|]) ==> Offered(operations, line)
    decreases |operations|
  {
    hide DiskLines, Lines, Cut, Step, Offered;
    if operations == [] {
      NoLines();
    } else {
      var n := |operations| - 1;
      var earlier := operations[..n];
      assert forall k :: 0 <= k < n ==> earlier[k] == operations[k] && answers[..n][k] == answers[k];
      assert forall k :: 0 <= k <= n ==> trace[..n + 1][k] == trace[k];
      NothingIsLost(decode, limit, trace[..n + 1], earlier, answers[..n]);
      StepKeepsLines(decode, limit, trace[n], trace[n + 1], operations[n], answers[n]);
      forall line | line in DiskLines(trace[n + 1])
        ensures Offered(operations, line)
      {
        OfferedLater(operations, line);
      }
    }
  }

  lemma StepKeepsLines(decode: Decoder, limit: nat, before: seq<Segment>, after: seq<Segment>, operation: Operation,
                       answer: Answer)
    requires Step(decode, limit, before, after, operation, answer)
    ensures forall line :: line in DiskLines(before) ==>
              line in DiskLines(after)
              || (operation.Retire? && operation.k < |before| - 1 && line in Lines(before[operation.k].bytes))
    ensures operation.FlushBatch? && answer.Flushed? ==> forall line :: line in BatchLines(operation.batch) ==>
              line in DiskLines(after)
    ensures forall line :: line in DiskLines(after) ==>
              line in DiskLines(before) || (operation.FlushBatch? && line in BatchLines(operation.batch))
  {
    hide DiskLines, Lines, Cut, Interrupts, Spread, Reports;
    if operation.Retire? && operation.k < |before| - 1 {
      DiskLinesAround(before, operation.k);
    }
  }

  lemma OfferedLater(operations: seq<Operation>, line: Bytes)
    requires operations != []
    requires Offered(operations[..|operations| - 1], line)
             || (operations[|operations| - 1].FlushBatch? && line in BatchLines(operations[|operations| - 1].batch))
    ensures Offered(operations, line)
  {
    var last := |operations| - 1;
    if Offered(operations[..last], line) {
      var n, i :| 0 <= n < last && operations[..last][n].FlushBatch? && 0 <= i < |operations[..last][n].batch|
        && operations[..last][n].batch[i].encoded == line;
      assert operations[n].batch[i].encoded == line;
    } else {
      var i :| 0 <= i < |operations[last].batch| && BatchLines(operations[last].batch)[i] == line;
      assert operations[last].batch[i].encoded == line;
    }
  }

  lemma EventsFit(decode: Decoder, limit: nat, batch: seq<Event>, m: nat)
    requires BoundedDecoder(decode) && limit > MAX_PREPARED_EVENT_BYTES
    requires forall e :: e in batch ==> Encodes(decode, e)
    ensures !FirstOversized(limit, BatchLines(batch), m)
  {
    assert m < |batch| ==> batch[m] in batch;
  }

  /** A writer on a sound log in which no sequence is above `newest`. */
  ghost predicate Current(writer: SegmentWriter, newest: nat)
    reads writer, writer.directory
  {
    && Sound(writer.decode, writer.limit, writer.directory.segments) && writer.Tracks()
    && UpTo(writer.decode, newest, DiskLines(writer.directory.segments))
    && (writer.initialized ==> SequenceOf(writer.last) <= newest)
  }

  method FlushStep(writer: SegmentWriter, batch: seq<Event>, calm: bool, ghost newest: nat) returns (answer: Answer)
    requires BoundedDecoder(writer.decode) && writer.limit > MAX_PREPARED_EVENT_BYTES
    requires forall e :: e in batch ==> Encodes(writer.decode, e)
    requires Current(writer, newest)
    modifies writer, writer.directory
    ensures Current(writer, NewestIn(newest, batch))
    ensures Flushes(writer.limit, old(writer.directory.segments), writer.directory.segments, batch, answer)
    ensures answer.Flushed? ==> forall e :: e in batch ==> |e.encoded| + 1 <= writer.limit
    ensures calm && Increasing(newest, batch) ==> answer.Flushed?
  {
    hide Lines, Tail, Ordered, DiskLines, Encodes, FirstOversized, WritesBefore, Sound, BoundedDecoder, Last,
         BatchLines, UpTo, Fresh, Increasing, Bounds, SegmentWriter.Tracks, OpenLast, OpenLength, Interrupts, Spread,
         Repaired, Reports;
    var decode, limit, before := writer.decode, writer.limit, writer.directory.segments;
    forall m
      ensures !FirstOversized(limit, BatchLines(batch), m)
    {
      EventsFit(decode, limit, batch, m);
    }
    OpenLastUpTo(decode, writer.initialized, writer.last, before, newest, batch);
    var r := writer.Flush(batch, calm);
    answer := if r.Ok? then Flushed(r.value) else Failed;
    Outcomes(r);
    assert r != Err(EventExceedsSegment);
    FlushedUpTo(decode, limit, before, writer.directory.segments, newest, batch, answer);
    LastUpTo(decode, NewestIn(newest, batch), DiskLines(writer.directory.segments));
  }

  /** One operation on a sound log; a crash is a new writer on the same directory. */
  method OneStep(writer: SegmentWriter, operation: Operation, ghost newest: nat)
    returns (writer': SegmentWriter, answer: Answer)
    requires BoundedDecoder(writer.decode) && writer.limit > MAX_PREPARED_EVENT_BYTES
    requires operation.FlushBatch? ==> forall e :: e in operation.batch ==> Encodes(writer.decode, e)
    requires Current(writer, newest)
    modifies writer, writer.directory
    ensures writer' == writer || fresh(writer')
    ensures writer'.decode == writer.decode && writer'.limit == writer.limit && writer'.directory == writer.directory
    ensures Current(writer', NewestAfter(newest, operation))
    ensures Step(writer.decode, writer.limit, old(writer.directory.segments), writer.directory.segments, operation,
                 answer)
    ensures operation.FlushBatch? && answer.Flushed? && operation.batch != [] ==>
              Rotates(writer.limit, old(writer.directory.segments), writer.directory.segments, operation.batch,
                      answer.outcome)
    ensures operation.FlushBatch? && operation.calm && Increasing(newest, operation.batch) ==> answer.Flushed?
  {
    hide Lines, Tail, Ordered, DiskLines, Encodes, Recoverable, FirstOversized, WritesBefore, Cut, Repaired, Sound,
         BoundedDecoder, Last, BatchLines, UpTo, NewestIn, Increasing, Rotates, Flushes;
    var decode, limit, directory := writer.decode, writer.limit, writer.directory;
    var before := directory.segments;
    writer', answer := writer, Done;
    match operation
    case FlushBatch(batch, calm) =>
      CurrentIsSound(writer, newest);
      answer := FlushStep(writer, batch, calm, newest);
      if answer.Flushed? && batch != [] {
        FlushRotates(decode, limit, before, directory.segments, batch, answer);
      }
    case RecoverLog(calm) =>
      SoundIsRecoverable(decode, limit, before);
      RepairIsSound(decode, limit, before);
      DiskIsBounded(decode, limit, before);
      LastUpTo(decode, newest, DiskLines(before));
      if writer.initialized {
        RepairKeepsTracking(before);
      }
      var r := writer.Recover(calm);
      answer := if r.Ok? then Done else Failed;
      Outcomes(r);
    case Crash =>
      writer' := new SegmentWriter(decode, limit, directory);
    case Retire(k) =>
      if k < |before| - 1 {
        RetireIsSound(decode, limit, before, k);
        RetireKeepsBounds(decode, limit, before, k, newest);
        if writer.initialized {
          RetireKeepsBounds(decode, limit, before, k, SequenceOf(writer.last));
        }
        directory.segments := before[..k] + before[k + 1..];
        assert directory.segments[|directory.segments| - 1] == before[|before| - 1];
      }
  }

  lemma LastUpTo(decode: Decoder, newest: nat, lines: seq<Bytes>)
    requires UpTo(decode, newest, lines)
    ensures SequenceOf(Last(decode, lines)) <= newest
  {
  }

  lemma OpenLastUpTo(decode: Decoder, initialized: bool, last: Option<Header>, segments: seq<Segment>, newest: nat,
                     batch: seq<Event>)
    requires UpTo(decode, newest, DiskLines(segments)) && (initialized ==> SequenceOf(last) <= newest)
    ensures SequenceOf(OpenLast(decode, initialized, last, segments)) <= newest
    ensures Increasing(newest, batch) ==> Fresh(OpenLast(decode, initialized, last, segments), batch)
  {
    hide DiskLines;
  }

  /** A flush brings nothing to disk that is newer than what it was offered. */
  lemma FlushedUpTo(decode: Decoder, limit: nat, before: seq<Segment>, after: seq<Segment>, newest: nat,
                    batch: seq<Event>, answer: Answer)
    requires UpTo(decode, newest, DiskLines(before)) && forall e :: e in batch ==> Encodes(decode, e)
    requires Flushes(limit, before, after, batch, answer)
    ensures UpTo(decode, NewestIn(newest, batch), DiskLines(after))
  {
    hide DiskLines, NewestIn, Spread, Interrupts, Reports;
    var lines := DiskLines(before);
    assert BatchLines(batch)[..|batch|] == BatchLines(batch);
    var k: nat :| k <= |batch| && DiskLines(after) == lines + BatchLines(batch)[..k];
    if k > 0 {
      assert batch[k - 1] in batch;
      assert (lines + BatchLines(batch)[..k])[|lines| + k - 1] == batch[k - 1].encoded;
    } else {
      assert lines + BatchLines(batch)[..0] == lines;
    }
  }

  /**
   Every run of flushes, failures, crashes, recoveries and retention, from an empty directory, when the
   segment limit admits the largest line. At every moment lines are ordered, segments are within the limit,
   recovery accepts the directory and cuts no line. Every line of every acknowledged flush is still there
   unless retired, and a calm flush of sequences above all offered before is acknowledged.
   */
  method EveryRun(decode: Decoder, limit: nat, operations: seq<Operation>)
    returns (trace: seq<seq<Segment>>, answers: seq<Answer>)
    requires BoundedDecoder(decode) && limit > MAX_PREPARED_EVENT_BYTES
    requires forall o, e :: o in operations && o.FlushBatch? && e in o.batch ==> Encodes(decode, e)
    ensures Run(decode, limit, trace, operations, answers)
    ensures forall n :: 0 <= n < |operations| && operations[n].FlushBatch? && operations[n].batch != []
                        && answers[n].Flushed? ==>
              Rotates(limit, trace[n], trace[n + 1], operations[n].batch, answers[n].outcome)
    ensures forall n :: 0 <= n <= |operations| ==>
              && Sound(decode, limit, trace[n]) && Recoverable(decode, limit, trace[n])
              && DiskLines(Cut(decode, trace[n])) == DiskLines(trace[n])
    ensures forall line :: line in Acknowledged(operations, answers) ==>
              line in DiskLines(trace[|operations|]) || line in Retired(trace, operations)
    ensures forall line :: line in DiskLines(trace[|operations|]) ==> Offered(operations, line)
    ensures forall n :: 0 <= n < |operations| && Welcome(operations, n) ==> answers[n].Flushed?
  {
    hide Lines, Tail, Ordered, DiskLines, Encodes, Recoverable, Cut, Repaired, BoundedDecoder, Sound, Current, Step,
         UpTo, NewestAfter, Increasing, Offered, Rotates;
    var directory := new Directory();
    EmptyIsSound(decode, limit);
    var writer := new SegmentWriter(decode, limit, directory);
    StartsCurrent(writer);
    trace, answers := [[]], [];
    assert operations[..0] == [];
    for n := 0 to |operations|
      invariant fresh(writer) && fresh(directory)
      invariant writer.decode == decode && writer.limit == limit && writer.directory == directory
      invariant Current(writer, Newest(operations[..n]))
      invariant |trace| == n + 1 && |answers| == n && trace[0] == [] && trace[n] == directory.segments
      invariant forall k :: 0 <= k <= n ==> Sound(decode, limit, trace[k])
      invariant forall k :: 0 <= k < n ==> Step(decode, limit, trace[k], trace[k + 1], operations[k], answers[k])
      invariant forall k :: 0 <= k < n && operations[k].FlushBatch? && operations[k].batch != []
                            && answers[k].Flushed? ==>
                  Rotates(limit, trace[k], trace[k + 1], operations[k].batch, answers[k].outcome)
      invariant forall k :: 0 <= k < n && Welcome(operations, k) ==> answers[k].Flushed?
    {
      assert operations[n] in operations;
      assert operations[..n + 1][..n] == operations[..n];
      var writer', answer := OneStep(writer, operations[n], Newest(operations[..n]));
      writer := writer';
      trace, answers := trace + [directory.segments], answers + [answer];
      CurrentIsSound(writer, Newest(operations[..n + 1]));
    }
    NothingIsLost(decode, limit, trace, operations, answers);
    forall n | 0 <= n <= |operations|
      ensures Recoverable(decode, limit, trace[n]) && DiskLines(Cut(decode, trace[n])) == DiskLines(trace[n])
    {
      SoundIsRecoverable(decode, limit, trace[n]);
      RepairIsSound(decode, limit, trace[n]);
    }
  }

  lemma StartsCurrent(writer: SegmentWriter)
    requires !writer.initialized && writer.directory.segments == []
    ensures Current(writer, 0) && Newest([]) == 0 && Sound(writer.decode, writer.limit, [])
  {
    NoLines();
    EmptyIsSound(writer.decode, writer.limit);
  }

  lemma CurrentIsSound(writer: SegmentWriter, newest: nat)
    requires Current(writer, newest)
    ensures Sound(writer.decode, writer.limit, writer.directory.segments)
  {
  }

  lemma NotInitialized(writer: SegmentWriter)
    requires !writer.initialized
    ensures writer.Tracks()
  {
  }

  lemma DiskIsBounded(decode: Decoder, limit: nat, segments: seq<Segment>)
    requires Sound(decode, limit, segments)
    ensures Bounds(decode, Last(decode, DiskLines(segments)), DiskLines(segments))
  {
    LastBounds(decode, DiskLines(segments));
  }

  lemma EmptyIsSound(decode: Decoder, limit: nat)
    ensures Sound(decode, limit, [])
  {
    assert DiskLines([]) == [];
  }

  lemma RepairKeepsTracking(segments: seq<Segment>)
    requires segments != [] && Tail(LastBytes(segments)) == []
    ensures Repaired(segments) == segments
  {
    assert LastBytes(segments)[..|LastBytes(segments)|] == LastBytes(segments);
    assert WithLast(segments, LastBytes(segments)) == segments;
  }

  /** Retiring a closed segment cannot bring the last event on disk above a bound it kept. */
  lemma RetireKeepsBounds(decode: Decoder, limit: nat, segments: seq<Segment>, k: nat, newest: nat)
    requires Sound(decode, limit, segments) && k < |segments| - 1 && UpTo(decode, newest, DiskLines(segments))
    ensures UpTo(decode, newest, DiskLines(segments[..k] + segments[k + 1..]))
  {
    hide Lines, DiskLines, Ordered, UpTo;
    DiskLinesAround(segments, k);
    UpToGap(decode, newest, DiskLines(segments[..k]), Lines(segments[k].bytes), DiskLines(segments[k + 1..]));
  }

  lemma UpToGap(decode: Decoder, newest: nat, a: seq<Bytes>, b: seq<Bytes>, c: seq<Bytes>)
    requires Ordered(decode, a + b + c) && UpTo(decode, newest, a + b + c)
    ensures UpTo(decode, newest, a + c)
  {
    var all := a + b + c;
    if a + c != [] {
      var at := if c == [] then |a| - 1 else |all| - 1;
      assert (a + c)[|a + c| - 1] == all[at];
      assert at < |all| - 1 ==> decode(all[at]).value.sequence < decode(all[|all| - 1]).value.sequence;
    }
  }

  lemma LastBounds(decode: Decoder, lines: seq<Bytes>)
    requires Ordered(decode, lines)
    ensures Bounds(decode, Last(decode, lines), lines)
  {
  }
}
