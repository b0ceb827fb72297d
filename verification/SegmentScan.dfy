/**
 The segment scanner and the whole-buffer validator of `wokcore-diagnostics/src/segment.rs`.

 Decoding an event is a parameter: any function from a line to the sequence and identity it carries
 that refuses empty lines and lines above 16384 bytes (`decode_event` in `event.rs`).
 */
module SegmentScan {
  import opened Prelude
  import opened TextLines

  const MAX_SEGMENT_BYTES: nat := 4_194_304

  datatype Header = Header(sequence: nat, id: nat)

  type Decoder = Bytes -> Option<Header>

  ghost predicate BoundedDecoder(decode: Decoder) {
    forall line :: decode(line).Some? ==> 0 < |line| <= MAX_PREPARED_EVENT_BYTES
  }

  datatype Status = Complete | TornTail | Corrupt

  datatype Scan = Scan(validLen: nat, first: Option<nat>, last: Option<Header>, status: Status)

  datatype SegmentError = InvalidData | EventExceedsSegment | Io

  // The specification: read line by line from `at`.

  /** The header of `line` if the scan may accept it after `last`. */
  function Accept(decode: Decoder, maxLine: nat, line: Bytes, last: Option<Header>): Option<Header> {
    var header := if |line| > maxLine then None else decode(line);
    if header.Some? && last.Some? && header.value.sequence <= last.value.sequence then None else header
  }

  function ScanFrom(decode: Decoder, maxLine: nat, b: Bytes, at: nat, first: Option<nat>, last: Option<Header>): Scan
    requires at <= |b|
    decreases |b| - at
  {
    var end := NextNewline(b, at);
    if end == |b| then
      Scan(at, first, last, if at == |b| then Complete else if at == 0 then Corrupt else TornTail)
    else
      match Accept(decode, maxLine, b[at..end], last)
      case None => Scan(at, first, last, Corrupt)
      case Some(header) =>
        ScanFrom(decode, maxLine, b, end + 1, if first.Some? then first else Some(header.sequence), Some(header))
  }

  function ScanOf(decode: Decoder, b: Bytes): Scan {
    ScanFrom(decode, MAX_PREPARED_EVENT_BYTES, b, 0, None, None)
  }

  /** The reader returns the bytes of the file, in pieces of any positive length up to what was asked. */
  ghost predicate Faithful(reader: (nat, nat) -> Bytes, b: Bytes) {
    forall offset: nat, wanted: nat :: offset < |b| && wanted > 0 ==>
      && 0 < |reader(offset, wanted)| <= wanted
      && reader(offset, wanted) <= b[offset..]
  }

  /** What the scanner's variables stand for after `at` bytes of a faithful reading. */
  ghost predicate Reading(decode: Decoder, maxLine: nat, b: Bytes, at: nat, validLen: nat, first: Option<nat>,
                          last: Option<Header>, line: Bytes, oversized: bool)
  {
    && validLen <= at <= |b|
    && (forall i :: validLen <= i < at ==> b[i] != NEWLINE)
    && oversized == (at - validLen > maxLine)
    && (!oversized ==> line == b[validLen..at])
    && ScanFrom(decode, maxLine, b, 0, None, None) == ScanFrom(decode, maxLine, b, validLen, first, last)
  }

  lemma ReadingByte(decode: Decoder, maxLine: nat, b: Bytes, at: nat, validLen: nat, first: Option<nat>,
                    last: Option<Header>, line: Bytes, oversized: bool, line': Bytes, oversized': bool)
    requires Reading(decode, maxLine, b, at, validLen, first, last, line, oversized)
    requires at < |b| && b[at] != NEWLINE
    requires oversized' == (oversized || |line| == maxLine) && (!oversized' ==> line' == line + [b[at]])
    ensures Reading(decode, maxLine, b, at + 1, validLen, first, last, line', oversized')
  {
    assert b[validLen..at + 1] == b[validLen..at] + [b[at]];
  }

  lemma ReadingLine(decode: Decoder, maxLine: nat, b: Bytes, at: nat, validLen: nat, first: Option<nat>,
                    last: Option<Header>, line: Bytes, oversized: bool)
    requires Reading(decode, maxLine, b, at, validLen, first, last, line, oversized)
    requires at < |b| && b[at] == NEWLINE
    ensures var header := if oversized then None else decode(line);
            if header.None? || (last.Some? && header.value.sequence <= last.value.sequence) then
              ScanFrom(decode, maxLine, b, 0, None, None) == Scan(validLen, first, last, Corrupt)
            else
              Reading(decode, maxLine, b, at + 1, at + 1, if first.Some? then first else Some(header.value.sequence),
                      header, [], false)
  {
    NewlineIsNext(b, validLen, at);
  }

  lemma ReadingEnd(decode: Decoder, maxLine: nat, b: Bytes, validLen: nat, first: Option<nat>, last: Option<Header>,
                   line: Bytes, oversized: bool)
    requires Reading(decode, maxLine, b, |b|, validLen, first, last, line, oversized)
    ensures ScanFrom(decode, maxLine, b, 0, None, None)
            == Scan(validLen, first, last, if |line| == 0 && !oversized then Complete
                                           else if validLen == 0 then Corrupt else TornTail)
  {
    NewlineIsNext(b, validLen, |b|);
  }

  /** The streaming scan does not depend on how the file is cut into chunks. */
  method ScanSegment(decode: Decoder, fileLen: nat, readChunk: nat, maxLine: nat, reader: (nat, nat) -> Bytes,
                     ghost b: Bytes)
    returns (r: Result<Scan, SegmentError>)
    ensures readChunk == 0 || maxLine == 0 ==> r == Err(InvalidData)
    ensures readChunk > 0 && maxLine > 0 && |b| == fileLen && Faithful(reader, b) ==>
              r == Ok(ScanFrom(decode, maxLine, b, 0, None, None))
  {
    hide Reading, ScanFrom;
    if readChunk == 0 || maxLine == 0 {
      return Err(InvalidData);
    }
    ghost var faithful := |b| == fileLen && Faithful(reader, b);
    var validLen: nat, readOffset: nat := 0, 0;
    var first: Option<nat>, last: Option<Header> := None, None;
    var line: Bytes, oversized := [], false;
    ReadingStarts(decode, maxLine, b);
    while readOffset < fileLen
      invariant readOffset <= fileLen
      invariant faithful ==> Reading(decode, maxLine, b, readOffset, validLen, first, last, line, oversized)
    {
      var requested := if readChunk <= fileLen - readOffset then readChunk else fileLen - readOffset;
      var bytes := reader(readOffset, requested);
      if |bytes| == 0 || |bytes| > requested {
        return Err(InvalidData);
      }
      var chunkStart := readOffset;
      readOffset := readOffset + |bytes|;
      for index := 0 to |bytes|
        invariant faithful ==> Reading(decode, maxLine, b, chunkStart + index, validLen, first, last, line, oversized)
      {
        var at := chunkStart + index;
        assert faithful ==> bytes[index] == b[chunkStart..][index] == b[at];
        ghost var line0, oversized0 := line, oversized;
        if bytes[index] != NEWLINE {
          if !oversized {
            if |line| == maxLine {
              oversized := true;
            } else {
              line := line + [bytes[index]];
            }
          }
          if faithful {
            ReadingByte(decode, maxLine, b, at, validLen, first, last, line0, oversized0, line, oversized);
          }
        } else {
          if faithful {
            ReadingLine(decode, maxLine, b, at, validLen, first, last, line, oversized);
          }
          if oversized {
            return Ok(Scan(validLen, first, last, Corrupt));
          }
          var header := decode(line);
          if header.None? {
            return Ok(Scan(validLen, first, last, Corrupt));
          }
          if last.Some? && header.value.sequence <= last.value.sequence {
            return Ok(Scan(validLen, first, last, Corrupt));
          }
          first := if first.Some? then first else Some(header.value.sequence);
          last := header;
          validLen := at + 1;
          line := [];
        }
      }
    }
    if faithful {
      ReadingEnd(decode, maxLine, b, validLen, first, last, line, oversized);
    }
    if |line| > 0 || oversized {
      return Ok(Scan(validLen, first, last, if validLen == 0 then Corrupt else TornTail));
    }
    return Ok(Scan(validLen, first, last, Complete));
  }

  lemma ReadingStarts(decode: Decoder, maxLine: nat, b: Bytes)
    ensures Reading(decode, maxLine, b, 0, 0, None, None, [], false)
  {
  }

  // What the scan means: the longest prefix of complete, decodable, strictly increasing lines.

  ghost predicate Acceptable(decode: Decoder, maxLine: nat, lines: seq<Bytes>, last: Option<Header>) {
    lines != [] ==>
      && NEWLINE !in lines[0]
      && Accept(decode, maxLine, lines[0], last).Some?
      && Acceptable(decode, maxLine, lines[1..], Accept(decode, maxLine, lines[0], last))
  }

  lemma {:induction false} ScanFindsLines(decode: Decoder, maxLine: nat, b: Bytes, at: nat, first: Option<nat>,
                                          last: Option<Header>)
    returns (lines: seq<Bytes>)
    requires at <= |b|
    ensures var end := ScanFrom(decode, maxLine, b, at, first, last).validLen;
            at <= end <= |b| && Acceptable(decode, maxLine, lines, last) && Join(lines) == b[at..end]
    decreases |b| - at
  {
    hide Accept, Acceptable, Join;
    var end := NextNewline(b, at);
    lines := [];
    NoLineAcceptable(decode, maxLine, last);
    if end < |b| && Accept(decode, maxLine, b[at..end], last).Some? {
      var header := Accept(decode, maxLine, b[at..end], last);
      var rest := ScanFindsLines(decode, maxLine, b, end + 1,
                                 if first.Some? then first else Some(header.value.sequence), header);
      lines := [b[at..end]] + rest;
      AcceptableFirst(decode, maxLine, b[at..end], rest, last);
      SliceAround(b, at, end, ScanFrom(decode, maxLine, b, at, first, last).validLen);
    }
  }

  lemma NoLineAcceptable(decode: Decoder, maxLine: nat, last: Option<Header>)
    ensures Acceptable(decode, maxLine, [], last) && Join([]) == []
  {
  }

  lemma AcceptableFirst(decode: Decoder, maxLine: nat, line: Bytes, rest: seq<Bytes>, last: Option<Header>)
    requires NEWLINE !in line && Accept(decode, maxLine, line, last).Some?
    requires Acceptable(decode, maxLine, rest, Accept(decode, maxLine, line, last))
    ensures Acceptable(decode, maxLine, [line] + rest, last) && Join([line] + rest) == line + [NEWLINE] + Join(rest)
  {
    assert ([line] + rest)[1..] == rest;
  }

  lemma SliceAround(b: Bytes, at: nat, end: nat, stop: nat)
    requires at <= end < stop <= |b|
    ensures b[at..stop] == b[at..end] + [b[end]] + b[end + 1..stop]
  {
  }

  lemma {:induction false} ScanMissesNoLine(decode: Decoder, maxLine: nat, b: Bytes, at: nat, first: Option<nat>,
                                            last: Option<Header>, lines: seq<Bytes>)
    requires at <= |b| && Acceptable(decode, maxLine, lines, last) && Join(lines) <= b[at..]
    ensures at + |Join(lines)| <= ScanFrom(decode, maxLine, b, at, first, last).validLen
    decreases |b| - at
  {
    hide Accept, ScanFrom, Join, Acceptable;
    if lines == [] {
      NoLineAcceptable(decode, maxLine, last);
      StatusMeaning(decode, maxLine, b, at, first, last);
    } else {
      var line, rest := lines[0], lines[1..];
      var header := Accept(decode, maxLine, line, last);
      var begun := if first.Some? || header.None? then first else Some(header.value.sequence);
      AcceptableParts(decode, maxLine, lines, last);
      LineAtFront(b, at, line, Join(rest));
      ScanAccepts(decode, maxLine, b, at, first, last);
      ScanMissesNoLine(decode, maxLine, b, at + |line| + 1, begun, header, rest);
    }
  }

  lemma AcceptableParts(decode: Decoder, maxLine: nat, lines: seq<Bytes>, last: Option<Header>)
    requires lines != [] && Acceptable(decode, maxLine, lines, last)
    ensures NEWLINE !in lines[0] && Accept(decode, maxLine, lines[0], last).Some?
    ensures Acceptable(decode, maxLine, lines[1..], Accept(decode, maxLine, lines[0], last))
    ensures Join(lines) == lines[0] + [NEWLINE] + Join(lines[1..])
  {
  }

  lemma ScanAccepts(decode: Decoder, maxLine: nat, b: Bytes, at: nat, first: Option<nat>, last: Option<Header>)
    requires at <= |b| && NextNewline(b, at) < |b| && Accept(decode, maxLine, b[at..NextNewline(b, at)], last).Some?
    ensures var end := NextNewline(b, at);
            var header := Accept(decode, maxLine, b[at..end], last);
            ScanFrom(decode, maxLine, b, at, first, last)
            == ScanFrom(decode, maxLine, b, end + 1, if first.Some? then first else Some(header.value.sequence), header)
  {
    hide Accept;
  }

  /** The valid length is the length of the longest acceptable prefix. */
  lemma ScanIsLongestPrefix(decode: Decoder, b: Bytes)
    ensures ScanOf(decode, b).validLen <= |b|
    ensures exists lines :: Acceptable(decode, MAX_PREPARED_EVENT_BYTES, lines, None)
                            && Join(lines) == b[..ScanOf(decode, b).validLen]
    ensures forall lines :: Acceptable(decode, MAX_PREPARED_EVENT_BYTES, lines, None) && Join(lines) <= b ==>
                              |Join(lines)| <= ScanOf(decode, b).validLen
  {
    var found := ScanFindsLines(decode, MAX_PREPARED_EVENT_BYTES, b, 0, None, None);
    assert b[0..] == b;
    forall lines | Acceptable(decode, MAX_PREPARED_EVENT_BYTES, lines, None) && Join(lines) <= b
      ensures |Join(lines)| <= ScanOf(decode, b).validLen
    {
      ScanMissesNoLine(decode, MAX_PREPARED_EVENT_BYTES, b, 0, None, None, lines);
    }
  }

  /** The status tells what follows the valid prefix. */
  lemma {:induction false} StatusMeaning(decode: Decoder, maxLine: nat, b: Bytes, at: nat, first: Option<nat>,
                                         last: Option<Header>)
    requires at <= |b|
    ensures var scan := ScanFrom(decode, maxLine, b, at, first, last);
            && at <= scan.validLen <= |b|
            && (scan.status.Complete? <==> scan.validLen == |b|)
            && (scan.status.TornTail? <==> 0 < scan.validLen < |b| && NEWLINE !in b[scan.validLen..])
    decreases |b| - at
  {
    var end := NextNewline(b, at);
    if end < |b| {
      var header := Accept(decode, maxLine, b[at..end], last);
      if header.Some? {
        StatusMeaning(decode, maxLine, b, end + 1, if first.Some? then first else Some(header.value.sequence), header);
      } else {
        assert b[at..][end - at] == NEWLINE;
      }
    }
  }

  /** The whole-buffer validator agrees with the streaming scan on every byte string. */
  method ValidateComplete(decode: Decoder, b: Bytes) returns (r: Option<(nat, nat)>)
    ensures BoundedDecoder(decode) ==>
              (r.Some? <==> 0 < |b| <= MAX_SEGMENT_BYTES && ScanOf(decode, b).status.Complete?)
    ensures BoundedDecoder(decode) && r.Some? ==>
              var scan := ScanOf(decode, b);
              scan.first == Some(r.value.0) && scan.last.Some? && scan.last.value.sequence == r.value.1
  {
    hide ScanFrom;
    StatusMeaning(decode, MAX_PREPARED_EVENT_BYTES, b, 0, None, None);
    if |b| == 0 || |b| > MAX_SEGMENT_BYTES || b[|b| - 1] != NEWLINE {
      if 0 < |b| <= MAX_SEGMENT_BYTES {
        NeedsFinalNewline(decode, MAX_PREPARED_EVENT_BYTES, b, 0, None, None);
      }
      return None;
    }
    var first: Option<nat>, last: Option<Header>, at: nat := None, None, 0;
    while at < |b|
      invariant at <= |b| && (first.Some? == last.Some? == (at > 0))
      invariant BoundedDecoder(decode) ==>
                  ScanOf(decode, b) == ScanFrom(decode, MAX_PREPARED_EVENT_BYTES, b, at, first, last)
    {
      var end := NextNewline(b, at);
      if BoundedDecoder(decode) {
        ScanStep(decode, b, at, first, last);
      }
      var line := b[at..end];
      if line == [] {
        return None;
      }
      var header := decode(line);
      if header.None? || (last.Some? && header.value.sequence <= last.value.sequence) {
        return None;
      }
      first := if first.Some? then first else Some(header.value.sequence);
      last := header;
      at := end + 1;
    }
    StatusMeaning(decode, MAX_PREPARED_EVENT_BYTES, b, at, first, last);
    if BoundedDecoder(decode) {
      ScanAtEnd(decode, b, first, last);
    }
    r := Some((first.value, last.value.sequence));
  }

  lemma ScanAtEnd(decode: Decoder, b: Bytes, first: Option<nat>, last: Option<Header>)
    ensures ScanFrom(decode, MAX_PREPARED_EVENT_BYTES, b, |b|, first, last) == Scan(|b|, first, last, Complete)
  {
  }

  lemma ScanStep(decode: Decoder, b: Bytes, at: nat, first: Option<nat>, last: Option<Header>)
    requires BoundedDecoder(decode) && at < |b| && b[|b| - 1] == NEWLINE
    ensures var end := NextNewline(b, at);
            end < |b| &&
            var header := decode(b[at..end]);
            && (at == end ==> header.None?)
            && ScanFrom(decode, MAX_PREPARED_EVENT_BYTES, b, at, first, last)
               == if header.None? || (last.Some? && header.value.sequence <= last.value.sequence)
                  then Scan(at, first, last, Corrupt)
                  else ScanFrom(decode, MAX_PREPARED_EVENT_BYTES, b, end + 1,
                                if first.Some? then first else Some(header.value.sequence), header)
  {
  }

  lemma {:induction false} NeedsFinalNewline(decode: Decoder, maxLine: nat, b: Bytes, at: nat, first: Option<nat>,
                                             last: Option<Header>)
    requires at <= |b| && 0 < |b| && b[|b| - 1] != NEWLINE
    requires at < |b|
    ensures !ScanFrom(decode, maxLine, b, at, first, last).status.Complete?
    decreases |b| - at
  {
    var end := NextNewline(b, at);
    if end < |b| {
      var header := Accept(decode, maxLine, b[at..end], last);
      if header.Some? {
        NeedsFinalNewline(decode, maxLine, b, end + 1, if first.Some? then first else Some(header.value.sequence),
                          header);
      }
    }
  }
}
