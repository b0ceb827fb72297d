/** Text as newline-terminated lines: the complete lines of a byte string and what follows the last newline. */
module TextLines {
  import opened Prelude

  /** The position of the first newline at or after `at`, or the end. */
  function NextNewline(b: Bytes, at: nat): (end: nat)
    requires at <= |b|
    ensures at <= end <= |b|
    ensures end < |b| ==> b[end] == NEWLINE
    ensures forall i :: at <= i < end ==> b[i] != NEWLINE
    decreases |b| - at
  {
    if at == |b| || b[at] == NEWLINE then at else NextNewline(b, at + 1)
  }

  lemma NewlineIsNext(b: Bytes, at: nat, end: nat)
    requires at <= end <= |b| && (end < |b| ==> b[end] == NEWLINE)
    requires forall i :: at <= i < end ==> b[i] != NEWLINE
    ensures NextNewline(b, at) == end
  {
  }

  lemma LineAtFront(b: Bytes, at: nat, line: Bytes, rest: Bytes)
    requires at <= |b| && NEWLINE !in line && line + [NEWLINE] + rest <= b[at..]
    ensures at + |line| < |b| && NextNewline(b, at) == at + |line| && b[at..at + |line|] == line
    ensures rest <= b[at + |line| + 1..]
  {
    var end := at + |line|;
    assert forall i :: 0 <= i <= |line| + |rest| ==> b[at + i] == b[at..][i] == (line + [NEWLINE] + rest)[i];
    assert forall i :: at <= i < end ==> b[i] == line[i - at];
    assert b[end] == NEWLINE;
    NewlineIsNext(b, at, end);
    assert b[end + 1..][..|rest|] == b[at..][|line| + 1..|line| + 1 + |rest|];
  }

  function Join(lines: seq<Bytes>): Bytes {
    if lines == [] then [] else lines[0] + [NEWLINE] + Join(lines[1..])
  }

  function Lines(b: Bytes): seq<Bytes>
    decreases |b|
  {
    var end := NextNewline(b, 0);
    if end == |b| then [] else [b[..end]] + Lines(b[end + 1..])
  }

  function Tail(b: Bytes): (tail: Bytes)
    ensures |tail| <= |b|
    decreases |b|
  {
    var end := NextNewline(b, 0);
    if end == |b| then b else Tail(b[end + 1..])
  }

  ghost predicate NoNewlines(lines: seq<Bytes>) {
    forall i :: 0 <= i < |lines| ==> NEWLINE !in lines[i]
  }

  lemma JoinFirst(line: Bytes, rest: seq<Bytes>)
    ensures Join([line] + rest) == line + [NEWLINE] + Join(rest)
  {
    assert ([line] + rest)[1..] == rest;
  }

  lemma FirstLine(b: Bytes, line: Bytes, rest: Bytes)
    requires NEWLINE !in line && b == line + [NEWLINE] + rest
    ensures Lines(b) == [line] + Lines(rest) && Tail(b) == Tail(rest)
  {
    LineAtFront(b, 0, line, rest);
    assert b[|line| + 1..] == rest;
  }

  lemma OnlyTail(b: Bytes)
    requires NEWLINE !in b
    ensures Lines(b) == [] && Tail(b) == b
  {
    NewlineIsNext(b, 0, |b|);
  }

  lemma {:induction false} LinesRoundTrip(b: Bytes)
    ensures Join(Lines(b)) + Tail(b) == b && NoNewlines(Lines(b)) && NEWLINE !in Tail(b)
    decreases |b|
  {
    hide Lines, Tail;
    var end := NextNewline(b, 0);
    if end < |b| {
      var line, rest := b[..end], b[end + 1..];
      LinesRoundTrip(rest);
      SplitAround(b, 0, end);
      FirstLine(b, line, rest);
      JoinFirst(line, Lines(rest));
      Regroup(line + [NEWLINE], Join(Lines(rest)), Tail(rest));
    } else {
      OnlyTail(b);
      assert Join([]) + b == b;
    }
  }

  lemma {:induction false} LinesOfJoin(lines: seq<Bytes>, tail: Bytes)
    requires NoNewlines(lines) && NEWLINE !in tail
    ensures Lines(Join(lines) + tail) == lines && Tail(Join(lines) + tail) == tail
  {
    var b := Join(lines) + tail;
    if lines == [] {
      assert b == tail;
    } else {
      var line, rest := lines[0], Join(lines[1..]) + tail;
      assert b == line + [NEWLINE] + rest;
      LineAtFront(b, 0, line, rest);
      assert b[|line| + 1..] == rest;
      LinesOfJoin(lines[1..], tail);
    }
  }

  lemma {:induction false} JoinAppend(a: seq<Bytes>, b: seq<Bytes>)
    ensures Join(a + b) == Join(a) + Join(b)
  {
    if a == [] {
      assert a + b == b;
    } else {
      assert (a + b)[1..] == a[1..] + b;
      JoinAppend(a[1..], b);
    }
  }

  /** Appending after a complete line adds lines. */
  lemma LinesAppend(a: Bytes, b: Bytes)
    requires Tail(a) == []
    ensures Lines(a + b) == Lines(a) + Lines(b) && Tail(a + b) == Tail(b)
  {
    hide Lines, Tail, Join;
    LinesRoundTrip(a);
    LinesRoundTrip(b);
    JoinAppend(Lines(a), Lines(b));
    assert a + b == Join(Lines(a) + Lines(b)) + Tail(b);
    LinesOfJoin(Lines(a) + Lines(b), Tail(b));
  }

  /** Whatever prefix of an append reached disk, its complete lines are a prefix of the appended lines. */
  lemma {:induction false} TornLines(lines: seq<Bytes>, torn: Bytes)
    requires NoNewlines(lines) && torn <= Join(lines)
    ensures Lines(torn) <= lines
    ensures torn == Join(lines) ==> Lines(torn) == lines && Tail(torn) == []
  {
    if lines != [] {
      var line, rest := lines[0], Join(lines[1..]);
      assert Join(lines) == line + [NEWLINE] + rest;
      if |torn| <= |line| {
        assert torn == line[..|torn|];
        NewlineIsNext(torn, 0, |torn|);
      } else {
        var after := torn[|line| + 1..];
        assert torn == line + [NEWLINE] + after;
        LineAtFront(torn, 0, line, after);
        assert after <= rest;
        TornLines(lines[1..], after);
        assert Lines(torn) == [line] + Lines(after);
      }
    }
  }

  lemma SuffixLines(b: Bytes, at: nat)
    requires at <= |b|
    ensures var end := NextNewline(b, at);
            if end == |b| then Lines(b[at..]) == [] && Tail(b[at..]) == b[at..]
            else Lines(b[at..]) == [b[at..end]] + Lines(b[end + 1..]) && Tail(b[at..]) == Tail(b[end + 1..])
  {
    hide Lines, Tail;
    var suffix, end := b[at..], NextNewline(b, at);
    if end < |b| {
      SplitAround(b, at, end);
      FirstLine(suffix, b[at..end], b[end + 1..]);
    } else {
      OnlyTail(suffix);
    }
  }

  lemma NothingJoined()
    ensures Join([]) == []
  {
  }

  lemma EmptyWithoutLines(b: Bytes)
    requires Tail(b) == [] && b != []
    ensures Lines(b) != []
  {
    LinesRoundTrip(b);
    NothingJoined();
  }

  lemma TailLength(b: Bytes)
    ensures |Tail(b)| <= |b| && b[..|b| - |Tail(b)|] == Join(Lines(b))
    ensures Lines(Join(Lines(b))) == Lines(b) && Tail(Join(Lines(b))) == []
  {
    LinesRoundTrip(b);
    LinesOfJoin(Lines(b), []);
    assert Join(Lines(b)) + [] == Join(Lines(b));
  }
}
