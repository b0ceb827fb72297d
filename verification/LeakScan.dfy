/**
 The leak scan of an export: the fixed patterns and canaries of `LeakCanarySet`, and the chunked scans
 `scan_logical_bytes` and `scan_raw_archive_canaries` of `wokcore-diagnostics/src/export.rs`, which carry
 the end of what they saw from one chunk to the next.
 */
module LeakScan {
  import opened Prelude

  const MAX_LEAK_CANARIES: nat := 16
  const MAX_LEAK_CANARY_BYTES: nat := 256

  const QUOTE: byte := 34
  const SLASH: byte := 47
  const COLON: byte := 58
  const BACKSLASH: byte := 92

  const FIXED_FORBIDDEN_KEYS: seq<string> := [
    "authorization", "proxy_authorization", "cookie", "set_cookie", "api_key", "access_token", "refresh_token",
    "id_token", "password", "secret", "credential", "body", "headers", "path", "prompt", "tool", "sse", "content"
  ]

  const LOCATION_MARKERS: seq<string> := [
    "file://", "http://", "https://", "%2f", "%5c", "%3a", "%40", "%3f", "%25"
  ]

  function Lower(b: byte): byte {
    if 65 <= b <= 90 then b + 32 else b
  }

  predicate Letter(b: byte) {
    65 <= b <= 90 || 97 <= b <= 122
  }

  predicate SameIgnoringCase(a: Bytes, b: Bytes) {
    |a| == |b| && forall i :: 0 <= i < |a| ==> Lower(a[i]) == Lower(b[i])
  }

  // What counts as a leak: a pattern of a fixed width somewhere in the bytes.

  datatype Pattern =
    | Canary(bytes: Bytes)
    | Key(name: string)
    | Marker(text: string)
    | QuotedPath
    | QuotedShare
    | QuotedDrive

  function Width(p: Pattern): nat {
    match p
    case Canary(bytes) => |bytes|
    case Key(name) => |name| + 2
    case Marker(text) => |text|
    case QuotedPath => 2
    case QuotedShare => 5
    case QuotedDrive => 5
  }

  predicate Matches(p: Pattern, window: Bytes)
    requires |window| == Width(p)
  {
    match p
    case Canary(bytes) => window == bytes
    case Key(name) =>
      window[0] == QUOTE && window[|name| + 1] == QUOTE && SameIgnoringCase(window[1..|name| + 1], Ascii(name))
    case Marker(text) => SameIgnoringCase(window, Ascii(text))
    case QuotedPath => window[0] == QUOTE && window[1] == SLASH
    case QuotedShare => window[0] == QUOTE && forall i :: 1 <= i < 5 ==> window[i] == BACKSLASH
    case QuotedDrive =>
      && window[0] == QUOTE && Letter(window[1]) && window[2] == COLON
      && (window[3] == SLASH || (window[3] == BACKSLASH && window[4] == BACKSLASH))
  }

  predicate OccursAt(p: Pattern, b: Bytes, i: int) {
    0 <= i && i + Width(p) <= |b| && Matches(p, b[i..i + Width(p)])
  }

  predicate Occurs(p: Pattern, b: Bytes) {
    exists i :: 0 <= i <= |b| && OccursAt(p, b, i)
  }

  ghost predicate Fixed(p: Pattern) {
    || (p.Key? && p.name in FIXED_FORBIDDEN_KEYS)
    || (p.Marker? && p.text in LOCATION_MARKERS)
    || p.QuotedPath? || p.QuotedShare? || p.QuotedDrive?
  }

  /** The patterns a scan looks for: the fixed ones of a logical scan, the canaries of a raw one, or both. */
  ghost predicate Sought(canaries: seq<Bytes>, fixed: bool, raw: bool, p: Pattern) {
    (fixed && Fixed(p)) || (raw && p.Canary? && p.bytes in canaries)
  }

  ghost predicate Leaks(canaries: seq<Bytes>, fixed: bool, raw: bool, b: Bytes) {
    exists p :: Sought(canaries, fixed, raw, p) && Occurs(p, b)
  }

  // Carrying the end of the stream is enough.

  lemma OccursWithin(p: Pattern, b: Bytes, lo: nat, hi: nat, i: nat)
    requires lo <= hi <= |b| && i + Width(p) <= hi - lo
    ensures OccursAt(p, b[lo..hi], i) <==> OccursAt(p, b, lo + i)
  {
    hide Matches, Width;
    SliceOfSlice(b, lo, hi, i, Width(p));
  }

  lemma SliceOfSlice(b: Bytes, lo: nat, hi: nat, i: nat, w: nat)
    requires lo <= hi <= |b| && i + w <= hi - lo
    ensures b[lo..hi][i..i + w] == b[lo + i..lo + i + w]
  {
    var x, y := b[lo..hi][i..i + w], b[lo + i..lo + i + w];
    assert forall k :: 0 <= k < w ==> x[k] == y[k];
  }

  /** A pattern in the stream is in the part seen before, or in the carried tail with the new chunk. */
  lemma OccursInPieces(p: Pattern, seen: Bytes, base: nat, chunk: Bytes)
    requires base <= |seen| && (base == 0 || Width(p) <= |seen| - base + 1)
    ensures Occurs(p, seen + chunk) <==> Occurs(p, seen) || Occurs(p, seen[base..] + chunk)
  {
    hide Matches, OccursAt;
    var stream, scan, w := seen + chunk, seen[base..] + chunk, Width(p);
    assert stream[base..|stream|] == scan && stream[0..|seen|] == seen;
    if Occurs(p, seen) {
      var i :| 0 <= i <= |seen| && OccursAt(p, seen, i);
      OccursFits(p, seen, i);
      OccursWithin(p, stream, 0, |seen|, i);
    }
    if Occurs(p, scan) {
      var i :| 0 <= i <= |scan| && OccursAt(p, scan, i);
      OccursFits(p, scan, i);
      OccursWithin(p, stream, base, |stream|, i);
    }
    if Occurs(p, stream) {
      var i :| 0 <= i <= |stream| && OccursAt(p, stream, i);
      OccursFits(p, stream, i);
      if i + w <= |seen| {
        OccursWithin(p, stream, 0, |seen|, i);
      } else {
        OccursWithin(p, stream, base, |stream|, i - base);
      }
    }
  }

  lemma OccursFits(p: Pattern, b: Bytes, i: nat)
    requires OccursAt(p, b, i)
    ensures i + Width(p) <= |b|
  {
  }

  function MaxOf(lengths: seq<nat>): (max: nat)
    ensures forall i :: 0 <= i < |lengths| ==> lengths[i] <= max
  {
    if lengths == [] then 0
    else
      var rest := MaxOf(lengths[1..]);
      if lengths[0] > rest then lengths[0] else rest
  }

  function Lengths(patterns: seq<Bytes>): (lengths: seq<nat>)
    ensures |lengths| == |patterns| && forall i :: 0 <= i < |patterns| ==> lengths[i] == |patterns[i]|
  {
    seq(|patterns|, i requires 0 <= i < |patterns| => |patterns[i]|)
  }

  function KeyLengths(): (lengths: seq<nat>)
    ensures |lengths| == |FIXED_FORBIDDEN_KEYS|
    ensures forall i :: 0 <= i < |lengths| ==> lengths[i] == |FIXED_FORBIDDEN_KEYS[i]| + 4
  {
    seq(|FIXED_FORBIDDEN_KEYS|, i requires 0 <= i < |FIXED_FORBIDDEN_KEYS| => |FIXED_FORBIDDEN_KEYS[i]| + 4)
  }

  function MaxPatternLen(canaries: seq<Bytes>): (max: nat)
    ensures max >= 32
  {
    var lengths := Lengths(canaries) + KeyLengths() + [32];
    assert lengths[|lengths| - 1] == 32;
    MaxOf(lengths)
  }

  function MaxRawCanaryLen(canaries: seq<Bytes>): nat {
    if canaries == [] then 1 else MaxOf(Lengths(canaries))
  }

  lemma SoughtFits(canaries: seq<Bytes>, raw: bool, p: Pattern)
    requires Sought(canaries, true, raw, p)
    ensures Width(p) <= MaxPatternLen(canaries)
  {
    var lengths := Lengths(canaries) + KeyLengths() + [32];
    match p {
      case Key(name) =>
        var i :| 0 <= i < |FIXED_FORBIDDEN_KEYS| && FIXED_FORBIDDEN_KEYS[i] == name;
        assert lengths[|canaries| + i] == |name| + 4;
      case Canary(bytes) =>
        var i :| 0 <= i < |canaries| && canaries[i] == bytes;
        assert lengths[i] == |bytes|;
      case _ =>
        assert lengths[|lengths| - 1] == 32;
    }
  }

  lemma CanaryFits(canaries: seq<Bytes>, p: Pattern)
    requires Sought(canaries, false, true, p)
    ensures Width(p) <= MaxRawCanaryLen(canaries)
  {
    var i :| 0 <= i < |canaries| && canaries[i] == p.bytes;
    assert Lengths(canaries)[i] == |p.bytes|;
  }

  // The scanners.

  /** The canaries of an export, as `push` admits them. */
  ghost predicate ValidCanaries(canaries: seq<Bytes>) {
    |canaries| <= MAX_LEAK_CANARIES && forall c :: c in canaries ==> 0 < |c| <= MAX_LEAK_CANARY_BYTES
  }

  method PushCanary(canaries: seq<Bytes>, value: Bytes) returns (after: Option<seq<Bytes>>)
    requires ValidCanaries(canaries)
    ensures after.Some? <==> ValidCanaries(canaries + [value])
    ensures after.Some? ==> after.value == canaries + [value]
  {
    assert (canaries + [value])[|canaries|] == value;
    if value == [] || |value| > MAX_LEAK_CANARY_BYTES || |canaries| >= MAX_LEAK_CANARIES {
      return None;
    }
    return Some(canaries + [value]);
  }

  predicate ContainsRawCanary(canaries: seq<Bytes>, b: Bytes) {
    exists c :: c in canaries && Occurs(Canary(c), b)
  }

  predicate ContainsForbiddenKey(b: Bytes) {
    exists k :: k in FIXED_FORBIDDEN_KEYS && Occurs(Key(k), b)
  }

  predicate ContainsMarker(b: Bytes) {
    exists m :: m in LOCATION_MARKERS && Occurs(Marker(m), b)
  }

  method ContainsForbiddenLocation(b: Bytes) returns (found: bool)
    ensures found <==> ContainsMarker(b) || Occurs(QuotedPath, b) || Occurs(QuotedShare, b) || Occurs(QuotedDrive, b)
  {
    if ContainsMarker(b) {
      return true;
    }
    for i := 0 to |b|
      invariant forall k :: 0 <= k < i ==>
        !OccursAt(QuotedPath, b, k) && !OccursAt(QuotedShare, b, k) && !OccursAt(QuotedDrive, b, k)
    {
      if b[i] == QUOTE && i + 1 < |b| {
        var value := b[i + 1..];
        var drive := |value| >= 4 && Letter(value[0]) && value[1] == COLON
                     && (value[2] == SLASH || (value[2] == BACKSLASH && value[3] == BACKSLASH));
        if [SLASH] <= value || [BACKSLASH, BACKSLASH, BACKSLASH, BACKSLASH] <= value || drive {
          QuotedAt(b, i);
          return true;
        }
      }
      QuotedAt(b, i);
    }
    found := false;
  }

  /** The three quoted locations, as the scanner reads them off the bytes after a quote. */
  lemma QuotedAt(b: Bytes, i: nat)
    requires i < |b|
    ensures OccursAt(QuotedPath, b, i) <==> b[i] == QUOTE && [SLASH] <= b[i + 1..]
    ensures OccursAt(QuotedShare, b, i) <==> b[i] == QUOTE && [BACKSLASH, BACKSLASH, BACKSLASH, BACKSLASH] <= b[i + 1..]
    ensures OccursAt(QuotedDrive, b, i) <==>
            var value := b[i + 1..];
            b[i] == QUOTE && |value| >= 4 && Letter(value[0]) && value[1] == COLON
            && (value[2] == SLASH || (value[2] == BACKSLASH && value[3] == BACKSLASH))
  {
    var value := b[i + 1..];
    if i + 2 <= |b| {
      assert b[i..i + 2] == [b[i], b[i + 1]] && value[0] == b[i + 1];
    }
    if i + 5 <= |b| {
      assert b[i..i + 5] == [b[i], b[i + 1], b[i + 2], b[i + 3], b[i + 4]];
      assert value[..4] == [b[i + 1], b[i + 2], b[i + 3], b[i + 4]];
    }
  }

  method ContainsFixedForbidden(b: Bytes) returns (found: bool)
    ensures found <==> Leaks([], true, false, b)
  {
    hide Occurs;
    var location := ContainsForbiddenLocation(b);
    found := ContainsForbiddenKey(b) || location;
    FixedPatterns(b);
  }

  lemma FixedPatterns(b: Bytes)
    ensures Leaks([], true, false, b) <==>
            || ContainsForbiddenKey(b) || ContainsMarker(b)
            || Occurs(QuotedPath, b) || Occurs(QuotedShare, b) || Occurs(QuotedDrive, b)
  {
    hide Occurs;
    if Leaks([], true, false, b) {
      var p :| Sought([], true, false, p) && Occurs(p, b);
      match p {
        case Key(name) => assert name in FIXED_FORBIDDEN_KEYS && Occurs(Key(name), b);
        case Marker(text) => assert text in LOCATION_MARKERS && Occurs(Marker(text), b);
        case _ =>
      }
    }
    if k :| k in FIXED_FORBIDDEN_KEYS && Occurs(Key(k), b) {
      assert Sought([], true, false, Key(k));
    }
    if m :| m in LOCATION_MARKERS && Occurs(Marker(m), b) {
      assert Sought([], true, false, Marker(m));
    }
    assert Sought([], true, false, QuotedPath) && Sought([], true, false, QuotedShare)
        && Sought([], true, false, QuotedDrive);
  }

  lemma RawPatterns(canaries: seq<Bytes>, b: Bytes)
    ensures Leaks(canaries, false, true, b) <==> ContainsRawCanary(canaries, b)
    ensures Leaks(canaries, true, false, b) <==> Leaks([], true, false, b)
    ensures Leaks(canaries, true, true, b) <==> Leaks([], true, false, b) || ContainsRawCanary(canaries, b)
  {
    hide Occurs, Fixed;
    if p :| Sought(canaries, true, true, p) && Occurs(p, b) {
      assert Sought([], true, false, p) || Sought(canaries, false, true, p);
    }
    if p :| Sought([], true, false, p) && Occurs(p, b) {
      assert Sought(canaries, true, true, p) && Sought(canaries, true, false, p);
    }
    if p :| Sought(canaries, true, false, p) && Occurs(p, b) {
      assert Sought([], true, false, p);
    }
    if c :| c in canaries && Occurs(Canary(c), b) {
      assert Sought(canaries, false, true, Canary(c)) && Sought(canaries, true, true, Canary(c));
    }
  }

  /** The part of a scan carried to the next chunk: its last `length` bytes, or all of it. */
  function Carried(scan: Bytes, length: nat): Bytes {
    if |scan| <= length then scan else scan[|scan| - length..]
  }

  /** Carrying from a carried tail and a chunk is carrying from the whole stream. */
  lemma CarriedAgain(seen: Bytes, chunk: Bytes, length: nat)
    ensures Carried(Carried(seen, length) + chunk, length) == Carried(seen + chunk, length)
  {
  }

  lemma LeaksInPieces(canaries: seq<Bytes>, fixed: bool, raw: bool, seen: Bytes, chunk: Bytes, length: nat)
    requires forall p :: Sought(canaries, fixed, raw, p) ==> Width(p) <= length + 1
    ensures Leaks(canaries, fixed, raw, seen + chunk) <==>
            Leaks(canaries, fixed, raw, seen) || Leaks(canaries, fixed, raw, Carried(seen, length) + chunk)
  {
    hide Occurs, Width, Sought;
    var base := if |seen| <= length then 0 else |seen| - length;
    assert seen[base..] == Carried(seen, length);
    forall p | Sought(canaries, fixed, raw, p)
      ensures Occurs(p, seen + chunk) <==> Occurs(p, seen) || Occurs(p, Carried(seen, length) + chunk)
    {
      OccursInPieces(p, seen, base, chunk);
    }
  }

  /** One chunk of a logical entry: the new tail, or None when a leak is found. */
  method ScanLogicalBytes(canaries: seq<Bytes>, tail: Bytes, bytes: Bytes, raw: bool) returns (after: Option<Bytes>)
    ensures after.None? <==> Leaks(canaries, true, raw, tail + bytes)
    ensures after.Some? ==> after.value == Carried(tail + bytes, MaxPatternLen(canaries) - 1)
  {
    hide Leaks, ContainsRawCanary;
    var scan := tail + bytes;
    RawPatterns(canaries, scan);
    var fixed := ContainsFixedForbidden(scan);
    if fixed || (raw && ContainsRawCanary(canaries, scan)) {
      return None;
    }
    var tailLen := MaxPatternLen(canaries) - 1;
    var start := if |scan| < tailLen then 0 else |scan| - tailLen;
    after := Some(scan[start..]);
  }

  function Concat(chunks: seq<Bytes>): Bytes {
    if chunks == [] then [] else Concat(chunks[..|chunks| - 1]) + chunks[|chunks| - 1]
  }

  lemma NothingLeaks(canaries: seq<Bytes>, fixed: bool, raw: bool)
    requires ValidCanaries(canaries)
    ensures !Leaks(canaries, fixed, raw, [])
  {
    forall p | Sought(canaries, fixed, raw, p)
      ensures !Occurs(p, [])
    {
      if p.Marker? {
        assert forall m :: m in LOCATION_MARKERS ==> |m| > 0;
      }
      assert Width(p) > 0;
    }
  }

  lemma EntryFits(canaries: seq<Bytes>, raw: bool)
    ensures forall p :: Sought(canaries, true, raw, p) ==> Width(p) <= MaxPatternLen(canaries)
  {
    forall p | Sought(canaries, true, raw, p)
      ensures Width(p) <= MaxPatternLen(canaries)
    {
      SoughtFits(canaries, raw, p);
    }
  }

  /** A leak in the first chunks is a leak in all of them. */
  lemma {:induction false} LeaksOnceLeaking(canaries: seq<Bytes>, fixed: bool, raw: bool, seen: Bytes, rest: Bytes)
    requires Leaks(canaries, fixed, raw, seen)
    ensures Leaks(canaries, fixed, raw, seen + rest)
  {
    hide Occurs, Sought;
    var p :| Sought(canaries, fixed, raw, p) && Occurs(p, seen);
    OccursInPieces(p, seen, 0, rest);
  }

  lemma {:induction false} ConcatPrefix(chunks: seq<Bytes>, k: nat) returns (rest: Bytes)
    requires k <= |chunks|
    ensures Concat(chunks) == Concat(chunks[..k]) + rest
  {
    if k == |chunks| {
      assert chunks[..k] == chunks;
      rest := [];
    } else {
      var n := |chunks| - 1;
      rest := ConcatPrefix(chunks[..n], k);
      assert chunks[..n][..k] == chunks[..k];
      Regroup(Concat(chunks[..k]), rest, chunks[n]);
      rest := rest + chunks[n];
    }
  }

  /** Scanning an entry chunk by chunk finds a leak exactly when the whole entry has one, however it is cut. */
  method ScanLogicalEntry(canaries: seq<Bytes>, chunks: seq<Bytes>, raw: bool) returns (leak: bool)
    requires ValidCanaries(canaries)
    ensures leak <==> Leaks(canaries, true, raw, Concat(chunks))
  {
    hide Leaks, ValidCanaries, Concat, MaxPatternLen, Carried;
    var tail: Bytes := [];
    NothingLeaks(canaries, true, raw);
    NothingSeen(chunks, MaxPatternLen(canaries) - 1);
    for i := 0 to |chunks|
      invariant tail == Carried(Concat(chunks[..i]), MaxPatternLen(canaries) - 1)
      invariant !Leaks(canaries, true, raw, Concat(chunks[..i]))
    {
      EntryStep(canaries, chunks, i, raw);
      var after := ScanLogicalBytes(canaries, tail, chunks[i], raw);
      if after.None? {
        return true;
      }
      tail := after.value;
    }
    assert chunks[..|chunks|] == chunks;
    leak := false;
  }

  lemma NothingSeen(chunks: seq<Bytes>, length: nat)
    ensures Concat(chunks[..0]) == [] && Carried([], length) == []
  {
  }

  lemma EntryStep(canaries: seq<Bytes>, chunks: seq<Bytes>, i: nat, raw: bool)
    requires i < |chunks| && !Leaks(canaries, true, raw, Concat(chunks[..i]))
    ensures var length := MaxPatternLen(canaries) - 1;
            var scan := Carried(Concat(chunks[..i]), length) + chunks[i];
            if Leaks(canaries, true, raw, scan) then Leaks(canaries, true, raw, Concat(chunks))
            else !Leaks(canaries, true, raw, Concat(chunks[..i + 1]))
                 && Carried(scan, length) == Carried(Concat(chunks[..i + 1]), length)
  {
    hide Leaks, MaxPatternLen, Carried, Sought, Width;
    var seen, length := Concat(chunks[..i]), MaxPatternLen(canaries) - 1;
    assert chunks[..i + 1][..i] == chunks[..i];
    EntryFits(canaries, raw);
    LeaksInPieces(canaries, true, raw, seen, chunks[i], length);
    CarriedAgain(seen, chunks[i], length);
    var rest := ConcatPrefix(chunks, i + 1);
    if Leaks(canaries, true, raw, seen + chunks[i]) {
      LeaksOnceLeaking(canaries, true, raw, seen + chunks[i], rest);
    }
  }

  datatype RawScan = Clean | LeakDetected | Interrupted

  /** Scanning the raw archive for canaries, in whatever pieces it is read, finds exactly the canaries it contains. */
  method ScanRawArchive(canaries: seq<Bytes>, file: Bytes, calm: bool) returns (r: RawScan)
    requires ValidCanaries(canaries)
    ensures r == LeakDetected ==> ContainsRawCanary(canaries, file)
    ensures r == Clean ==> !ContainsRawCanary(canaries, file)
    ensures calm ==> r != Interrupted
  {
    hide Leaks, ContainsRawCanary, ValidCanaries, Sought, Width;
    RawPatterns(canaries, file);
    if canaries == [] {
      NoCanaries(file);
      return Clean;
    }
    var tail: Bytes, at: nat := [], 0;
    ghost var length := MaxRawCanaryLen(canaries) - 1;
    NothingLeaks(canaries, false, true);
    RawFits(canaries);
    while at < |file|
      invariant at <= |file| && tail == Carried(file[..at], length) && !Leaks(canaries, false, true, file[..at])
    {
      var failed := Disturbed(calm);
      if failed {
        return Interrupted;
      }
      var read: nat :| 0 < read <= EXPORT_BUFFER_BYTES && at + read <= |file|;
      var scan := tail + file[at..at + read];
      RawStep(canaries, file, at, read, length);
      if ContainsRawCanary(canaries, scan) {
        return LeakDetected;
      }
      var tailLen := MaxRawCanaryLen(canaries) - 1;
      var start := if |scan| < tailLen then 0 else |scan| - tailLen;
      tail, at := scan[start..], at + read;
    }
    assert file[..at] == file;
    r := Clean;
  }

  lemma RawStep(canaries: seq<Bytes>, file: Bytes, at: nat, read: nat, length: nat)
    requires at + read <= |file| && !Leaks(canaries, false, true, file[..at])
    requires forall p :: Sought(canaries, false, true, p) ==> Width(p) <= length + 1
    ensures var scan := Carried(file[..at], length) + file[at..at + read];
            if ContainsRawCanary(canaries, scan) then ContainsRawCanary(canaries, file)
            else !Leaks(canaries, false, true, file[..at + read])
                 && Carried(scan, length) == Carried(file[..at + read], length)
  {
    hide Leaks, ContainsRawCanary, Carried, Sought, Width;
    var seen, piece := file[..at], file[at..at + read];
    var scan := Carried(seen, length) + piece;
    RawPatterns(canaries, scan);
    RawPatterns(canaries, file);
    LeaksInPieces(canaries, false, true, seen, piece, length);
    CarriedAgain(seen, piece, length);
    assert seen + piece == file[..at + read];
    if ContainsRawCanary(canaries, scan) {
      LeaksOnceLeaking(canaries, false, true, seen + piece, file[at + read..]);
      TakeDrop(file, at + read);
    }
  }

  lemma NoCanaries(file: Bytes)
    ensures !ContainsRawCanary([], file)
  {
  }

  lemma RawFits(canaries: seq<Bytes>)
    requires ValidCanaries(canaries) && canaries != []
    ensures MaxRawCanaryLen(canaries) > 0
    ensures forall p :: Sought(canaries, false, true, p) ==> Width(p) <= MaxRawCanaryLen(canaries)
  {
    assert canaries[0] in canaries && Lengths(canaries)[0] > 0;
    forall p | Sought(canaries, false, true, p)
      ensures Width(p) <= MaxRawCanaryLen(canaries)
    {
      CanaryFits(canaries, p);
    }
  }
}
