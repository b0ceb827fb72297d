/**
 Retention of closed segments: `RetentionManager::enforce_with_active`, `scan_owned` and `scan_canonical_metadata` of
 `wokcore-diagnostics/src/retention.rs`. The directory is its listing in name order, read in pages after a name while
 entries are being removed. Storage may fail when the environment is not calm.
 */
module Retention {
  import opened Prelude

  const RETENTION_PAGE_ENTRIES: nat := 128

  /**
   A directory entry. Names are compared as numbers; `index` is the segment index the name parses to, if any, and
   `complete` the first and last sequence when its bytes are a complete segment.
   */
  datatype File = File(name: nat, index: Option<nat>, identity: nat, length: nat, modified: Option<nat>,
                       complete: Option<(nat, nat)>)

  datatype RetentionError = UnsafeBoundary | Io

  datatype Report = Report(noop: bool, removedFiles: nat, removedBytes: nat)

  datatype Policy = Policy(now: nat, maxAge: nat, maxBytes: nat, leases: set<nat>)

  /** The listing is in name order, and segment names are in index order. */
  ghost predicate Listing(files: seq<File>) {
    && (forall i, j :: 0 <= i < j < |files| ==> files[i].name < files[j].name)
    && (forall i, j :: 0 <= i < j < |files| && files[i].index.Some? && files[j].index.Some? ==>
          files[i].index.value < files[j].index.value)
  }

  /** A segment other than the active one. */
  predicate Closed(f: File, active: nat) {
    f.index.Some? && f.index.value != active
  }

  predicate Expired(f: File, policy: Policy) {
    f.modified.Some? && policy.now >= f.modified.value && policy.now - f.modified.value > policy.maxAge
  }

  predicate Leased(f: File, policy: Policy) {
    f.identity in policy.leases
  }

  /** A closed segment nobody reads. */
  predicate Removable(f: File, active: nat, policy: Policy) {
    Closed(f, active) && !Leased(f, policy)
  }

  function ClosedBytes(files: seq<File>, active: nat): nat {
    if files == [] then 0
    else
      var last := files[|files| - 1];
      ClosedBytes(files[..|files| - 1], active) + if Closed(last, active) then last.length else 0
  }

  // What each pass leaves.

  /** Everything but the expired removable segments. */
  function Young(files: seq<File>, active: nat, policy: Policy): seq<File> {
    if files == [] then []
    else
      var last := files[|files| - 1];
      Young(files[..|files| - 1], active, policy)
      + if Removable(last, active, policy) && Expired(last, policy) then [] else [last]
  }

  /** Closed bytes left once the removable segments among `files` were taken, oldest first, until the limit is met. */
  function Remaining(files: seq<File>, active: nat, policy: Policy, bytes: nat): nat {
    if files == [] then bytes
    else
      var last := files[|files| - 1];
      var before := Remaining(files[..|files| - 1], active, policy, bytes);
      if before > policy.maxBytes && Removable(last, active, policy) then
        (if last.length <= before then before - last.length else 0)
      else before
  }

  function Trimmed(files: seq<File>, active: nat, policy: Policy, bytes: nat): seq<File> {
    if files == [] then []
    else
      var last := files[|files| - 1];
      var before := Remaining(files[..|files| - 1], active, policy, bytes);
      Trimmed(files[..|files| - 1], active, policy, bytes)
      + if before > policy.maxBytes && Removable(last, active, policy) then [] else [last]
  }

  lemma {:induction false} ClosedBytesSplit(a: seq<File>, b: seq<File>, active: nat)
    ensures ClosedBytes(a + b, active) == ClosedBytes(a, active) + ClosedBytes(b, active)
  {
    if b == [] {
      assert a + b == a;
    } else {
      var n := |b| - 1;
      ClosedBytesSplit(a, b[..n], active);
      assert (a + b)[..|a| + n] == a + b[..n];
    }
  }

  lemma OneFile(f: File, active: nat)
    ensures ClosedBytes([f], active) == if Closed(f, active) then f.length else 0
  {
    assert [f][..0] == [];
  }

  /** The count kept during the byte pass is the closed bytes of what is left. */
  lemma {:induction false} RemainingIsClosed(files: seq<File>, active: nat, policy: Policy, bytes: nat)
    requires bytes >= ClosedBytes(files, active)
    ensures Remaining(files, active, policy, bytes)
            == bytes - ClosedBytes(files, active) + ClosedBytes(Trimmed(files, active, policy, bytes), active)
  {
    if files != [] {
      var n, last := |files| - 1, files[|files| - 1];
      RemainingIsClosed(files[..n], active, policy, bytes);
      var kept := Trimmed(files[..n], active, policy, bytes);
      ClosedBytesSplit(kept, [last], active);
      OneFile(last, active);
      assert kept + [] == kept;
    }
  }

  /** After the byte pass the limit is met, or every closed segment left is leased. */
  lemma {:induction false} LimitOrLeased(files: seq<File>, active: nat, policy: Policy, bytes: nat)
    ensures Remaining(files, active, policy, bytes) <= policy.maxBytes
            || forall f :: f in Trimmed(files, active, policy, bytes) ==> !Removable(f, active, policy)
  {
    if files != [] {
      var n := |files| - 1;
      LimitOrLeased(files[..n], active, policy, bytes);
    }
  }

  /** The byte pass removes a segment exactly when it is removable and the closed bytes up to it were over the limit. */
  lemma {:induction false} TrimmedExactly(files: seq<File>, active: nat, policy: Policy, bytes: nat, i: nat)
    requires i < |files| && Listing(files)
    ensures files[i] in Trimmed(files, active, policy, bytes) <==>
            !(Removable(files[i], active, policy) && Remaining(files[..i], active, policy, bytes) > policy.maxBytes)
    ensures forall f :: f in Trimmed(files, active, policy, bytes) ==> f in files
  {
    var n := |files| - 1;
    assert files[..n][..if i < n then i else n] == files[..i];
    if i < n {
      TrimmedExactly(files[..n], active, policy, bytes, i);
      assert files[i] != files[n];
    } else {
      TrimmedFrom(files[..n], active, policy, bytes);
      assert files[n] !in files[..n];
    }
    TrimmedFrom(files, active, policy, bytes);
  }

  lemma {:induction false} TrimmedFrom(files: seq<File>, active: nat, policy: Policy, bytes: nat)
    ensures forall f :: f in Trimmed(files, active, policy, bytes) ==> f in files
  {
    if files != [] {
      TrimmedFrom(files[..|files| - 1], active, policy, bytes);
    }
  }

  /** The files among `files` that retention may not touch. */
  function Unremovable(files: seq<File>, active: nat, policy: Policy): seq<File> {
    if files == [] then []
    else
      var last := files[|files| - 1];
      Unremovable(files[..|files| - 1], active, policy) + if Removable(last, active, policy) then [] else [last]
  }

  /** What is left once every removable segment among the oldest `m` entries is gone. */
  function LeftAfter(files: seq<File>, m: nat, active: nat, policy: Policy): seq<File>
    requires m <= |files|
  {
    Unremovable(files[..m], active, policy) + files[m..]
  }

  /** Removing the removable segments among the oldest `n` entries meets the limit, and no shorter such run does. */
  ghost predicate ShortestRun(files: seq<File>, n: nat, active: nat, policy: Policy) {
    && n <= |files|
    && (forall m :: 0 <= m < n ==> ClosedBytes(LeftAfter(files, m, active, policy), active) > policy.maxBytes)
    && (n < |files| ==> ClosedBytes(LeftAfter(files, n, active, policy), active) <= policy.maxBytes)
  }

  /** `after` is `files` without its shortest oldest-first run of removable segments that meets the limit. */
  ghost predicate RemovesShortestRun(files: seq<File>, after: seq<File>, active: nat, policy: Policy) {
    exists n: nat :: ShortestRun(files, n, active, policy) && after == LeftAfter(files, n, active, policy)
  }

  function RemovableBytes(files: seq<File>, active: nat, policy: Policy): nat {
    if files == [] then 0
    else
      var last := files[|files| - 1];
      RemovableBytes(files[..|files| - 1], active, policy) + if Removable(last, active, policy) then last.length else 0
  }

  lemma {:induction false} UnremovableBytes(files: seq<File>, active: nat, policy: Policy)
    ensures ClosedBytes(Unremovable(files, active, policy), active)
            == ClosedBytes(files, active) - RemovableBytes(files, active, policy)
  {
    if files != [] {
      var n, last := |files| - 1, files[|files| - 1];
      var kept := Unremovable(files[..n], active, policy);
      UnremovableBytes(files[..n], active, policy);
      ClosedBytesSplit(kept, [last], active);
      OneFile(last, active);
      assert kept + [] == kept;
    }
  }

  lemma LeftBytes(files: seq<File>, m: nat, active: nat, policy: Policy)
    requires m <= |files|
    ensures ClosedBytes(LeftAfter(files, m, active, policy), active)
            == ClosedBytes(files, active) - RemovableBytes(files[..m], active, policy)
  {
    hide ClosedBytes, Unremovable, RemovableBytes;
    UnremovableBytes(files[..m], active, policy);
    ClosedBytesSplit(Unremovable(files[..m], active, policy), files[m..], active);
    ClosedBytesSplit(files[..m], files[m..], active);
    TakeDrop(files, m);
  }

  /** How far the byte pass got in `files`: up to `n`, with the count still above the limit before that. */
  ghost predicate TrimmedTo(files: seq<File>, active: nat, policy: Policy, bytes: nat, n: nat) {
    && n <= |files| && RemovableBytes(files[..n], active, policy) <= bytes
    && Trimmed(files, active, policy, bytes) == Unremovable(files[..n], active, policy) + files[n..]
    && Remaining(files, active, policy, bytes) == bytes - RemovableBytes(files[..n], active, policy)
    && (forall m :: 0 <= m < n ==> bytes - RemovableBytes(files[..m], active, policy) > policy.maxBytes)
    && (n < |files| ==> bytes - RemovableBytes(files[..n], active, policy) <= policy.maxBytes)
  }

  lemma {:induction false} TrimsARun(files: seq<File>, active: nat, policy: Policy, bytes: nat) returns (n: nat)
    requires bytes >= RemovableBytes(files, active, policy)
    ensures TrimmedTo(files, active, policy, bytes, n)
  {
    if files == [] {
      assert files[..0] == [];
      return 0;
    }
    var k := |files| - 1;
    var before := files[..k];
    n := TrimsARun(before, active, policy, bytes);
    if Remaining(before, active, policy, bytes) > policy.maxBytes {
      RunGrows(files, active, policy, bytes);
      n := |files|;
    } else {
      RunStays(files, active, policy, bytes, n);
    }
  }

  lemma RunGrows(files: seq<File>, active: nat, policy: Policy, bytes: nat)
    requires files != [] && bytes >= RemovableBytes(files, active, policy)
    requires TrimmedTo(files[..|files| - 1], active, policy, bytes, |files| - 1)
    requires Remaining(files[..|files| - 1], active, policy, bytes) > policy.maxBytes
    ensures TrimmedTo(files, active, policy, bytes, |files|)
  {
    var k := |files| - 1;
    var before := files[..k];
    assert files[..|files|] == files && before[..k] == before && before[k..] == [];
    forall m | 0 <= m < |files|
      ensures bytes - RemovableBytes(files[..m], active, policy) > policy.maxBytes
    {
      assert m < k ==> before[..m] == files[..m];
    }
  }

  lemma RunStays(files: seq<File>, active: nat, policy: Policy, bytes: nat, n: nat)
    requires files != [] && TrimmedTo(files[..|files| - 1], active, policy, bytes, n)
    requires Remaining(files[..|files| - 1], active, policy, bytes) <= policy.maxBytes
    ensures TrimmedTo(files, active, policy, bytes, n)
  {
    var k := |files| - 1;
    var before := files[..k];
    assert before[..n] == files[..n] && before[n..] + [files[k]] == files[n..];
    Regroup(Unremovable(files[..n], active, policy), before[n..], [files[k]]);
    forall m | 0 <= m < n
      ensures bytes - RemovableBytes(files[..m], active, policy) > policy.maxBytes
    {
      assert before[..m] == files[..m];
    }
  }

  /** The byte pass removes the shortest oldest-first run of removable segments that meets the limit. */
  lemma TrimmedIsShortest(files: seq<File>, active: nat, policy: Policy)
    ensures RemovesShortestRun(files, Trimmed(files, active, policy, ClosedBytes(files, active)), active, policy)
  {
    hide Trimmed, Unremovable, RemovableBytes, Remaining, ClosedBytes;
    UnremovableBytes(files, active, policy);
    var n := TrimsARun(files, active, policy, ClosedBytes(files, active));
    forall m | 0 <= m <= |files|
      ensures ClosedBytes(LeftAfter(files, m, active, policy), active)
              == ClosedBytes(files, active) - RemovableBytes(files[..m], active, policy)
    {
      LeftBytes(files, m, active, policy);
    }
    assert ShortestRun(files, n, active, policy);
  }

  /** The age pass removes a file exactly when it is an expired removable segment. */
  lemma {:induction false} YoungExactly(files: seq<File>, active: nat, policy: Policy, f: File)
    ensures f in Young(files, active, policy) <==> f in files && !(Removable(f, active, policy) && Expired(f, policy))
  {
    if files != [] {
      var n := |files| - 1;
      YoungExactly(files[..n], active, policy, f);
      assert files == files[..n] + [files[n]];
    }
  }

  // Paging while removing.

  /** The first position whose name comes after a name. */
  function FirstAfter(files: seq<File>, after: Option<nat>): (from: nat)
    ensures from <= |files|
    ensures forall i :: 0 <= i < from ==> after.Some? && files[i].name <= after.value
    ensures from < |files| ==> after.None? || files[from].name > after.value
  {
    if files == [] || after.None? || files[0].name > after.value then 0
    else
      var rest := FirstAfter(files[1..], after);
      assert forall i :: 1 <= i < |files| ==> files[i] == files[1..][i - 1];
      1 + rest
  }

  /** The listing `files` is what is left of the first `p` entries of `whole`, followed by the others. */
  ghost predicate Visited(whole: seq<File>, p: nat, kept: seq<File>, files: seq<File>) {
    && p <= |whole| && files == kept + whole[p..] && Listing(whole) && Listing(files)
    && forall f :: f in kept ==> f in whole[..p]
  }

  /** Asking for the entries after the last one visited continues exactly there, whatever was removed meanwhile. */
  lemma ContinuesThere(whole: seq<File>, p: nat, kept: seq<File>, files: seq<File>, after: Option<nat>)
    requires Visited(whole, p, kept, files) && after == if p == 0 then None else Some(whole[p - 1].name)
    ensures FirstAfter(files, after) == |kept|
  {
    var from := FirstAfter(files, after);
    forall i | 0 <= i < |kept|
      ensures after.Some? && files[i].name <= after.value
    {
      assert kept[i] in whole[..p];
      var k :| 0 <= k < p && whole[..p][k] == kept[i];
      assert whole[k].name <= whole[p - 1].name;
    }
    assert |kept| < |files| ==> files[|kept|] == whole[p];
    assert from < |files| ==> after.None? || files[from].name > after.value;
    assert |kept| < |files| && after.Some? ==> files[|kept|].name > after.value;
    if after.None? {
      assert |kept| == 0;
    }
  }

  lemma VisitKeeps(whole: seq<File>, p: nat, kept: seq<File>, files: seq<File>)
    requires Visited(whole, p, kept, files) && p < |whole|
    ensures Visited(whole, p + 1, kept + [whole[p]], files)
    ensures |kept| < |files| && files[|kept|] == whole[p]
  {
    assert whole[p..] == [whole[p]] + whole[p + 1..];
    assert whole[..p + 1] == whole[..p] + [whole[p]];
    Regroup(kept, [whole[p]], whole[p + 1..]);
  }

  lemma VisitRemoves(whole: seq<File>, p: nat, kept: seq<File>, files: seq<File>)
    requires Visited(whole, p, kept, files) && p < |whole|
    ensures var after := files[..|kept|] + files[|kept| + 1..];
            Visited(whole, p + 1, kept, after) && after == kept + whole[p + 1..]
  {
    var after := files[..|kept|] + files[|kept| + 1..];
    assert files[..|kept|] == kept && files[|kept| + 1..] == whole[p + 1..];
    assert whole[..p + 1] == whole[..p] + [whole[p]];
    assert forall i :: 0 <= i < |after| ==> after[i] == files[if i < |kept| then i else i + 1];
  }

  class Directory {
    var files: seq<File>

    constructor (files: seq<File>)
      ensures this.files == files
    {
      this.files := files;
    }

    /** Up to 128 entries after a name, and the last of their names if there are more. */
    method EntriesPage(after: Option<nat>, calm: bool) returns (r: Result<(seq<File>, Option<nat>), RetentionError>)
      ensures r.Ok? ==>
        var from := FirstAfter(files, after);
        var to := if |files| - from > RETENTION_PAGE_ENTRIES then from + RETENTION_PAGE_ENTRIES else |files|;
        && r.value.0 == files[from..to]
        && r.value.1 == (if to < |files| then Some(files[to - 1].name) else None)
      ensures r.Err? ==> r == Err(Io) && !calm
    {
      var failed := Disturbed(calm);
      if failed {
        return Err(Io);
      }
      var from := FirstAfter(files, after);
      var to := if |files| - from > RETENTION_PAGE_ENTRIES then from + RETENTION_PAGE_ENTRIES else |files|;
      return Ok((files[from..to], if to < |files| then Some(files[to - 1].name) else None));
    }

    /** Remove an entry after checking its bytes once more; a failure may come before or after it is gone. */
    method Remove(entry: File, calm: bool) returns (r: Result<(), RetentionError>)
      modifies this
      ensures r.Ok? ==> entry in old(files) && files == Without(old(files), entry) && entry.complete.Some?
      ensures r.Err? ==> files == old(files) || files == Without(old(files), entry)
      ensures r == Err(UnsafeBoundary) ==> entry !in old(files) || entry.complete.None?
      ensures r.Err? ==> r == Err(UnsafeBoundary) || (r == Err(Io) && !calm)
    {
      if entry !in files || entry.complete.None? {
        return Err(UnsafeBoundary);
      }
      var failed := Disturbed(calm);
      if failed {
        if * {
          files := Without(files, entry);
        }
        return Err(Io);
      }
      files := Without(files, entry);
      r := Ok(());
    }
  }

  function Without(files: seq<File>, entry: File): seq<File> {
    if files == [] then []
    else if files[0] == entry then files[1..]
    else [files[0]] + Without(files[1..], entry)
  }

  lemma {:induction false} WithoutFirst(files: seq<File>, at: nat)
    requires at < |files| && forall i :: 0 <= i < at ==> files[i] != files[at]
    ensures Without(files, files[at]) == files[..at] + files[at + 1..]
  {
    if at > 0 {
      var rest := files[1..];
      WithoutFirst(rest, at - 1);
      assert rest[..at - 1] == files[1..at] && rest[at..] == files[at + 1..];
      assert [files[0]] + files[1..at] == files[..at];
      Regroup([files[0]], files[1..at], files[at + 1..]);
    }
  }

  lemma WithoutAt(files: seq<File>, at: nat)
    requires at < |files| && Listing(files)
    ensures Without(files, files[at]) == files[..at] + files[at + 1..]
  {
    hide Without;
    assert forall i :: 0 <= i < at ==> files[i].name < files[at].name;
    WithoutFirst(files, at);
  }

  // The age pass.

  /** The age pass after `p` entries: what it kept, how many closed bytes that is, and what it removed. */
  ghost predicate Aged(whole: seq<File>, p: nat, files: seq<File>, active: nat, policy: Policy, bytes: nat,
                       removed: nat, removedBytes: nat)
  {
    && p <= |whole|
    && var kept := Young(whole[..p], active, policy);
       && Visited(whole, p, kept, files) && bytes == ClosedBytes(kept, active)
       && removed == p - |kept| && removedBytes + bytes == ClosedBytes(whole[..p], active)
  }

  lemma AgedStarts(whole: seq<File>, active: nat, policy: Policy)
    requires Listing(whole)
    ensures Aged(whole, 0, whole, active, policy, 0, 0, 0)
  {
    assert whole[..0] == [] && [] + whole[0..] == whole;
  }

  lemma Snoc(whole: seq<File>, p: nat, active: nat)
    requires p < |whole|
    ensures whole[..p + 1][..p] == whole[..p] && whole[..p + 1][p] == whole[p]
    ensures ClosedBytes(whole[..p + 1], active)
            == ClosedBytes(whole[..p], active) + if Closed(whole[p], active) then whole[p].length else 0
  {
    assert whole[..p + 1][..p] == whole[..p];
  }

  lemma YoungSnoc(whole: seq<File>, p: nat, active: nat, policy: Policy)
    requires p < |whole|
    ensures Young(whole[..p + 1], active, policy)
            == Young(whole[..p], active, policy)
               + if Removable(whole[p], active, policy) && Expired(whole[p], policy) then [] else [whole[p]]
  {
    assert whole[..p + 1][..p] == whole[..p];
  }

  lemma AgedKeeps(whole: seq<File>, p: nat, files: seq<File>, active: nat, policy: Policy, bytes: nat, removed: nat,
                  removedBytes: nat)
    requires Aged(whole, p, files, active, policy, bytes, removed, removedBytes) && p < |whole|
    requires !(Removable(whole[p], active, policy) && Expired(whole[p], policy))
    ensures Aged(whole, p + 1, files, active, policy,
                 bytes + (if Closed(whole[p], active) then whole[p].length else 0), removed, removedBytes)
  {
    hide Young, ClosedBytes, Visited;
    var kept := Young(whole[..p], active, policy);
    YoungSnoc(whole, p, active, policy);
    Snoc(whole, p, active);
    VisitKeeps(whole, p, kept, files);
    ClosedBytesSplit(kept, [whole[p]], active);
    OneFile(whole[p], active);
  }

  lemma AgedRemoves(whole: seq<File>, p: nat, files: seq<File>, active: nat, policy: Policy, bytes: nat, removed: nat,
                    removedBytes: nat)
    requires Aged(whole, p, files, active, policy, bytes, removed, removedBytes) && p < |whole|
    requires Removable(whole[p], active, policy) && Expired(whole[p], policy)
    ensures whole[p] in files
    ensures Aged(whole, p + 1, Without(files, whole[p]), active, policy, bytes, removed + 1,
                 removedBytes + whole[p].length)
  {
    hide Young, ClosedBytes, Visited, Without;
    var kept := Young(whole[..p], active, policy);
    YoungSnoc(whole, p, active, policy);
    assert kept + [] == kept;
    Snoc(whole, p, active);
    VisitKeeps(whole, p, kept, files);
    VisitRemoves(whole, p, kept, files);
    VisitedListing(whole, p, kept, files);
    WithoutAt(files, |kept|);
  }

  lemma VisitedListing(whole: seq<File>, p: nat, kept: seq<File>, files: seq<File>)
    requires Visited(whole, p, kept, files)
    ensures Listing(files) && Listing(whole) && p <= |whole|
  {
  }

  /** Nothing but removable segments is gone, and nothing is new. */
  ghost predicate Spared(whole: seq<File>, files: seq<File>, active: nat, policy: Policy) {
    && Listing(files) && (forall f :: f in files ==> f in whole)
    && (forall f :: f in whole && !Removable(f, active, policy) ==> f in files)
  }

  lemma AgedSpares(whole: seq<File>, p: nat, files: seq<File>, active: nat, policy: Policy, bytes: nat, removed: nat,
                   removedBytes: nat)
    requires Aged(whole, p, files, active, policy, bytes, removed, removedBytes)
    ensures Spared(whole, files, active, policy)
  {
    hide Young, ClosedBytes, Listing;
    var kept := Young(whole[..p], active, policy);
    TakeDrop(whole, p);
    forall f
      ensures f in kept <==> f in whole[..p] && !(Removable(f, active, policy) && Expired(f, policy))
    {
      YoungExactly(whole[..p], active, policy, f);
    }
  }

  /** The entries of a page are the next ones of the listing the pass started with. */
  lemma PageEntries(whole: seq<File>, p: nat, kept: seq<File>, files: seq<File>, after: Option<nat>, entries: seq<File>,
                    next: Option<nat>)
    requires Visited(whole, p, kept, files) && after == if p == 0 then None else Some(whole[p - 1].name)
    requires var from := FirstAfter(files, after);
             var to := if |files| - from > RETENTION_PAGE_ENTRIES then from + RETENTION_PAGE_ENTRIES else |files|;
             && entries == files[from..to] && next == (if to < |files| then Some(files[to - 1].name) else None)
    ensures p + |entries| <= |whole| && entries == whole[p..p + |entries|]
    ensures next.None? <==> p + |entries| == |whole|
    ensures next.Some? ==> |entries| > 0 && next == Some(whole[p + |entries| - 1].name)
  {
    hide FirstAfter, Listing;
    ContinuesThere(whole, p, kept, files, after);
    assert forall i :: 0 <= i < |entries| ==> entries[i] == whole[p + i];
  }

  /** The entries of one page of the age pass. */
  method AgeEntries(directory: Directory, entries: seq<File>, active: nat, policy: Policy, bytes: nat, removed: nat,
                    removedBytes: nat, ghost whole: seq<File>, ghost p: nat, calm: bool)
    returns (r: Result<(nat, Report), RetentionError>)
    requires Aged(whole, p, directory.files, active, policy, bytes, removed, removedBytes)
    requires p + |entries| <= |whole| && forall i :: 0 <= i < |entries| ==> entries[i] == whole[p + i]
    modifies directory
    ensures r.Ok? ==>
      Aged(whole, p + |entries|, directory.files, active, policy, r.value.0, r.value.1.removedFiles,
           r.value.1.removedBytes)
    ensures Spared(whole, directory.files, active, policy)
    ensures r.Err? ==> r == Err(UnsafeBoundary) || (r == Err(Io) && !calm)
    ensures r == Err(UnsafeBoundary) ==> exists f :: f in whole && Removable(f, active, policy) && f.complete.None?
  {
    hide Young, ClosedBytes, Listing, Aged, Spared, Without, FirstAfter, Removable, Expired, Closed;
    var total: nat, files: nat, size: nat := bytes, removed, removedBytes;
    AgedSpares(whole, p, directory.files, active, policy, total, files, size);
    for j := 0 to |entries|
      invariant Aged(whole, p + j, directory.files, active, policy, total, files, size)
      invariant Spared(whole, directory.files, active, policy)
    {
      var entry := entries[j];
      if Removable(entry, active, policy) && Expired(entry, policy) {
        AgedRemoves(whole, p + j, directory.files, active, policy, total, files, size);
        AgedSpares(whole, p + j + 1, Without(directory.files, entry), active, policy, total, files + 1,
                   size + entry.length);
        var gone := directory.Remove(entry, calm);
        if gone.Err? {
          return Err(gone.error);
        }
        files, size := files + 1, size + entry.length;
      } else {
        AgedKeeps(whole, p + j, directory.files, active, policy, total, files, size);
        if Closed(entry, active) {
          total := total + entry.length;
        }
      }
    }
    r := Ok((total, Report(false, files, size)));
  }

  method AgePass(directory: Directory, active: nat, policy: Policy, calm: bool)
    returns (r: Result<(nat, Report), RetentionError>)
    requires Listing(directory.files)
    modifies directory
    ensures r.Ok? ==>
      && directory.files == Young(old(directory.files), active, policy)
      && r.value.0 == ClosedBytes(directory.files, active)
      && r.value.1.removedFiles == |old(directory.files)| - |directory.files|
      && r.value.1.removedBytes == ClosedBytes(old(directory.files), active) - ClosedBytes(directory.files, active)
    ensures Spared(old(directory.files), directory.files, active, policy)
    ensures r.Err? ==> r == Err(UnsafeBoundary) || (r == Err(Io) && !calm)
    ensures r == Err(UnsafeBoundary) ==>
              exists f :: f in old(directory.files) && Removable(f, active, policy) && f.complete.None?
  {
    hide Young, ClosedBytes, Listing, Aged, Spared, Without, FirstAfter, Removable, Expired, Closed;
    ghost var whole, p: nat := directory.files, 0;
    var bytes: nat, removed: nat, removedBytes: nat, after: Option<nat> := 0, 0, 0, None;
    AgedStarts(whole, active, policy);
    while true
      invariant Aged(whole, p, directory.files, active, policy, bytes, removed, removedBytes) && p <= |whole|
      invariant after == if p == 0 then None else Some(whole[p - 1].name)
      decreases |whole| - p
    {
      AgedSpares(whole, p, directory.files, active, policy, bytes, removed, removedBytes);
      var page := directory.EntriesPage(after, calm);
      if page.Err? {
        return Err(page.error);
      }
      var (entries, next) := page.value;
      AgedPage(whole, p, directory.files, active, policy, bytes, removed, removedBytes, after, entries, next);
      var done := AgeEntries(directory, entries, active, policy, bytes, removed, removedBytes, whole, p, calm);
      if done.Err? {
        return Err(done.error);
      }
      bytes, removed, removedBytes := done.value.0, done.value.1.removedFiles, done.value.1.removedBytes;
      p := p + |entries|;
      if next.None? {
        break;
      }
      after := next;
    }
    AgedSpares(whole, p, directory.files, active, policy, bytes, removed, removedBytes);
    AgedEnds(whole, directory.files, active, policy, bytes, removed, removedBytes);
    r := Ok((bytes, Report(false, removed, removedBytes)));
  }

  lemma AgedPage(whole: seq<File>, p: nat, files: seq<File>, active: nat, policy: Policy, bytes: nat, removed: nat,
                 removedBytes: nat, after: Option<nat>, entries: seq<File>, next: Option<nat>)
    requires Aged(whole, p, files, active, policy, bytes, removed, removedBytes)
    requires after == if p == 0 then None else Some(whole[p - 1].name)
    requires var from := FirstAfter(files, after);
             var to := if |files| - from > RETENTION_PAGE_ENTRIES then from + RETENTION_PAGE_ENTRIES else |files|;
             && entries == files[from..to] && next == (if to < |files| then Some(files[to - 1].name) else None)
    ensures p + |entries| <= |whole| && forall i :: 0 <= i < |entries| ==> entries[i] == whole[p + i]
    ensures next.None? <==> p + |entries| == |whole|
    ensures next.Some? ==> |entries| > 0 && next == Some(whole[p + |entries| - 1].name)
  {
    hide Young, ClosedBytes, Visited, FirstAfter;
    PageEntries(whole, p, Young(whole[..p], active, policy), files, after, entries, next);
  }

  lemma AgedEnds(whole: seq<File>, files: seq<File>, active: nat, policy: Policy, bytes: nat, removed: nat,
                 removedBytes: nat)
    requires Aged(whole, |whole|, files, active, policy, bytes, removed, removedBytes)
    ensures files == Young(whole, active, policy) && bytes == ClosedBytes(files, active)
    ensures removed == |whole| - |files| && removedBytes == ClosedBytes(whole, active) - ClosedBytes(files, active)
  {
    hide Young, ClosedBytes, Listing;
    assert whole[..|whole|] == whole && whole[|whole|..] == [];
    assert files == Young(whole, active, policy) + [];
  }

  // The byte pass.

  /** The byte pass after `p` entries: what it kept, the closed bytes left, and what it removed. */
  ghost predicate Trimming(whole: seq<File>, p: nat, files: seq<File>, active: nat, policy: Policy, total: nat,
                           bytes: nat, removed: nat, removedBytes: nat)
  {
    && p <= |whole|
    && var kept := Trimmed(whole[..p], active, policy, total);
       && Visited(whole, p, kept, files) && bytes == Remaining(whole[..p], active, policy, total)
       && removed == p - |kept| && removedBytes + ClosedBytes(kept, active) == ClosedBytes(whole[..p], active)
  }

  lemma TrimmingStarts(whole: seq<File>, active: nat, policy: Policy, total: nat)
    requires Listing(whole)
    ensures Trimming(whole, 0, whole, active, policy, total, total, 0, 0)
  {
    assert whole[..0] == [] && [] + whole[0..] == whole;
  }

  lemma TrimmedSnoc(whole: seq<File>, p: nat, active: nat, policy: Policy, total: nat)
    requires p < |whole|
    ensures var before, last := Remaining(whole[..p], active, policy, total), whole[p];
            var gone := before > policy.maxBytes && Removable(last, active, policy);
            && Trimmed(whole[..p + 1], active, policy, total)
               == Trimmed(whole[..p], active, policy, total) + (if gone then [] else [last])
            && Remaining(whole[..p + 1], active, policy, total)
               == (if gone then (if last.length <= before then before - last.length else 0) else before)
  {
    assert whole[..p + 1][..p] == whole[..p];
  }

  lemma TrimmingKeeps(whole: seq<File>, p: nat, files: seq<File>, active: nat, policy: Policy, total: nat, bytes: nat,
                      removed: nat, removedBytes: nat)
    requires Trimming(whole, p, files, active, policy, total, bytes, removed, removedBytes) && p < |whole|
    requires !(bytes > policy.maxBytes && Removable(whole[p], active, policy))
    ensures Trimming(whole, p + 1, files, active, policy, total, bytes, removed, removedBytes)
  {
    hide Trimmed, Remaining, ClosedBytes, Visited;
    var kept := Trimmed(whole[..p], active, policy, total);
    TrimmedSnoc(whole, p, active, policy, total);
    Snoc(whole, p, active);
    VisitKeeps(whole, p, kept, files);
    ClosedBytesSplit(kept, [whole[p]], active);
    OneFile(whole[p], active);
  }

  lemma TrimmingRemoves(whole: seq<File>, p: nat, files: seq<File>, active: nat, policy: Policy, total: nat, bytes: nat,
                        removed: nat, removedBytes: nat)
    requires Trimming(whole, p, files, active, policy, total, bytes, removed, removedBytes) && p < |whole|
    requires bytes > policy.maxBytes && Removable(whole[p], active, policy)
    ensures whole[p] in files
    ensures Trimming(whole, p + 1, Without(files, whole[p]), active, policy, total,
                     if whole[p].length <= bytes then bytes - whole[p].length else 0, removed + 1,
                     removedBytes + whole[p].length)
  {
    hide Trimmed, Remaining, ClosedBytes, Visited, Without;
    var kept := Trimmed(whole[..p], active, policy, total);
    TrimmedSnoc(whole, p, active, policy, total);
    assert kept + [] == kept;
    Snoc(whole, p, active);
    VisitKeeps(whole, p, kept, files);
    VisitRemoves(whole, p, kept, files);
    VisitedListing(whole, p, kept, files);
    WithoutAt(files, |kept|);
  }

  lemma {:induction false} TrimmedSpares(files: seq<File>, active: nat, policy: Policy, total: nat, f: File)
    requires f in files && !Removable(f, active, policy)
    ensures f in Trimmed(files, active, policy, total)
  {
    var n := |files| - 1;
    if f in files[..n] {
      TrimmedSpares(files[..n], active, policy, total, f);
    } else {
      assert files[n] == f;
    }
  }

  lemma TrimmingSpares(whole: seq<File>, p: nat, files: seq<File>, active: nat, policy: Policy, total: nat, bytes: nat,
                       removed: nat, removedBytes: nat)
    requires Trimming(whole, p, files, active, policy, total, bytes, removed, removedBytes)
    ensures Spared(whole, files, active, policy)
  {
    hide Trimmed, Remaining, ClosedBytes, Listing;
    TakeDrop(whole, p);
    TrimmedFrom(whole[..p], active, policy, total);
    forall f | f in whole && !Removable(f, active, policy)
      ensures f in files
    {
      if f in whole[..p] {
        TrimmedSpares(whole[..p], active, policy, total, f);
      }
    }
  }

  lemma TrimmingPage(whole: seq<File>, p: nat, files: seq<File>, active: nat, policy: Policy, total: nat, bytes: nat,
                     removed: nat, removedBytes: nat, after: Option<nat>, entries: seq<File>, next: Option<nat>)
    requires Trimming(whole, p, files, active, policy, total, bytes, removed, removedBytes)
    requires after == if p == 0 then None else Some(whole[p - 1].name)
    requires var from := FirstAfter(files, after);
             var to := if |files| - from > RETENTION_PAGE_ENTRIES then from + RETENTION_PAGE_ENTRIES else |files|;
             && entries == files[from..to] && next == (if to < |files| then Some(files[to - 1].name) else None)
    ensures p + |entries| <= |whole| && forall i :: 0 <= i < |entries| ==> entries[i] == whole[p + i]
    ensures next.None? <==> p + |entries| == |whole|
    ensures next.Some? ==> |entries| > 0 && next == Some(whole[p + |entries| - 1].name)
  {
    hide Trimmed, Remaining, ClosedBytes, Visited, FirstAfter;
    PageEntries(whole, p, Trimmed(whole[..p], active, policy, total), files, after, entries, next);
  }

  lemma TrimmingEnds(whole: seq<File>, files: seq<File>, active: nat, policy: Policy, total: nat, bytes: nat,
                     removed: nat, removedBytes: nat)
    requires Trimming(whole, |whole|, files, active, policy, total, bytes, removed, removedBytes)
    ensures files == Trimmed(whole, active, policy, total) && bytes == Remaining(whole, active, policy, total)
    ensures removed == |whole| - |files| && removedBytes == ClosedBytes(whole, active) - ClosedBytes(files, active)
  {
    hide Trimmed, Remaining, ClosedBytes, Listing;
    assert whole[..|whole|] == whole && whole[|whole|..] == [];
    assert files == Trimmed(whole, active, policy, total) + [];
  }

  /** The entries of one page of the byte pass. */
  method TrimEntries(directory: Directory, entries: seq<File>, active: nat, policy: Policy, ghost total: nat,
                     bytes: nat, removed: nat, removedBytes: nat, ghost whole: seq<File>, ghost p: nat, calm: bool)
    returns (r: Result<(nat, Report), RetentionError>)
    requires Trimming(whole, p, directory.files, active, policy, total, bytes, removed, removedBytes)
    requires p + |entries| <= |whole| && forall i :: 0 <= i < |entries| ==> entries[i] == whole[p + i]
    modifies directory
    ensures r.Ok? ==>
      Trimming(whole, p + |entries|, directory.files, active, policy, total, r.value.0, r.value.1.removedFiles,
               r.value.1.removedBytes)
    ensures Spared(whole, directory.files, active, policy)
    ensures r.Err? ==> r == Err(UnsafeBoundary) || (r == Err(Io) && !calm)
    ensures r == Err(UnsafeBoundary) ==> exists f :: f in whole && Removable(f, active, policy) && f.complete.None?
  {
    hide Trimmed, Remaining, ClosedBytes, Listing, Trimming, Spared, Without, FirstAfter, Removable;
    var left: nat, files: nat, size: nat := bytes, removed, removedBytes;
    TrimmingSpares(whole, p, directory.files, active, policy, total, left, files, size);
    for j := 0 to |entries|
      invariant Trimming(whole, p + j, directory.files, active, policy, total, left, files, size)
      invariant Spared(whole, directory.files, active, policy)
    {
      var entry := entries[j];
      if left > policy.maxBytes && Removable(entry, active, policy) {
        var after := if entry.length <= left then left - entry.length else 0;
        TrimmingRemoves(whole, p + j, directory.files, active, policy, total, left, files, size);
        TrimmingSpares(whole, p + j + 1, Without(directory.files, entry), active, policy, total, after, files + 1,
                       size + entry.length);
        var gone := directory.Remove(entry, calm);
        if gone.Err? {
          return Err(gone.error);
        }
        left, files, size := after, files + 1, size + entry.length;
      } else {
        TrimmingKeeps(whole, p + j, directory.files, active, policy, total, left, files, size);
      }
    }
    r := Ok((left, Report(false, files, size)));
  }

  method BytePass(directory: Directory, active: nat, policy: Policy, total: nat, calm: bool)
    returns (r: Result<Report, RetentionError>)
    requires Listing(directory.files)
    modifies directory
    ensures r.Ok? ==>
      && directory.files == Trimmed(old(directory.files), active, policy, total)
      && r.value.removedFiles == |old(directory.files)| - |directory.files|
      && r.value.removedBytes == ClosedBytes(old(directory.files), active) - ClosedBytes(directory.files, active)
    ensures r.Ok? && total == ClosedBytes(old(directory.files), active) ==>
      RemovesShortestRun(old(directory.files), directory.files, active, policy)
    ensures Spared(old(directory.files), directory.files, active, policy)
    ensures r.Err? ==> r == Err(UnsafeBoundary) || (r == Err(Io) && !calm)
    ensures r == Err(UnsafeBoundary) ==>
      exists f :: f in old(directory.files) && Removable(f, active, policy) && f.complete.None?
  {
    hide RemovesShortestRun, Trimmed, Remaining, ClosedBytes, Listing, Trimming, Spared, Without, FirstAfter, Removable;
    ghost var whole, p: nat := directory.files, 0;
    var bytes: nat, removed: nat, removedBytes: nat, after: Option<nat> := total, 0, 0, None;
    TrimmingStarts(whole, active, policy, total);
    while true
      invariant Trimming(whole, p, directory.files, active, policy, total, bytes, removed, removedBytes) && p <= |whole|
      invariant after == if p == 0 then None else Some(whole[p - 1].name)
      decreases |whole| - p
    {
      TrimmingSpares(whole, p, directory.files, active, policy, total, bytes, removed, removedBytes);
      var page := directory.EntriesPage(after, calm);
      if page.Err? {
        return Err(page.error);
      }
      var (entries, next) := page.value;
      TrimmingPage(whole, p, directory.files, active, policy, total, bytes, removed, removedBytes, after, entries,
                   next);
      var done := TrimEntries(directory, entries, active, policy, total, bytes, removed, removedBytes, whole, p, calm);
      if done.Err? {
        return Err(done.error);
      }
      bytes, removed, removedBytes := done.value.0, done.value.1.removedFiles, done.value.1.removedBytes;
      p := p + |entries|;
      if next.None? {
        break;
      }
      after := next;
    }
    TrimmingSpares(whole, p, directory.files, active, policy, total, bytes, removed, removedBytes);
    TrimmingEnds(whole, directory.files, active, policy, total, bytes, removed, removedBytes);
    TrimmedIsShortest(whole, active, policy);
    r := Ok(Report(false, removed, removedBytes));
  }

  // The whole run.

  function Highest(files: seq<File>): nat {
    if files == [] then 0
    else
      var before, last := Highest(files[..|files| - 1]), files[|files| - 1];
      if last.index.Some? && last.index.value > before then last.index.value else before
  }

  /** The last sequence of the segments other than the active one, if all are complete and follow each other. */
  function Checked(files: seq<File>, active: Option<nat>): Option<nat> {
    if files == [] then Some(0)
    else
      var before, last := Checked(files[..|files| - 1], active), files[|files| - 1];
      if before.None? || last.index.None? || active == last.index then before
      else if last.complete.None? || last.complete.value.0 <= before.value then None
      else Some(last.complete.value.1)
  }

  lemma {:induction false} CheckedPrefix(files: seq<File>, active: Option<nat>, p: nat)
    requires p <= |files| && Checked(files[..p], active).None?
    ensures Checked(files, active).None?
  {
    if p == |files| {
      assert files[..p] == files;
    } else {
      var n := |files| - 1;
      assert files[..n][..p] == files[..p];
      CheckedPrefix(files[..n], active, p);
    }
  }

  lemma {:induction false} CheckedComplete(files: seq<File>, active: Option<nat>, f: File)
    requires Checked(files, active).Some? && f in files && f.index.Some? && active != f.index
    ensures f.complete.Some?
  {
    var n := |files| - 1;
    if files[n] != f {
      CheckedComplete(files[..n], active, f);
    }
  }

  lemma VisitedAll(whole: seq<File>, p: nat)
    requires Listing(whole) && p <= |whole|
    ensures Visited(whole, p, whole[..p], whole)
  {
    TakeDrop(whole, p);
  }

  lemma ScanSnoc(whole: seq<File>, p: nat, active: Option<nat>)
    requires p < |whole|
    ensures var last, before := whole[p], Checked(whole[..p], active);
            && Highest(whole[..p + 1])
               == (if last.index.Some? && last.index.value > Highest(whole[..p]) then last.index.value
                   else Highest(whole[..p]))
            && Checked(whole[..p + 1], active)
               == (if before.None? || last.index.None? || active == last.index then before
                   else if last.complete.None? || last.complete.value.0 <= before.value then None
                   else Some(last.complete.value.1))
  {
    assert whole[..p + 1][..p] == whole[..p];
  }

  /** The entries of one page: the highest index and the last sequence so far, or None where they do not follow. */
  method ScanEntries(entries: seq<File>, active: Option<nat>, from: nat, before: nat, ghost whole: seq<File>,
                     ghost p: nat)
    returns (r: Option<(nat, nat)>)
    requires p + |entries| <= |whole| && forall i :: 0 <= i < |entries| ==> entries[i] == whole[p + i]
    requires Scanned(whole, p, active, from, before)
    ensures r.Some? ==> Scanned(whole, p + |entries|, active, r.value.0, r.value.1)
    ensures r.None? ==> Checked(whole, active).None?
  {
    hide Scanned, Highest, Checked;
    var highest: nat, last: nat := from, before;
    for j := 0 to |entries|
      invariant Scanned(whole, p + j, active, highest, last)
    {
      var entry := entries[j];
      ScanStep(whole, p + j, active, highest, last);
      if entry.index.Some? {
        highest := if entry.index.value > highest then entry.index.value else highest;
        if active != entry.index {
          if entry.complete.None? || entry.complete.value.0 <= last {
            return None;
          }
          last := entry.complete.value.1;
        }
      }
    }
    r := Some((highest, last));
  }

  /** Validate every segment but the active one, and find the highest index. */
  method ScanOwned(directory: Directory, active: Option<nat>, calm: bool) returns (r: Result<nat, RetentionError>)
    requires Listing(directory.files)
    ensures r.Ok? ==> r.value == Highest(directory.files) && Checked(directory.files, active).Some?
    ensures r.Err? ==> r == Err(UnsafeBoundary) || (r == Err(Io) && !calm)
    ensures r == Err(UnsafeBoundary) ==> Checked(directory.files, active).None?
  {
    hide Listing, Scanned, Highest, Checked, FirstAfter;
    ghost var whole, p: nat := directory.files, 0;
    var after: Option<nat>, highest: nat, last: nat := None, 0, 0;
    ScanStarts(whole, active);
    while true
      invariant p <= |whole| && Scanned(whole, p, active, highest, last)
      invariant after == if p == 0 then None else Some(whole[p - 1].name)
      decreases |whole| - p
    {
      var page := directory.EntriesPage(after, calm);
      if page.Err? {
        return Err(page.error);
      }
      var (entries, next) := page.value;
      ScanPage(whole, p, after, entries, next);
      var scanned := ScanEntries(entries, active, highest, last, whole, p);
      if scanned.None? {
        return Err(UnsafeBoundary);
      }
      highest, last := scanned.value.0, scanned.value.1;
      p := p + |entries|;
      if next.None? {
        break;
      }
      after := next;
    }
    ScanEnds(whole, active, highest, last);
    r := Ok(highest);
  }

  ghost predicate Scanned(whole: seq<File>, p: nat, active: Option<nat>, highest: nat, last: nat) {
    p <= |whole| && highest == Highest(whole[..p]) && Checked(whole[..p], active) == Some(last)
  }

  lemma ScanStarts(whole: seq<File>, active: Option<nat>)
    ensures Scanned(whole, 0, active, 0, 0)
  {
  }

  lemma ScanStep(whole: seq<File>, p: nat, active: Option<nat>, highest: nat, last: nat)
    requires Scanned(whole, p, active, highest, last) && p < |whole|
    ensures var entry := whole[p];
            var top := if entry.index.Some? && entry.index.value > highest then entry.index.value else highest;
            if entry.index.None? || active == entry.index then Scanned(whole, p + 1, active, top, last)
            else if entry.complete.None? || entry.complete.value.0 <= last then Checked(whole, active).None?
            else Scanned(whole, p + 1, active, top, entry.complete.value.1)
  {
    hide Highest, Checked;
    ScanSnoc(whole, p, active);
    if Checked(whole[..p + 1], active).None? {
      CheckedPrefix(whole, active, p + 1);
    }
  }

  lemma ScanEnds(whole: seq<File>, active: Option<nat>, highest: nat, last: nat)
    requires Scanned(whole, |whole|, active, highest, last)
    ensures highest == Highest(whole) && Checked(whole, active).Some?
  {
    assert whole[..|whole|] == whole;
  }

  lemma ScanPage(whole: seq<File>, p: nat, after: Option<nat>, entries: seq<File>, next: Option<nat>)
    requires Listing(whole) && p <= |whole| && after == if p == 0 then None else Some(whole[p - 1].name)
    requires var from := FirstAfter(whole, after);
             var to := if |whole| - from > RETENTION_PAGE_ENTRIES then from + RETENTION_PAGE_ENTRIES else |whole|;
             && entries == whole[from..to] && next == (if to < |whole| then Some(whole[to - 1].name) else None)
    ensures p + |entries| <= |whole| && forall i :: 0 <= i < |entries| ==> entries[i] == whole[p + i]
    ensures next.None? <==> p + |entries| == |whole|
    ensures next.Some? ==> |entries| > 0 && next == Some(whole[p + |entries| - 1].name)
  {
    hide Listing, FirstAfter, Visited;
    VisitedAll(whole, p);
    PageEntries(whole, p, whole[..p], whole, after, entries, next);
  }

  /** What both passes together leave of a listing. */
  function Enforced(files: seq<File>, active: nat, policy: Policy): seq<File> {
    var young := Young(files, active, policy);
    var bytes := ClosedBytes(young, active);
    if bytes > policy.maxBytes then Trimmed(young, active, policy, bytes) else young
  }

  /** The closed bytes are within the limit, or every closed segment left is leased. */
  lemma EnforcedMeetsLimit(files: seq<File>, active: nat, policy: Policy)
    ensures var left := Enforced(files, active, policy);
            || ClosedBytes(left, active) <= policy.maxBytes
            || forall f :: f in left && Closed(f, active) ==> Leased(f, policy)
  {
    hide Young, Trimmed, ClosedBytes, Remaining;
    var young := Young(files, active, policy);
    var bytes := ClosedBytes(young, active);
    LimitOrLeased(young, active, policy, bytes);
    RemainingIsClosed(young, active, policy, bytes);
  }

  lemma SparedTwice(whole: seq<File>, young: seq<File>, left: seq<File>, active: nat, policy: Policy)
    requires Spared(whole, young, active, policy) && Spared(young, left, active, policy)
    ensures Spared(whole, left, active, policy)
  {
    hide Listing;
  }

  /** The segment with the highest index, which is the active one. */
  ghost predicate Newest(files: seq<File>, f: File) {
    f.index.Some? && forall g :: g in files && g.index.Some? ==> g.index.value <= f.index.value
  }

  /** Nothing appears, and the newest segment, every leased file and every file that is no segment stay. */
  ghost predicate Keeps(before: seq<File>, after: seq<File>, policy: Policy) {
    && (forall f :: f in after ==> f in before)
    && forall f :: f in before && (f.index.None? || f.identity in policy.leases || Newest(before, f)) ==> f in after
  }

  /** Any other segment, older than the limit. */
  ghost predicate Outlived(files: seq<File>, f: File, policy: Policy) {
    && f.index.Some? && f.identity !in policy.leases && !Newest(files, f)
    && f.modified.Some? && f.modified.value + policy.maxAge < policy.now
  }

  ghost predicate Ages(before: seq<File>, after: seq<File>, policy: Policy) {
    forall f :: f in before && Outlived(before, f, policy) ==> f !in after
  }

  lemma {:induction false} HighestBounds(files: seq<File>)
    ensures forall f :: f in files && f.index.Some? ==> f.index.value <= Highest(files)
    ensures Highest(files) == 0 || exists f :: f in files && f.index == Some(Highest(files))
  {
    if files != [] {
      var n := |files| - 1;
      HighestBounds(files[..n]);
      assert files == files[..n] + [files[n]];
      assert files[n] in files;
    }
  }

  lemma NewestIsHighest(files: seq<File>, f: File)
    requires f in files && f.index.Some?
    ensures Newest(files, f) <==> f.index.value == Highest(files)
  {
    HighestBounds(files);
  }

  lemma SparedKeeps(before: seq<File>, after: seq<File>, policy: Policy)
    requires Spared(before, after, Highest(before), policy)
    ensures Keeps(before, after, policy)
  {
    hide Highest, Listing;
    forall f | f in before && (f.index.None? || f.identity in policy.leases || Newest(before, f))
      ensures f in after
    {
      if f.index.Some? {
        NewestIsHighest(before, f);
      }
    }
  }

  lemma EnforcedAges(before: seq<File>, policy: Policy)
    requires Listing(before)
    ensures Ages(before, Enforced(before, Highest(before), policy), policy)
  {
    hide Highest, Listing, Young, Trimmed, ClosedBytes;
    var highest := Highest(before);
    var young := Young(before, highest, policy);
    TrimmedFrom(young, highest, policy, ClosedBytes(young, highest));
    forall f | f in before && Outlived(before, f, policy)
      ensures f !in Enforced(before, highest, policy)
    {
      NewestIsHighest(before, f);
      YoungExactly(before, highest, policy, f);
    }
  }

  /**
   Retention: on success exactly the two passes were made; the active and every leased segment remain, and the closed
   bytes are within the limit or all closed segments left are leased. A failure never takes more than removable
   segments, and undisturbed it comes only from a directory that does not check out.
   */
  method Enforce(directory: Directory, performs: bool, policy: Policy, active: Option<nat>, calm: bool)
    returns (r: Result<Report, RetentionError>)
    requires Listing(directory.files)
    modifies directory
    ensures !performs ==> r == Ok(Report(true, 0, 0)) && directory.files == old(directory.files)
    ensures Keeps(old(directory.files), directory.files, policy)
    ensures performs && r.Ok? ==> Ages(old(directory.files), directory.files, policy)
    ensures Spared(old(directory.files), directory.files, Highest(old(directory.files)), policy)
    ensures performs && r.Ok? ==>
      var before, highest := old(directory.files), Highest(old(directory.files));
      && directory.files == Enforced(before, highest, policy)
      && RemovesShortestRun(Young(before, highest, policy), directory.files, highest, policy)
      && (ClosedBytes(directory.files, highest) <= policy.maxBytes
          || forall f :: f in directory.files && Closed(f, highest) ==> Leased(f, policy))
      && r.value.removedFiles == |before| - |directory.files|
      && r.value.removedBytes == ClosedBytes(before, highest) - ClosedBytes(directory.files, highest)
    ensures calm && performs ==>
      (r.Ok? <==>
         Checked(old(directory.files), active).Some? && (active.None? || active.value == Highest(old(directory.files))))
  {
    hide Young, Trimmed, ClosedBytes, Listing, Spared, Highest, Checked, Enforced, Remaining, RemovesShortestRun, Keeps,
         Ages;
    ghost var before := directory.files;
    UntouchedSpared(before, Highest(before), policy);
    SparedKeeps(before, before, policy);
    EnforcedAges(before, policy);
    if !performs {
      return Ok(Report(true, 0, 0));
    }
    var found := ScanOwned(directory, active, calm);
    if found.Err? {
      return Err(found.error);
    }
    if active.Some? && active.value != found.value {
      return Err(UnsafeBoundary);
    }
    var highest := found.value;
    AllComplete(before, active, highest, policy);
    var aged := AgePass(directory, highest, policy, calm);
    SparedKeeps(before, directory.files, policy);
    if aged.Err? {
      return Err(aged.error);
    }
    var (bytes, report) := aged.value;
    ghost var young := directory.files;
    SparedListing(before, young, highest, policy);
    EnforcedMeetsLimit(before, highest, policy);
    EnforcedIs(before, highest, policy);
    EnforcedIsShortest(before, highest, policy);
    if bytes > policy.maxBytes {
      StillComplete(before, young, highest, policy);
      var trimmed := BytePass(directory, highest, policy, bytes, calm);
      SparedTwice(before, young, directory.files, highest, policy);
      SparedKeeps(before, directory.files, policy);
      if trimmed.Err? {
        return Err(trimmed.error);
      }
      report := Report(false, report.removedFiles + trimmed.value.removedFiles,
                       report.removedBytes + trimmed.value.removedBytes);
    }
    r := Ok(report);
  }

  lemma UntouchedSpared(files: seq<File>, active: nat, policy: Policy)
    requires Listing(files)
    ensures Spared(files, files, active, policy)
  {
  }

  lemma SparedListing(whole: seq<File>, files: seq<File>, active: nat, policy: Policy)
    requires Spared(whole, files, active, policy)
    ensures Listing(files)
  {
  }

  ghost predicate RemovableComplete(files: seq<File>, active: nat, policy: Policy) {
    forall f :: f in files && Removable(f, active, policy) ==> f.complete.Some?
  }

  lemma AllComplete(files: seq<File>, active: Option<nat>, highest: nat, policy: Policy)
    requires Checked(files, active).Some? && (active.None? || active.value == highest)
    ensures RemovableComplete(files, highest, policy)
  {
    hide Checked;
    forall f | f in files && Removable(f, highest, policy)
      ensures f.complete.Some?
    {
      CheckedComplete(files, active, f);
    }
  }

  lemma StillComplete(whole: seq<File>, files: seq<File>, active: nat, policy: Policy)
    requires RemovableComplete(whole, active, policy) && Spared(whole, files, active, policy)
    ensures RemovableComplete(files, active, policy)
  {
  }

  lemma EnforcedIsShortest(files: seq<File>, active: nat, policy: Policy)
    ensures RemovesShortestRun(Young(files, active, policy), Enforced(files, active, policy), active, policy)
  {
    hide Young, Trimmed, ClosedBytes;
    var young := Young(files, active, policy);
    EnforcedIs(files, active, policy);
    if ClosedBytes(young, active) > policy.maxBytes {
      TrimmedIsShortest(young, active, policy);
    } else {
      assert young[..0] == [] && LeftAfter(young, 0, active, policy) == young;
      assert ShortestRun(young, 0, active, policy);
    }
  }

  lemma EnforcedIs(files: seq<File>, active: nat, policy: Policy)
    ensures var young := Young(files, active, policy);
            var bytes := ClosedBytes(young, active);
            Enforced(files, active, policy) == if bytes > policy.maxBytes then Trimmed(young, active, policy, bytes)
                                               else young
  {
  }
}
