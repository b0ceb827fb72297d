/**
 The crash-safe delete protocol of `wokcore-platform/src/diagnostics.rs` (unix): a file is renamed to a
 tombstone guarded by a marker that names it, emptied and unlinked, and a later reclaim finishes or
 discards whatever an interruption left behind.

 The directory maps names to files. `locked` holds the files locked by other live processes. Every method
 may be interrupted between any two of its directory operations, which also stands for a storage error at
 that point, unless its caller says the environment is calm.
 */
module DeleteProtocol {
  import opened Prelude
  import opened LittleEndian

  const MAX_DIAGNOSTIC_DELETE_TOMBSTONES: nat := 16_384
  const MARKER_BYTES: nat := 24
  const MARKER_MAGIC: Bytes := [87, 79, 75, 68, 84, 77, 48, 49]

  datatype Identity = Identity(device: nat, inode: nat)

  /** Permission bits relative to 0600: exactly those, a proper part of them, or something beyond. */
  datatype Mode = Exact | Within | Beyond

  /**
   A directory entry. `owned`: it belongs to the current user; `regular`: it is a regular file with one link; `denied`:
   the system refuses to open it for reading and writing. A private file is never denied, whatever the flag says.
   */
  datatype File = File(identity: Identity, bytes: Bytes, mode: Mode, owned: bool, regular: bool, denied: bool)

  datatype Name = Visible(text: string) | Tombstone(slot: nat) | Marker(slot: nat)

  type Entries = map<Name, File>

  // Markers.

  function EncodeMarker(identity: Identity): (bytes: Bytes)
    ensures |bytes| == MARKER_BYTES
  {
    MARKER_MAGIC + ToBytes(identity.device, 8) + ToBytes(identity.inode, 8)
  }

  function DecodeMarker(bytes: Bytes): Option<Identity> {
    if |bytes| != MARKER_BYTES || bytes[..8] != MARKER_MAGIC then None
    else Some(Identity(FromBytes(bytes[8..16]), FromBytes(bytes[16..24])))
  }

  predicate Fits64(identity: Identity) {
    identity.device < Limit(8) && identity.inode < Limit(8)
  }

  /** A marker names exactly the identity it was written for, and no other byte string does. */
  lemma MarkerRoundTrip(identity: Identity, bytes: Bytes)
    requires Fits64(identity)
    ensures DecodeMarker(bytes) == Some(identity) <==> bytes == EncodeMarker(identity)
  {
    EncodedMarker(identity);
    if DecodeMarker(bytes) == Some(identity) {
      hide ToBytes, FromBytes;
      EncodeDecode(bytes[8..16]);
      EncodeDecode(bytes[16..24]);
      TakeDrop(bytes, 8);
      TakeDrop(bytes[8..], 8);
      assert bytes[8..][..8] == bytes[8..16] && bytes[8..][8..] == bytes[16..24];
    }
  }

  lemma EncodedMarker(identity: Identity)
    requires Fits64(identity)
    ensures DecodeMarker(EncodeMarker(identity)) == Some(identity)
  {
    hide ToBytes, FromBytes;
    var encoded := EncodeMarker(identity);
    DecodeEncode(identity.device, 8);
    DecodeEncode(identity.inode, 8);
    assert encoded[..8] == MARKER_MAGIC;
    assert encoded[8..16] == ToBytes(identity.device, 8);
    assert encoded[16..24] == ToBytes(identity.inode, 8);
  }

  /** Private to the user: a regular file with one link, owned by the user, with mode 0600. */
  predicate Strict(file: File) {
    file.regular && file.owned && file.mode.Exact?
  }

  /** `open_child_for_update` returns a handle. */
  predicate Openable(file: File) {
    Strict(file) || (file.regular && !file.denied)
  }

  /** `open_child_for_update` fails with an error that its callers do not take for an unsafe path. */
  predicate Denied(file: File) {
    file.denied && !Strict(file)
  }

  /** What a marker may look like while it is being created: at most 0600, at most 24 bytes. */
  predicate PartialMarker(file: File) {
    file.regular && file.owned && !file.mode.Beyond? && |file.bytes| <= MARKER_BYTES
  }

  /** The slot holds a tombstone and a complete marker that names it. */
  predicate Matched(e: Entries, slot: nat) {
    && Marker(slot) in e && Tombstone(slot) in e
    && Strict(e[Marker(slot)]) && Strict(e[Tombstone(slot)])
    && DecodeMarker(e[Marker(slot)].bytes) == Some(e[Tombstone(slot)].identity)
  }

  predicate Free(e: Entries, slot: nat) {
    Marker(slot) !in e && Tombstone(slot) !in e
  }

  /** What an interrupted deletion may leave in a slot. */
  predicate Residue(e: Entries, slot: nat) {
    || Free(e, slot)
    || (Tombstone(slot) !in e && Marker(slot) in e && PartialMarker(e[Marker(slot)]))
    || Matched(e, slot)
  }

  /** When a reclaim frees the slot. The owner of a deletion passes the file and the marker it holds. */
  predicate Reclaimable(e: Entries, locked: set<Identity>, slot: nat, expected: Option<Identity>,
                        active: Option<Identity>) {
    && Residue(e, slot)
    && (Matched(e, slot) ==>
          && (if active.Some? then active.value == e[Marker(slot)].identity else e[Marker(slot)].identity !in locked)
          && (if expected.Some? then expected.value == e[Tombstone(slot)].identity && e[Tombstone(slot)].bytes == []
              else e[Tombstone(slot)].identity !in locked))
  }

  /** When a reclaim fails instead of passing the slot by: a complete marker, and a tombstone that cannot be opened. */
  predicate Blocked(e: Entries, locked: set<Identity>, slot: nat, expected: Option<Identity>,
                    active: Option<Identity>) {
    && Marker(slot) in e && Tombstone(slot) in e && Strict(e[Marker(slot)]) && Denied(e[Tombstone(slot)])
    && (if active.Some? then active.value == e[Marker(slot)].identity else e[Marker(slot)].identity !in locked)
    && DecodeMarker(e[Marker(slot)].bytes).Some?
    && (expected.Some? ==> DecodeMarker(e[Marker(slot)].bytes) == expected)
  }

  function Cleared(e: Entries, slot: nat): Entries {
    e - {Marker(slot), Tombstone(slot)}
  }

  /** The states a reclaim passes through: the tombstone as it was, emptied, or gone. */
  predicate MidReclaim(before: Entries, after: Entries, slot: nat) {
    || after == before
    || (Tombstone(slot) in before && after == before[Tombstone(slot) := before[Tombstone(slot)].(bytes := [])])
    || after == before - {Tombstone(slot)}
  }

  datatype Reclaimed = Freed | Kept | Failed | Interrupted

  // What a step may change.

  predicate SameAt(before: Entries, after: Entries, name: Name) {
    (name in before <==> name in after) && (name in before ==> before[name] == after[name])
  }

  predicate SameSlot(before: Entries, after: Entries, slot: nat) {
    SameAt(before, after, Marker(slot)) && SameAt(before, after, Tombstone(slot))
  }

  ghost predicate VisibleKept(before: Entries, after: Entries, except: set<Name>) {
    forall name: Name :: name.Visible? && name !in except ==> SameAt(before, after, name)
  }

  predicate OrEmptied(file: File, now: File) {
    now == file || now == file.(bytes := [])
  }

  /** The slot's tombstone is a file that was visible in `origin`, could be opened and is not private to the user. */
  ghost predicate LostTo(origin: Entries, e: Entries, slot: nat, name: Name) {
    && name.Visible? && name in origin && Openable(origin[name]) && !Strict(origin[name])
    && Tombstone(slot) in e && OrEmptied(origin[name], e[Tombstone(slot)])
  }

  /** Residue stays residue unless a file that is not private takes the slot; other slots are untouched. */
  ghost predicate SlotsSafe(before: Entries, after: Entries) {
    forall slot :: if Residue(before, slot) then
                     Residue(after, slot) || exists name :: LostTo(before, after, slot, name)
                   else SameSlot(before, after, slot)
  }

  /** The file is stored under no other name. */
  ghost predicate OnlyAt(e: Entries, identity: Identity, name: Name) {
    forall other :: other in e && e[other].identity == identity ==> other == name
  }

  predicate UnusedBy(identity: Identity, e: Entries) {
    forall name :: name in e ==> e[name].identity != identity
  }

  /** Each file stays where it was, becomes the tombstone of `moved`, or is a new marker that is no other file. */
  ghost predicate Traced(before: Entries, after: Entries, moved: set<Identity>) {
    forall name :: name in after ==>
      || (name in before && (after[name] == before[name] || (name.Tombstone? && OrEmptied(before[name], after[name]))))
      || (name.Tombstone? && after[name].identity in moved)
      || (name.Marker? && OnlyAt(after, after[name].identity, name))
  }

  // Locks of other handles.

  /** The slot holds a tombstone, and another handle has the tombstone or its marker locked. */
  predicate Guarded(e: Entries, locked: set<Identity>, slot: nat) {
    && Tombstone(slot) in e
    && (e[Tombstone(slot)].identity in locked || (Marker(slot) in e && e[Marker(slot)].identity in locked))
  }

  ghost predicate GuardedKept(before: Entries, after: Entries, locked: set<Identity>) {
    forall slot: nat :: Guarded(before, locked, slot) ==> SameSlot(before, after, slot)
  }

  // Where a file of `origin` may be.

  ghost predicate Intact(origin: Entries, e: Entries, name: Name) {
    && name in origin && name in e && e[name] == origin[name]
    && (origin[name].regular ==> OnlyAt(e, origin[name].identity, name))
  }

  /** In a tombstone and nowhere else; one that is private is guarded by a complete marker that names it. */
  ghost predicate Held(origin: Entries, e: Entries, name: Name, slot: nat)
    requires name in origin
  {
    && Openable(origin[name]) && Tombstone(slot) in e && OrEmptied(origin[name], e[Tombstone(slot)])
    && OnlyAt(e, origin[name].identity, Tombstone(slot))
    && (Strict(origin[name]) ==> Matched(e, slot))
  }

  /** No visible name and no tombstone is this file. A later marker or file may reuse its inode. */
  ghost predicate Gone(e: Entries, identity: Identity) {
    forall other :: other in e && !other.Marker? ==> e[other].identity != identity
  }

  ghost predicate Fate(origin: Entries, e: Entries, name: Name, maximum: nat)
    requires name in origin
  {
    || Intact(origin, e, name)
    || (name !in e && exists slot: nat :: slot < maximum && Held(origin, e, name, slot))
    || (name !in e && Strict(origin[name]) && Gone(e, origin[name].identity))
  }

  function CompleteMarker(marker: Identity, identity: Identity): File {
    File(marker, EncodeMarker(identity), Exact, true, true, false)
  }

  /** A marked slot whose file has been renamed into it. */
  function Buried(e: Entries, name: Name, slot: nat, marker: Identity): Entries
    requires name in e
  {
    (e - {name})[Marker(slot) := CompleteMarker(marker, e[name].identity)][Tombstone(slot) := e[name]]
  }

  // The search for a slot.

  /** The distance from `start` to `slot` going round. */
  function Ahead(start: nat, slot: nat, maximum: nat): int {
    if slot >= start then slot - start else slot + maximum - start
  }

  function First(start: nat, maximum: nat): nat {
    if start >= maximum then 0 else start
  }

  function Next(slot: nat, maximum: nat): nat {
    if slot + 1 == maximum then 0 else slot + 1
  }

  /** The first slot, going round from `start`, that can be freed or whose reclaim fails. */
  ghost predicate Reaches(e: Entries, locked: set<Identity>, start: nat, maximum: nat, slot: nat) {
    && slot < maximum && (Reclaimable(e, locked, slot, None, None) || Blocked(e, locked, slot, None, None))
    && forall k: nat :: k < maximum && Ahead(start, k, maximum) < Ahead(start, slot, maximum) ==>
         !Reclaimable(e, locked, k, None, None) && !Blocked(e, locked, k, None, None)
  }

  ghost predicate Claims(e: Entries, locked: set<Identity>, start: nat, maximum: nat, slot: nat) {
    Reaches(e, locked, First(start, maximum), maximum, slot) && Reclaimable(e, locked, slot, None, None)
  }

  /** The next search begins behind the slot that was reached, or where this one began. */
  ghost predicate Turned(e: Entries, locked: set<Identity>, start: nat, next: nat, maximum: nat) {
    && (forall slot :: Reaches(e, locked, First(start, maximum), maximum, slot) ==> next == Next(slot, maximum))
    && ((forall slot :: !Reaches(e, locked, First(start, maximum), maximum, slot)) ==>
          next == if maximum == 0 then start else First(start, maximum))
  }

  // Deletion.

  datatype Removal = Removed | Refused | Aborted

  /** There is a slot for the file and nobody else has it locked. */
  ghost predicate Room(e: Entries, locked: set<Identity>, start: nat, name: Name, maximum: nat)
    requires name in e
  {
    e[name].identity !in locked && exists slot :: Claims(e, locked, start, maximum, slot)
  }

  /** When an undisturbed deletion takes the file away from its name. */
  ghost predicate Removable(e: Entries, locked: set<Identity>, start: nat, name: Name, maximum: nat)
    requires name in e
  {
    Room(e, locked, start, name, maximum) && Openable(e[name])
  }

  /**
   What a deletion achieves. Wherever it stops, the file is under its name, in a tombstone or gone. When nothing
   disturbs it, it does nothing without room, and otherwise leaves what `Took` says.
   */
  ghost predicate Deleted(before: Entries, after: Entries, name: Name, locked: set<Identity>, start: nat, next: nat,
                          maximum: nat, calm: bool, r: Removal)
    requires name in before
  {
    var file := before[name];
    && Harmless(before, after, name, maximum)
    && (r.Removed? ==> Strict(file) && name !in after && Gone(after, file.identity))
    && (if file.identity in locked then next == start
        else (!calm && next == start) || Turned(before, locked, start, next, maximum))
    && GuardedKept(before, after, locked) && (file.identity in locked ==> after == before)
    && (calm ==> if Room(before, locked, start, name, maximum) then
                   exists slot :: Claims(before, locked, start, maximum, slot) && Took(before, after, name, slot, r)
                 else r.Refused? && after == before)
  }

  /**
   An undisturbed deletion through a slot. A private file is gone. Any other that can be opened is left emptied in a
   slot that no reclaim frees. One that cannot be opened stays as it is, and only the slot is freed.
   */
  ghost predicate Took(before: Entries, after: Entries, name: Name, slot: nat, r: Removal)
    requires name in before
  {
    if !Openable(before[name]) then r.Refused? && after == Cleared(before, slot)
    else if Strict(before[name]) then r.Removed? && after == Cleared(before, slot) - {name}
    else r.Refused? && Cleared(after, slot) == Cleared(before, slot) - {name} && Emptied(after, before[name], slot)
  }

  /** What a deletion never does, wherever it stops. */
  ghost predicate Harmless(before: Entries, after: Entries, name: Name, maximum: nat)
    requires name in before
  {
    && SlotsSafe(before, after) && VisibleKept(before, after, {name}) && Fate(before, after, name, maximum)
    && Traced(before, after, if Openable(before[name]) then {before[name].identity} else {})
  }

  /** The file is an empty tombstone that no reclaim frees. */
  predicate Emptied(e: Entries, file: File, slot: nat) {
    !Residue(e, slot) && Tombstone(slot) in e && e[Tombstone(slot)] == file.(bytes := [])
  }

  /** The slots below `stop` that can be reclaimed are free, and everything else is as it was. */
  ghost predicate SweptTo(before: Entries, after: Entries, locked: set<Identity>, stop: nat) {
    && VisibleKept(before, after, {})
    && forall slot: nat :: if slot < stop && Reclaimable(before, locked, slot, None, None) then Free(after, slot)
                           else SameSlot(before, after, slot)
  }

  /** `stop` is the first unoccupied slot, or the limit. */
  ghost predicate FirstFree(e: Entries, stop: nat, maximum: nat) {
    stop <= maximum && (stop < maximum ==> Free(e, stop)) && forall slot: nat :: slot < stop ==> !Free(e, slot)
  }

  /** Every slot before `stop` is occupied and can be reclaimed or passed by; the reclaim of `stop` fails. */
  ghost predicate FirstBlocked(e: Entries, locked: set<Identity>, stop: nat, maximum: nat) {
    && stop < maximum && Blocked(e, locked, stop, None, None)
    && forall slot: nat :: slot < stop ==> !Free(e, slot) && !Blocked(e, locked, slot, None, None)
  }

  /** The first slot that is usable once every slot below the first unoccupied one was reclaimed. */
  ghost predicate Opens(e: Entries, locked: set<Identity>, stop: nat, first: nat, maximum: nat) {
    && FirstFree(e, stop, maximum) && (forall slot: nat :: slot < stop ==> !Blocked(e, locked, slot, None, None))
    && first <= stop && (first < stop ==> Reclaimable(e, locked, first, None, None))
    && forall slot: nat :: slot < first ==> !Reclaimable(e, locked, slot, None, None)
  }

  class Directory {
    var entries: Entries
    var locked: set<Identity>
    var nextSlot: nat

    constructor (entries: Entries)
      ensures this.entries == entries && locked == {} && nextSlot == 0
    {
      this.entries, locked, nextSlot := entries, {}, 0;
    }

    /** `reclaim_delete_tombstone_slot_locked`, under the parent lock. */
    method Reclaim(slot: nat, expected: Option<Identity>, active: Option<Identity>, calm: bool) returns (r: Reclaimed)
      modifies this`entries
      ensures calm ==> !r.Interrupted?
      ensures r.Freed? ==>
        Reclaimable(old(entries), locked, slot, expected, active) && entries == Cleared(old(entries), slot)
      ensures r.Kept? || r.Failed? ==>
        !Reclaimable(old(entries), locked, slot, expected, active) && entries == old(entries)
      ensures r.Failed? <==> Blocked(old(entries), locked, slot, expected, active)
      ensures r.Interrupted? ==>
        Reclaimable(old(entries), locked, slot, expected, active) && MidReclaim(old(entries), entries, slot)
    {
      var tombstone, marker := Tombstone(slot), Marker(slot);
      if marker !in entries {
        assert tombstone !in entries ==> entries == Cleared(entries, slot);
        return if tombstone in entries then Kept else Freed;
      }
      if tombstone !in entries {
        if !PartialMarker(entries[marker]) {
          return Kept;
        }
        var stopped := Disturbed(calm);
        if stopped {
          return Interrupted;
        }
        entries := entries - {marker};
        assert entries == Cleared(old(entries), slot);
        return Freed;
      }
      if !Strict(entries[marker]) || |entries[marker].bytes| != MARKER_BYTES {
        return Kept;
      }
      if active.Some? && active.value != entries[marker].identity {
        return Kept;
      }
      if active.None? && entries[marker].identity in locked {
        return Kept;
      }
      var documented := DecodeMarker(entries[marker].bytes);
      if documented.None? || (expected.Some? && expected.value != documented.value) {
        return Kept;
      }
      if Denied(entries[tombstone]) {
        return Failed;
      }
      if !Strict(entries[tombstone]) || entries[tombstone].identity != documented.value {
        return Kept;
      }
      if expected.Some? {
        if |entries[tombstone].bytes| != 0 {
          return Kept;
        }
      } else {
        if entries[tombstone].identity in locked {
          return Kept;
        }
        var stopped := Disturbed(calm);
        if stopped {
          return Interrupted;
        }
        entries := entries[tombstone := entries[tombstone].(bytes := [])];
      }
      var stopped := Disturbed(calm);
      if stopped {
        return Interrupted;
      }
      entries := entries - {tombstone};
      assert entries == old(entries) - {tombstone};
      stopped := Disturbed(calm);
      if stopped {
        return Interrupted;
      }
      entries := entries - {marker};
      assert entries == Cleared(old(entries), slot);
      return Freed;
    }

    /** `claim_delete_tombstone_slot`, by a caller that wins its compare-exchange. */
    method ClaimSlot(maximum: nat) returns (slot: nat)
      requires maximum > 0
      modifies this`nextSlot
      ensures slot == First(old(nextSlot), maximum) && nextSlot == Next(slot, maximum)
    {
      slot := if nextSlot >= maximum then 0 else nextSlot;
      nextSlot := if slot + 1 == maximum then 0 else slot + 1;
    }

    /**
     Create and fill the marker of a free slot, as a new file: its inode is in use nowhere in the directory.
     The umask may leave fewer permissions until they are set.
     */
    method CreateMarker(slot: nat, expected: Identity, calm: bool) returns (complete: bool, identity: Identity)
      requires Free(entries, slot)
      modifies this`entries
      ensures UnusedBy(identity, old(entries))
      ensures complete ==>
        entries == old(entries)[Marker(slot) := CompleteMarker(identity, expected)]
      ensures !complete ==> MidMarker(old(entries), entries, slot, identity)
      ensures calm ==> complete
    {
      ghost var before := entries;
      ghost var unused := UnusedExists(entries);
      identity :| UnusedBy(identity, entries);
      var stopped := Disturbed(calm);
      if stopped {
        return false, identity;
      }
      var marker := Marker(slot);
      var umasked: bool := *;
      entries := entries[marker := File(identity, [], if umasked then Within else Exact, true, true, false)];
      stopped := Disturbed(calm);
      if stopped {
        return false, identity;
      }
      entries := entries[marker := entries[marker].(mode := Exact)];
      var written: nat :| written <= MARKER_BYTES && (calm ==> written == MARKER_BYTES);
      entries := entries[marker := entries[marker].(bytes := EncodeMarker(expected)[..written])];
      assert entries == before[marker := File(identity, EncodeMarker(expected)[..written], Exact, true, true, false)];
      if written < MARKER_BYTES {
        // The creation guard removes the partial marker, unless the process died.
        var removed: bool := *;
        if removed {
          entries := entries - {marker};
          assert entries == before;
        }
        return false, identity;
      }
      assert EncodeMarker(expected)[..written] == EncodeMarker(expected);
      complete := true;
    }

    /**
     `reserve_delete_tombstone_locked`: find a slot, mark it and rename the file into it. Slots are claimed
     round robin, so a slot that can be freed is found whenever there is one before any that makes a reclaim fail.
     */
    method Reserve(name: Name, maximum: nat, calm: bool)
      returns (reserved: Option<nat>, marker: Identity, aborted: bool)
      requires name.Visible? && name in entries
      modifies this`entries, this`nextSlot
      ensures reserved.Some? ==>
        && Openable(old(entries)[name])
        && Claims(old(entries), locked, old(nextSlot), maximum, reserved.value)
        && UnusedBy(marker, Cleared(old(entries), reserved.value))
        && entries == Buried(Cleared(old(entries), reserved.value), name, reserved.value, marker)
      ensures reserved.None? ==>
        exists slot :: MidReserve(old(entries), entries, slot, marker)
                       && (entries == old(entries) || !Guarded(old(entries), locked, slot))
      ensures Turned(old(entries), locked, old(nextSlot), nextSlot, maximum) && (calm ==> !aborted)
      ensures reserved.None? && !aborted ==>
        || (entries == old(entries) && forall slot :: !Claims(old(entries), locked, old(nextSlot), maximum, slot))
        || (!Openable(old(entries)[name])
            && exists slot :: Claims(old(entries), locked, old(nextSlot), maximum, slot)
                              && entries == Cleared(old(entries), slot))
    {
      hide Residue, Matched, Reclaimable, Blocked, Openable, Buried, EncodeMarker, DecodeMarker, MidReserve, Guarded;
      ghost var before, start := entries, First(nextSlot, maximum);
      marker := Identity(0, 0);
      assert MidReserve(before, entries, 0, marker) by { UnmovedIsMid(before, marker); }
      var tried := 0;
      while tried < maximum
        invariant tried <= maximum && entries == before
        invariant 0 < tried ==>
                    nextSlot == if start + tried < maximum then start + tried else start + tried - maximum
        invariant tried == 0 ==> nextSlot == old(nextSlot)
        invariant forall slot: nat :: slot < maximum && Ahead(start, slot, maximum) < tried ==>
                    !Reclaimable(before, locked, slot, None, None) && !Blocked(before, locked, slot, None, None)
      {
        var slot := ClaimSlot(maximum);
        assert Ahead(start, slot, maximum) == tried;
        var freed := Reclaim(slot, None, None, calm);
        SlotFacts(before, before, locked, slot);
        if !freed.Kept? {
          Reached(before, locked, old(nextSlot), maximum, slot);
        }
        ClaimedIsUnguarded(before, locked, slot);
        if freed.Interrupted? {
          assert MidReserve(before, entries, slot, marker) by { MidReclaimIsMid(before, entries, slot, marker); }
          return None, marker, true;
        }
        if freed.Failed? {
          return None, marker, false;
        }
        if freed.Freed? {
          marker, aborted := MarkAndRename(name, slot, calm, before);
          return if name in entries then None else Some(slot), marker, aborted;
        }
        tried := tried + 1;
      }
      return None, marker, false;
    }

    /** The file of `name`, if it can be opened, becomes the tombstone of a freed slot behind a complete marker. */
    method MarkAndRename(name: Name, slot: nat, calm: bool, ghost before: Entries)
      returns (marker: Identity, aborted: bool)
      requires name.Visible? && name in before && Residue(before, slot) && entries == Cleared(before, slot)
      modifies this`entries
      ensures UnusedBy(marker, Cleared(before, slot)) && (calm ==> !aborted)
      ensures name !in entries ==>
        Openable(before[name]) && entries == Buried(Cleared(before, slot), name, slot, marker)
      ensures name in entries ==> MidReserve(before, entries, slot, marker)
      ensures name in entries && !aborted ==> !Openable(before[name]) && entries == Cleared(before, slot)
    {
      hide Residue, EncodeMarker, DecodeMarker, Openable;
      var complete, identity := CreateMarker(slot, entries[name].identity, calm);
      var stopped := Disturbed(calm);
      if !complete || stopped {
        // The process died before the rename.
        assert MidReserve(before, entries, slot, identity);
        return identity, true;
      }
      if !Openable(entries[name]) {
        entries := entries - {Marker(slot)};
        assert entries == Cleared(before, slot);
        return identity, false;
      }
      var unrenamed := Disturbed(calm);
      if unrenamed {
        // The rename failed and the marker was discarded, or not even that.
        var discarded: bool := *;
        if discarded {
          entries := entries - {Marker(slot)};
          assert entries == Cleared(before, slot);
        }
        assert MidReserve(before, entries, slot, identity);
        return identity, true;
      }
      entries := (entries - {name})[Tombstone(slot) := entries[name]];
      assert entries == Buried(Cleared(before, slot), name, slot, identity);
      return identity, false;
    }

    /** `remove_open_file`. */
    method RemoveOpenFile(name: Name, maximum: nat, calm: bool) returns (r: Removal)
      requires name.Visible? && name in entries && Fits64(entries[name].identity)
      requires entries[name].regular ==> OnlyAt(entries, entries[name].identity, name)
      modifies this`entries, this`nextSlot
      ensures Deleted(old(entries), entries, name, locked, old(nextSlot), nextSlot, maximum, calm, r)
    {
      hide Residue, Matched, Strict, Openable, Harmless, Gone, MidReserve, Reclaimable, Blocked, EncodeMarker, Turned,
           Took, Guarded, GuardedKept;
      ghost var before := entries;
      UntouchedIsHarmless(before, name, maximum);
      NothingGuarded(before, locked);
      var file := entries[name];
      var busy := Disturbed(calm);
      if file.identity in locked || busy {
        return Refused;
      }
      var reserved, marker, aborted := Reserve(name, maximum, calm);
      if reserved.None? {
        ghost var slot :| MidReserve(before, entries, slot, marker)
                          && (entries == before || !Guarded(before, locked, slot));
        MidReserveIsHarmless(before, entries, slot, marker, name, maximum);
        MidReserveKeepsGuarded(before, entries, locked, slot, marker);
        Untaken(before, entries, name);
        return if aborted then Aborted else Refused;
      }
      var slot := reserved.value;
      OpenableIsRegular(file);
      assert Residue(before, slot) by { SlotFacts(before, before, locked, slot); }
      BuriedIsHarmless(before, entries, name, slot, marker, file.bytes, maximum);
      ClaimedIsUnguarded(before, locked, slot);
      BuriedElsewhere(before, entries, name, slot, marker, file.bytes);
      OthersKeepGuarded(before, entries, locked, slot);
      var stopped := Disturbed(calm);
      if stopped {
        return Aborted;
      }
      entries := entries[Tombstone(slot) := entries[Tombstone(slot)].(bytes := [])];
      BuriedIsHarmless(before, entries, name, slot, marker, [], maximum);
      BuriedElsewhere(before, entries, name, slot, marker, []);
      OthersKeepGuarded(before, entries, locked, slot);
      stopped := Disturbed(calm);
      if stopped {
        return Aborted;
      }
      busy := Disturbed(calm);
      if busy {
        return Refused;
      }
      ghost var buried := entries;
      OwnReclaim(before, buried, name, slot, marker, locked);
      var freed := Reclaim(slot, Some(file.identity), Some(marker), calm);
      if freed.Kept? || freed.Failed? {
        TookShared(before, entries, name, slot, marker);
        return Refused;
      }
      TookPrivate(before, buried, name, slot, marker);
      UnburiedIsHarmless(before, buried, entries, name, slot, maximum, freed);
      Shrunk(buried, entries, slot, freed);
      StillElsewhere(before, buried, entries, slot);
      OthersKeepGuarded(before, entries, locked, slot);
      return if freed.Freed? then Removed else Aborted;
    }

    /**
     `initial_delete_tombstone_slot`: reclaim from slot zero up to the first unoccupied one, and answer the
     least slot that is usable then.
     */
    method InitialSlot(maximum: nat, calm: bool) returns (first: nat, aborted: bool, ghost stop: nat)
      modifies this`entries
      ensures SlotsSafe(old(entries), entries) && VisibleKept(old(entries), entries, {})
      ensures Traced(old(entries), entries, {}) && GuardedKept(old(entries), entries, locked)
      ensures !aborted ==> Opens(old(entries), locked, stop, first, maximum)
      ensures !aborted ==> SweptTo(old(entries), entries, locked, stop) && (first < maximum ==> Free(entries, first))
      ensures calm && aborted ==>
        FirstBlocked(old(entries), locked, stop, maximum) && SweptTo(old(entries), entries, locked, stop)
    {
      hide Residue, Matched, Reclaimable, Blocked, SweptTo, SlotsSafe, Traced, GuardedKept;
      ghost var before := entries;
      first := maximum;
      NothingSwept(before, locked);
      for slot := 0 to maximum
        invariant SweptTo(before, entries, locked, slot)
        invariant forall k: nat :: k < slot ==> !Free(before, k) && !Blocked(before, locked, k, None, None)
        invariant if first < slot then Reclaimable(before, locked, first, None, None) else first == maximum
        invariant first < maximum ==> Free(entries, first)
        invariant forall k: nat :: k < slot && k < first ==> !Reclaimable(before, locked, k, None, None)
      {
        SweptIsSafe(before, entries, locked, slot);
        SweptKeepsGuarded(before, entries, locked, slot);
        if Free(entries, slot) {
          return if first < maximum then first else slot, false, slot;
        }
        ghost var now := entries;
        var freed := Reclaim(slot, None, None, calm);
        if freed.Interrupted? {
          InterruptedIsSafe(before, now, entries, locked, slot);
          InterruptedKeepsGuarded(before, now, entries, locked, slot);
          return first, true, slot;
        }
        if freed.Failed? {
          return first, true, slot;
        }
        SweepStep(before, now, entries, locked, slot, freed);
        if freed.Freed? && first == maximum {
          first := slot;
        }
      }
      SweptIsSafe(before, entries, locked, maximum);
      SweptKeepsGuarded(before, entries, locked, maximum);
      aborted, stop := false, maximum;
    }

    /** One undisturbed reclaim of every slot. */
    method ReclaimAll(maximum: nat)
      modifies this`entries
      ensures SweptTo(old(entries), entries, locked, maximum)
    {
      hide Residue, Matched, Reclaimable, SweptTo;
      ghost var before := entries;
      NothingSwept(before, locked);
      for slot := 0 to maximum
        invariant SweptTo(before, entries, locked, slot)
      {
        SweptIsSafe(before, entries, locked, slot);
        ghost var now := entries;
        var freed := Reclaim(slot, None, None, true);
        SweepStep(before, now, entries, locked, slot, freed);
      }
    }
  }

  lemma SlotFacts(before: Entries, after: Entries, locked: set<Identity>, slot: nat)
    requires SameSlot(before, after, slot)
    ensures Reclaimable(before, locked, slot, None, None) <==> Reclaimable(after, locked, slot, None, None)
    ensures Residue(before, slot) <==> Residue(after, slot)
    ensures Reclaimable(before, locked, slot, None, None) ==> Residue(before, slot)
    ensures Blocked(before, locked, slot, None, None) <==> Blocked(after, locked, slot, None, None)
    ensures Blocked(before, locked, slot, None, None) ==> !Reclaimable(before, locked, slot, None, None)
  {
    hide DecodeMarker;
  }

  /** A search reaches one slot. */
  lemma Reached(e: Entries, locked: set<Identity>, start: nat, maximum: nat, slot: nat)
    requires Reaches(e, locked, First(start, maximum), maximum, slot)
    ensures Turned(e, locked, start, Next(slot, maximum), maximum)
    ensures Blocked(e, locked, slot, None, None) ==> forall other :: !Claims(e, locked, start, maximum, other)
  {
    hide Reclaimable, Blocked;
    SlotFacts(e, e, locked, slot);
    forall other | Reaches(e, locked, First(start, maximum), maximum, other)
      ensures other == slot
    {
      var first := First(start, maximum);
      assert !(Ahead(first, slot, maximum) < Ahead(first, other, maximum));
      assert !(Ahead(first, other, maximum) < Ahead(first, slot, maximum));
    }
  }

  lemma OpenableIsRegular(file: File)
    requires Openable(file)
    ensures file.regular
  {
  }

  /** A reclaim without a file of its own leaves a guarded slot alone, and a locked marker does not make it fail. */
  lemma ClaimedIsUnguarded(e: Entries, locked: set<Identity>, slot: nat)
    ensures Reclaimable(e, locked, slot, None, None) ==> !Guarded(e, locked, slot)
    ensures Blocked(e, locked, slot, None, None) ==> e[Marker(slot)].identity !in locked
  {
    hide DecodeMarker;
  }

  lemma NothingGuarded(e: Entries, locked: set<Identity>)
    ensures GuardedKept(e, e, locked)
  {
  }

  lemma OthersKeepGuarded(before: Entries, after: Entries, locked: set<Identity>, slot: nat)
    requires !Guarded(before, locked, slot) && forall other: nat :: other != slot ==> SameSlot(before, after, other)
    ensures GuardedKept(before, after, locked)
  {
    hide SameSlot, Guarded;
  }

  lemma StillElsewhere(before: Entries, buried: Entries, after: Entries, slot: nat)
    requires forall other: nat :: other != slot ==> SameSlot(before, buried, other) && SameSlot(buried, after, other)
    ensures forall other: nat :: other != slot ==> SameSlot(before, after, other)
  {
    forall other: nat | other != slot
      ensures SameSlot(before, after, other)
    {
      assert SameSlot(before, buried, other) && SameSlot(buried, after, other);
    }
  }

  lemma SweptKeepsGuarded(before: Entries, after: Entries, locked: set<Identity>, stop: nat)
    requires SweptTo(before, after, locked, stop)
    ensures GuardedKept(before, after, locked)
  {
    hide Reclaimable, Blocked, Guarded;
    forall slot: nat | Guarded(before, locked, slot)
      ensures SameSlot(before, after, slot)
    {
      ClaimedIsUnguarded(before, locked, slot);
    }
  }

  // Reclaiming slot by slot.

  lemma NothingSwept(e: Entries, locked: set<Identity>)
    ensures SweptTo(e, e, locked, 0)
  {
  }

  /** Without locks a reclaim frees exactly the slots that hold residue, and touches no other name. */
  lemma ResidueIsReclaimable(e: Entries, slot: nat)
    ensures Reclaimable(e, {}, slot, None, None) <==> Residue(e, slot)
    ensures Free(Cleared(e, slot), slot)
    ensures forall name :: name != Marker(slot) && name != Tombstone(slot) ==> SameAt(e, Cleared(e, slot), name)
  {
  }

  /** Reclaiming, even interrupted, only frees residue, and removes no visible file. */
  lemma SweptIsSafe(before: Entries, after: Entries, locked: set<Identity>, stop: nat)
    requires SweptTo(before, after, locked, stop)
    ensures SlotsSafe(before, after) && VisibleKept(before, after, {}) && Traced(before, after, {})
    ensures SameSlot(before, after, stop)
    ensures Free(before, stop) <==> Free(after, stop)
    ensures Reclaimable(before, locked, stop, None, None) <==> Reclaimable(after, locked, stop, None, None)
    ensures Blocked(before, locked, stop, None, None) <==> Blocked(after, locked, stop, None, None)
  {
    SlotFacts(before, after, locked, stop);
    forall slot: nat
      ensures if Residue(before, slot) then Residue(after, slot) else SameSlot(before, after, slot)
    {
      if SameSlot(before, after, slot) {
        SlotFacts(before, after, locked, slot);
      }
    }
    hide Matched, Reclaimable, Residue, Blocked;
    forall name | name in after
      ensures name in before && after[name] == before[name]
    {
      match name
      case Visible(_) => assert SameAt(before, after, name);
      case Tombstone(slot) => assert Free(after, slot) || SameSlot(before, after, slot);
      case Marker(slot) => assert Free(after, slot) || SameSlot(before, after, slot);
    }
  }

  lemma SweepStep(before: Entries, now: Entries, after: Entries, locked: set<Identity>, slot: nat, r: Reclaimed)
    requires SweptTo(before, now, locked, slot)
    requires r.Freed? ==> Reclaimable(now, locked, slot, None, None) && after == Cleared(now, slot)
    requires r.Kept? || r.Failed? ==> !Reclaimable(now, locked, slot, None, None) && after == now
    requires !r.Interrupted?
    ensures SweptTo(before, after, locked, slot + 1)
    ensures forall k: nat :: k != slot ==> (Free(now, k) <==> Free(after, k))
    ensures r.Freed? ==> Free(after, slot)
  {
    SweptIsSafe(before, now, locked, slot);
    hide Reclaimable;
    assert forall name :: name != Marker(slot) && name != Tombstone(slot) ==> SameAt(now, after, name);
    forall k: nat
      ensures if k <= slot && Reclaimable(before, locked, k, None, None) then Free(after, k)
              else SameSlot(before, after, k)
    {
      if k != slot {
        assert SameSlot(now, after, k);
        assert if k < slot && Reclaimable(before, locked, k, None, None) then Free(now, k)
               else SameSlot(before, now, k);
      } else {
        assert r.Freed? || r.Kept? || r.Failed?;
      }
    }
  }

  lemma InterruptedIsSafe(before: Entries, now: Entries, after: Entries, locked: set<Identity>, slot: nat)
    requires SweptTo(before, now, locked, slot) && Reclaimable(now, locked, slot, None, None)
    requires MidReclaim(now, after, slot)
    ensures SlotsSafe(before, after) && VisibleKept(before, after, {}) && Traced(before, after, {})
  {
    SweptIsSafe(before, now, locked, slot);
    assert Residue(before, slot) by { SlotFacts(before, now, locked, slot); }
    assert Residue(after, slot);
    hide Residue, Matched, Reclaimable, SweptTo;
    assert forall name :: name != Tombstone(slot) ==> SameAt(now, after, name);
    forall other: nat
      ensures if Residue(before, other) then Residue(after, other) || exists name :: LostTo(before, after, other, name)
              else SameSlot(before, after, other)
    {
      if other != slot {
        SlotFacts(now, after, locked, other);
        forall name | LostTo(before, now, other, name)
          ensures LostTo(before, after, other, name)
        {
        }
      }
    }
  }

  lemma InterruptedKeepsGuarded(before: Entries, now: Entries, after: Entries, locked: set<Identity>, slot: nat)
    requires SweptTo(before, now, locked, slot) && Reclaimable(now, locked, slot, None, None)
    requires MidReclaim(now, after, slot)
    ensures GuardedKept(before, after, locked)
  {
    hide Reclaimable, Blocked;
    SweptIsSafe(before, now, locked, slot);
    forall other: nat | Guarded(before, locked, other)
      ensures SameSlot(before, after, other)
    {
      ClaimedIsUnguarded(before, locked, other);
      assert SameSlot(before, now, other);
      assert other != slot;
    }
  }

  // Where a deletion may stop.

  /** There is always an identity that no file of the directory has. */
  lemma UnusedExists(e: Entries) returns (identity: Identity)
    ensures UnusedBy(identity, e)
  {
    var inodes := set name | name in e :: e[name].identity.inode;
    var bound := UpperBound(inodes);
    identity := Identity(0, bound);
    forall name | name in e
      ensures e[name].identity != identity
    {
      assert e[name].identity.inode in inodes;
    }
  }

  lemma {:induction false} UpperBound(numbers: set<nat>) returns (bound: nat)
    ensures forall n :: n in numbers ==> n < bound
  {
    if numbers == {} {
      return 0;
    }
    var n :| n in numbers;
    var rest := UpperBound(numbers - {n});
    assert forall k :: k in numbers ==> k == n || k in numbers - {n};
    bound := if n < rest then rest else n + 1;
  }

  /** Where marker creation may stop: nothing there, or a marker no larger than a complete one. */
  ghost predicate MidMarker(before: Entries, after: Entries, slot: nat, marker: Identity) {
    || after == before
    || (Marker(slot) in after && PartialMarker(after[Marker(slot)]) && after[Marker(slot)].identity == marker
        && after == before[Marker(slot) := after[Marker(slot)]])
  }

  /** Where a reservation may stop before the rename. */
  ghost predicate MidReserve(before: Entries, after: Entries, slot: nat, marker: Identity) {
    || after == before
    || (Residue(before, slot)
        && (MidReclaim(before, after, slot)
            || (UnusedBy(marker, Cleared(before, slot)) && MidMarker(Cleared(before, slot), after, slot, marker))))
  }

  lemma MidReserveKeepsGuarded(before: Entries, after: Entries, locked: set<Identity>, slot: nat, marker: Identity)
    requires MidReserve(before, after, slot, marker) && (after == before || !Guarded(before, locked, slot))
    ensures GuardedKept(before, after, locked)
  {
    hide Residue, Guarded;
    forall other: nat | Guarded(before, locked, other)
      ensures SameSlot(before, after, other)
    {
      assert after == before || other != slot;
    }
  }

  lemma UnmovedIsMid(before: Entries, marker: Identity)
    ensures MidReserve(before, before, 0, marker)
  {
  }

  lemma MidReclaimIsMid(before: Entries, after: Entries, slot: nat, marker: Identity)
    requires Residue(before, slot) && MidReclaim(before, after, slot)
    ensures MidReserve(before, after, slot, marker)
  {
  }

  lemma Untaken(before: Entries, after: Entries, name: Name)
    requires name in before
    ensures !Openable(before[name]) ==>
              forall slot :: after == Cleared(before, slot) ==> Took(before, after, name, slot, Refused)
  {
  }

  lemma TookShared(before: Entries, after: Entries, name: Name, slot: nat, marker: Identity)
    requires name.Visible? && name in before && Openable(before[name]) && !Strict(before[name]) && !Residue(after, slot)
    requires after == Buried(Cleared(before, slot), name, slot, marker)[
                        Tombstone(slot) := before[name].(bytes := [])]
    ensures Took(before, after, name, slot, Refused)
  {
    hide Residue, Openable, Strict;
  }

  lemma TookPrivate(before: Entries, buried: Entries, name: Name, slot: nat, marker: Identity)
    requires name.Visible? && name in before && Strict(before[name])
    requires buried == Buried(Cleared(before, slot), name, slot, marker)[
                         Tombstone(slot) := before[name].(bytes := [])]
    ensures Took(before, Cleared(buried, slot), name, slot, Removed)
  {
    hide EncodeMarker;
  }

  lemma UntouchedIsHarmless(before: Entries, name: Name, maximum: nat)
    requires name in before && (before[name].regular ==> OnlyAt(before, before[name].identity, name))
    ensures Harmless(before, before, name, maximum)
  {
  }

  lemma MidReserveIsHarmless(before: Entries, after: Entries, slot: nat, marker: Identity, name: Name, maximum: nat)
    requires MidReserve(before, after, slot, marker) && name.Visible? && name in before
    requires before[name].regular ==> OnlyAt(before, before[name].identity, name)
    ensures Harmless(before, after, name, maximum)
  {
    forall other: nat
      ensures if Residue(before, other) then Residue(after, other) else SameSlot(before, after, other)
    {
      if other != slot {
        assert SameSlot(before, after, other);
      }
    }
    assert Intact(before, after, name);
  }

  /** The file in its tombstone, with its bytes or already emptied. */
  lemma BuriedIsHarmless(before: Entries, after: Entries, name: Name, slot: nat, marker: Identity, bytes: Bytes,
                         maximum: nat)
    requires name.Visible? && name in before && Fits64(before[name].identity) && Residue(before, slot)
    requires Openable(before[name])
    requires OnlyAt(before, before[name].identity, name) && UnusedBy(marker, Cleared(before, slot)) && slot < maximum
    requires bytes == before[name].bytes || bytes == []
    requires after == Buried(Cleared(before, slot), name, slot, marker)[
                        Tombstone(slot) := before[name].(bytes := bytes)]
    ensures Harmless(before, after, name, maximum) && Held(before, after, name, slot)
    ensures after[Tombstone(slot)] == before[name].(bytes := bytes)
    ensures Marker(slot) in after && after[Marker(slot)].identity == marker
  {
    hide Residue, Matched, Strict, Openable, EncodeMarker, DecodeMarker, SlotsSafe, Traced, Held, VisibleKept, OnlyAt,
         UnusedBy, SameSlot;
    BuriedIsHeld(before, after, name, slot, marker, bytes);
    BuriedElsewhere(before, after, name, slot, marker, bytes);
    BuriedKeepsSlots(before, after, name, slot);
    BuriedIsTraced(before, after, name, slot, marker, bytes);
  }

  lemma BuriedElsewhere(before: Entries, after: Entries, name: Name, slot: nat, marker: Identity, bytes: Bytes)
    requires name.Visible? && name in before
    requires after == Buried(Cleared(before, slot), name, slot, marker)[
                        Tombstone(slot) := before[name].(bytes := bytes)]
    ensures forall other: nat :: other != slot ==> SameSlot(before, after, other)
  {
    hide EncodeMarker;
  }

  lemma BuriedKeepsSlots(before: Entries, after: Entries, name: Name, slot: nat)
    requires name.Visible? && name in before && Residue(before, slot) && Held(before, after, name, slot)
    requires forall other: nat :: other != slot ==> SameSlot(before, after, other)
    requires Strict(before[name]) ==> Residue(after, slot)
    ensures SlotsSafe(before, after)
  {
    hide Residue, Matched, Strict, Openable;
    forall other: nat
      ensures if Residue(before, other) then Residue(after, other) || exists lost :: LostTo(before, after, other, lost)
              else SameSlot(before, after, other)
    {
      if other != slot {
        SlotFacts(before, after, {}, other);
      } else if !Strict(before[name]) {
        assert LostTo(before, after, slot, name);
      }
    }
  }

  lemma BuriedIsHeld(before: Entries, after: Entries, name: Name, slot: nat, marker: Identity, bytes: Bytes)
    requires name.Visible? && name in before && Fits64(before[name].identity) && Openable(before[name])
    requires OnlyAt(before, before[name].identity, name) && UnusedBy(marker, Cleared(before, slot))
    requires bytes == before[name].bytes || bytes == []
    requires after == Buried(Cleared(before, slot), name, slot, marker)[
                        Tombstone(slot) := before[name].(bytes := bytes)]
    ensures Held(before, after, name, slot) && (Strict(before[name]) ==> Residue(after, slot))
  {
    hide EncodeMarker, DecodeMarker;
    EncodedMarker(before[name].identity);
    assert name in Cleared(before, slot);
  }

  lemma BuriedIsTraced(before: Entries, after: Entries, name: Name, slot: nat, marker: Identity, bytes: Bytes)
    requires name.Visible? && name in before && UnusedBy(marker, Cleared(before, slot))
    requires after == Buried(Cleared(before, slot), name, slot, marker)[
                        Tombstone(slot) := before[name].(bytes := bytes)]
    ensures VisibleKept(before, after, {name}) && Traced(before, after, {before[name].identity})
  {
    hide EncodeMarker;
    assert name in Cleared(before, slot);
    assert OnlyAt(after, marker, Marker(slot)) by {
      forall other | other in after && other != Marker(slot) && other != Tombstone(slot)
        ensures after[other].identity != marker
      {
        assert other in Cleared(before, slot);
      }
    }
  }

  /** The deletion's own reclaim of the emptied tombstone succeeds exactly for a private file. */
  lemma OwnReclaim(before: Entries, buried: Entries, name: Name, slot: nat, marker: Identity, locked: set<Identity>)
    requires name in before && Held(before, buried, name, slot)
    requires buried[Tombstone(slot)] == before[name].(bytes := [])
    requires Marker(slot) in buried && buried[Marker(slot)].identity == marker
    ensures Reclaimable(buried, locked, slot, Some(before[name].identity), Some(marker)) <==> Strict(before[name])
    ensures !Blocked(buried, locked, slot, Some(before[name].identity), Some(marker))
    ensures Strict(before[name]) ==> Matched(buried, slot)
    ensures !Strict(before[name]) ==> !Residue(buried, slot)
  {
  }

  lemma UnburiedKeepsSlots(before: Entries, buried: Entries, after: Entries, slot: nat)
    requires SlotsSafe(before, buried) && Residue(before, slot) && Residue(after, slot)
    requires forall other: nat :: other != slot ==> SameSlot(buried, after, other)
    ensures SlotsSafe(before, after)
  {
    hide Residue, Openable, Strict;
    forall other: nat
      ensures if Residue(before, other) then Residue(after, other) || exists lost :: LostTo(before, after, other, lost)
              else SameSlot(before, after, other)
    {
      if other != slot {
        SlotFacts(buried, after, {}, other);
        forall lost | LostTo(before, buried, other, lost)
          ensures LostTo(before, after, other, lost)
        {
        }
      }
    }
  }

  lemma UnburiedIsHarmless(before: Entries, buried: Entries, after: Entries, name: Name, slot: nat, maximum: nat,
                           r: Reclaimed)
    requires name.Visible? && name in before && Harmless(before, buried, name, maximum) && Residue(before, slot)
    requires Held(before, buried, name, slot) && slot < maximum && Matched(buried, slot) && name !in buried
    requires r.Freed? ==> after == Cleared(buried, slot)
    requires r.Interrupted? ==> MidReclaim(buried, after, slot)
    requires !r.Kept? && !r.Failed?
    ensures Harmless(before, after, name, maximum) && name !in after
    ensures r.Freed? ==> Gone(after, before[name].identity)
  {
    hide SlotsSafe, Residue, Openable, Strict, Matched, Traced, VisibleKept, Cleared, MidReclaim, OnlyAt;
    var moved := if Openable(before[name]) then {before[name].identity} else {};
    Shrunk(buried, after, slot, r);
    UnburiedKeepsSlots(before, buried, after, slot);
    ShrinkingIsTraced(before, buried, after, moved);
    HeldOrGone(before, buried, after, name, slot);
    assert VisibleKept(before, after, {name}) by { VisibleStays(before, buried, after, {name}); }
  }

  /** The emptied tombstones and the removed names aside, `after` is `before`. */
  ghost predicate Shrinks(before: Entries, after: Entries) {
    && (forall name :: name in after ==>
          name in before && (after[name] == before[name] || (name.Tombstone? && OrEmptied(before[name], after[name]))))
    && VisibleKept(before, after, {})
  }

  lemma Shrunk(buried: Entries, after: Entries, slot: nat, r: Reclaimed)
    requires Matched(buried, slot) && !r.Kept? && !r.Failed?
    requires r.Freed? ==> after == Cleared(buried, slot)
    requires r.Interrupted? ==> MidReclaim(buried, after, slot)
    ensures Shrinks(buried, after) && Residue(after, slot)
    ensures forall other: nat :: other != slot ==> SameSlot(buried, after, other)
    ensures Tombstone(slot) in after ==> Matched(after, slot)
    ensures r.Freed? ==> Tombstone(slot) !in after
  {
  }

  lemma ShrinkingIsTraced(before: Entries, buried: Entries, after: Entries, moved: set<Identity>)
    requires Traced(before, buried, moved) && Shrinks(buried, after)
    ensures Traced(before, after, moved)
  {
  }

  lemma VisibleStays(before: Entries, buried: Entries, after: Entries, except: set<Name>)
    requires VisibleKept(before, buried, except) && Shrinks(buried, after)
    ensures VisibleKept(before, after, except)
  {
  }

  lemma HeldOrGone(before: Entries, buried: Entries, after: Entries, name: Name, slot: nat)
    requires name.Visible? && name in before && name !in buried && Held(before, buried, name, slot)
    requires Matched(buried, slot) && Shrinks(buried, after) && (Tombstone(slot) in after ==> Matched(after, slot))
    ensures name !in after && Strict(before[name])
    ensures if Tombstone(slot) in after then Held(before, after, name, slot) else Gone(after, before[name].identity)
  {
    assert Strict(before[name]);
    hide Matched, Openable, Strict;
  }

  // Whole runs.

  datatype Operation =
    | Create(name: Name, file: File)
    | Delete(name: Name, calm: bool)
    | Reopen(calm: bool)
    | Lock(identity: Identity)
    | Unlock(identity: Identity)

  datatype Moment = Moment(entries: Entries, nextSlot: nat)

  /** The files locked by other handles after `operations`. */
  function Locked(operations: seq<Operation>): set<Identity> {
    if operations == [] then {}
    else
      var before := Locked(operations[..|operations| - 1]);
      match operations[|operations| - 1]
      case Lock(identity) => before + {identity}
      case Unlock(identity) => before - {identity}
      case _ => before
  }

  /** A new file: its name is free, and no file of the directory has its inode at this moment. */
  predicate Creates(e: Entries, name: Name, file: File) {
    name.Visible? && name !in e && Fits64(file.identity) && UnusedBy(file.identity, e)
  }

  /** Identities of visible files are two 64-bit words, and a file with one link has one name. */
  ghost predicate Ordinary(e: Entries) {
    forall name: Name :: name.Visible? && name in e ==>
      Fits64(e[name].identity) && (e[name].regular ==> OnlyAt(e, e[name].identity, name))
  }

  /** Slots are only freed or left as residue, and visible files are untouched. */
  ghost predicate Quiet(before: Entries, after: Entries) {
    SlotsSafe(before, after) && VisibleKept(before, after, {}) && Traced(before, after, {})
  }

  ghost predicate Reopened(before: Moment, after: Moment, locked: set<Identity>, maximum: nat, stop: nat) {
    && SweptTo(before.entries, after.entries, locked, stop)
    && if FirstBlocked(before.entries, locked, stop, maximum) then after.nextSlot == before.nextSlot
       else Opens(before.entries, locked, stop, after.nextSlot, maximum)
  }

  /** What one operation does; `answer` is that of a deletion. */
  ghost predicate Step(before: Moment, after: Moment, operation: Operation, answer: Option<Removal>,
                       locked: set<Identity>, maximum: nat)
  {
    match operation
    case Create(name, file) =>
      after == if Creates(before.entries, name, file) then before.(entries := before.entries[name := file]) else before
    case Delete(name, calm) =>
      if name in before.entries then
        answer.Some? && Deleted(before.entries, after.entries, name, locked, before.nextSlot, after.nextSlot, maximum,
                                calm, answer.value)
      else answer == Some(Refused) && after == before
    case Reopen(calm) =>
      && Quiet(before.entries, after.entries) && GuardedKept(before.entries, after.entries, locked)
      && (calm ==> exists stop :: Reopened(before, after, locked, maximum, stop))
    case _ => after == before
  }

  ghost predicate Run(trace: seq<Moment>, operations: seq<Operation>, answers: seq<Option<Removal>>, maximum: nat) {
    && |trace| == |operations| + 1 && |answers| == |operations|
    && forall n :: 0 <= n < |operations| ==>
         Step(trace[n], trace[n + 1], operations[n], answers[n], Locked(operations[..n]), maximum)
  }

  ghost predicate Kept(origin: Entries, e: Entries, name: Name, maximum: nat)
    requires name in origin
  {
    Intact(origin, e, name) || exists slot: nat :: slot < maximum && Held(origin, e, name, slot)
  }

  ghost predicate GoneSince(trace: seq<Moment>, m: nat, n: nat, identity: Identity)
    requires n < |trace|
  {
    exists k :: m < k <= n && Gone(trace[k].entries, identity)
  }

  /** The slot holds a file that was visible and not private at some moment from `m` to `n`. */
  ghost predicate LostSince(trace: seq<Moment>, m: nat, n: nat, slot: nat)
    requires n < |trace|
  {
    exists k, name :: m <= k <= n && LostTo(trace[k].entries, trace[n].entries, slot, name)
  }

  /** A file visible at moment `n` was there at moment `m` or created since. */
  ghost predicate Sourced(trace: seq<Moment>, operations: seq<Operation>, m: nat, n: nat, name: Name)
    requires m <= n < |trace| == |operations| + 1 && name in trace[n].entries
  {
    || SameAt(trace[m].entries, trace[n].entries, name)
    || exists k :: m <= k < n && operations[k] == Create(name, trace[n].entries[name])
  }

  ghost predicate NeverDeleted(name: Name, operations: seq<Operation>, m: nat, n: nat)
    requires n <= |operations|
  {
    forall k :: m <= k < n && operations[k].Delete? ==> operations[k].name != name
  }

  /**
   From moment `m` to moment `n`: every visible file is still intact or in a tombstone, or was private and gone at some
   moment; it is intact unless it was deleted; and no slot was lost but to a file that is not private.
   */
  ghost predicate Accounted(trace: seq<Moment>, operations: seq<Operation>, m: nat, n: nat, maximum: nat)
    requires m <= n < |trace| == |operations| + 1
  {
    && (forall name: Name :: name.Visible? && name in trace[m].entries ==>
          Tracked(trace, operations, m, n, name, maximum))
    && (forall name: Name :: name.Visible? && name in trace[n].entries ==> Sourced(trace, operations, m, n, name))
    && (forall slot :: SlotSafe(trace, m, n, slot))
  }

  ghost predicate Tracked(trace: seq<Moment>, operations: seq<Operation>, m: nat, n: nat, name: Name, maximum: nat)
    requires m <= n < |trace| == |operations| + 1 && name in trace[m].entries
  {
    var origin := trace[m].entries;
    && (|| Kept(origin, trace[n].entries, name, maximum)
        || (Strict(origin[name]) && GoneSince(trace, m, n, origin[name].identity)))
    && (NeverDeleted(name, operations, m, n) ==> Intact(origin, trace[n].entries, name))
  }

  ghost predicate SlotSafe(trace: seq<Moment>, m: nat, n: nat, slot: nat)
    requires m < |trace| && n < |trace|
  {
    if Residue(trace[m].entries, slot) then Residue(trace[n].entries, slot) || LostSince(trace, m, n, slot)
    else SameSlot(trace[m].entries, trace[n].entries, slot)
  }

  /** Once the locks are gone and every slot was reclaimed once: intact, gone at some moment, or stuck in a slot. */
  ghost predicate Settled(trace: seq<Moment>, m: nat, reclaimed: Entries, name: Name, maximum: nat)
    requires m < |trace| && name in trace[m].entries
  {
    var origin := trace[m].entries;
    || Intact(origin, reclaimed, name)
    || (if Strict(origin[name]) then
          GoneSince(trace, m, |trace| - 1, origin[name].identity) || Gone(reclaimed, origin[name].identity)
        else exists slot: nat :: slot < maximum && Held(origin, reclaimed, name, slot) && !Residue(reclaimed, slot))
  }

  // One step.

  /** A step that neither touches the name nor moves the file leaves the file intact. */
  lemma IntactKept(origin: Entries, before: Entries, after: Entries, name: Name, moved: set<Identity>)
    requires name.Visible? && Intact(origin, before, name) && SameAt(before, after, name)
    requires Traced(before, after, moved) && origin[name].identity !in moved
    ensures Intact(origin, after, name)
  {
  }

  lemma HeldKept(origin: Entries, before: Entries, after: Entries, name: Name, slot: nat, moved: set<Identity>)
    requires name in origin && Held(origin, before, name, slot)
    requires Traced(before, after, moved) && SlotsSafe(before, after) && origin[name].identity !in moved
    ensures Held(origin, after, name, slot) || (Strict(origin[name]) && Gone(after, origin[name].identity))
  {
    if !Strict(origin[name]) {
      assert !Residue(before, slot);
      assert SameSlot(before, after, slot);
    } else {
      assert Residue(before, slot);
    }
  }

  lemma QuietKeeps(origin: Entries, before: Entries, after: Entries, name: Name, maximum: nat)
    requires name.Visible? && name in origin && Kept(origin, before, name, maximum) && Quiet(before, after)
    ensures Kept(origin, after, name, maximum) || (Strict(origin[name]) && Gone(after, origin[name].identity))
    ensures Intact(origin, before, name) ==> Intact(origin, after, name)
  {
    hide SlotsSafe, Traced, Held, Gone, Intact, Strict;
    if Intact(origin, before, name) {
      assert SameAt(before, after, name);
      IntactKept(origin, before, after, name, {});
    } else {
      var slot: nat :| slot < maximum && Held(origin, before, name, slot);
      HeldKept(origin, before, after, name, slot, {});
    }
  }

  lemma CreateKeeps(origin: Entries, before: Entries, name: Name, created: Name, file: File, maximum: nat)
    requires name.Visible? && name in origin && Kept(origin, before, name, maximum) && Creates(before, created, file)
    ensures Kept(origin, before[created := file], name, maximum)
    ensures Intact(origin, before, name) ==> Intact(origin, before[created := file], name)
  {
    hide Matched, Openable, Strict;
    if !Intact(origin, before, name) {
      var slot: nat :| slot < maximum && Held(origin, before, name, slot);
      VisibleIsNoSlot(before, created, file, slot);
      assert Held(origin, before[created := file], name, slot);
    }
  }

  lemma VisibleIsNoSlot(before: Entries, created: Name, file: File, slot: nat)
    requires created.Visible?
    ensures Matched(before, slot) ==> Matched(before[created := file], slot)
    ensures SameSlot(before, before[created := file], slot)
    ensures Residue(before, slot) <==> Residue(before[created := file], slot)
  {
    hide DecodeMarker;
  }

  lemma DeleteKeeps(origin: Entries, before: Entries, after: Entries, name: Name, deleted: Name, maximum: nat)
    requires name.Visible? && name in origin && Kept(origin, before, name, maximum) && Ordinary(before)
    requires deleted.Visible? && deleted in before && Harmless(before, after, deleted, maximum)
    ensures Kept(origin, after, name, maximum) || (Strict(origin[name]) && Gone(after, origin[name].identity))
    ensures Intact(origin, before, name) && name != deleted ==> Intact(origin, after, name)
  {
    hide SlotsSafe, Traced, Gone, Matched, Strict, Openable;
    var moved := if Openable(before[deleted]) then {before[deleted].identity} else {};
    if Openable(before[deleted]) {
      OpenableIsRegular(before[deleted]);
    }
    if Intact(origin, before, name) {
      if name == deleted {
        SameFate(origin, before, after, name, maximum);
      } else {
        assert SameAt(before, after, name);
        IntactKept(origin, before, after, name, moved);
      }
    } else {
      var slot: nat :| slot < maximum && Held(origin, before, name, slot);
      HeldKept(origin, before, after, name, slot, moved);
    }
  }

  lemma SameFate(origin: Entries, before: Entries, after: Entries, name: Name, maximum: nat)
    requires name in origin && name in before && before[name] == origin[name] && Fate(before, after, name, maximum)
    ensures Fate(origin, after, name, maximum)
  {
    hide Gone, Matched, Strict, Openable;
    if slot: nat :| slot < maximum && Held(before, after, name, slot) {
      assert Held(origin, after, name, slot);
    }
  }

  lemma StepKeeps(origin: Entries, before: Moment, after: Moment, operation: Operation, answer: Option<Removal>,
                  locked: set<Identity>, maximum: nat, name: Name)
    requires Ordinary(before.entries) && (operation.Delete? ==> operation.name.Visible?)
    requires Step(before, after, operation, answer, locked, maximum)
    requires name.Visible? && name in origin && Kept(origin, before.entries, name, maximum)
    ensures || Kept(origin, after.entries, name, maximum)
            || (Strict(origin[name]) && Gone(after.entries, origin[name].identity))
    ensures Intact(origin, before.entries, name) && !(operation.Delete? && operation.name == name) ==>
              Intact(origin, after.entries, name)
  {
    hide Quiet, Kept, Strict, Gone, Intact, Harmless, Ordinary, Reopened, Took, Turned, Room, Claims, Creates;
    match operation
    case Create(created, file) =>
      if Creates(before.entries, created, file) {
        CreateKeeps(origin, before.entries, name, created, file, maximum);
      }
    case Delete(deleted, calm) =>
      if deleted in before.entries {
        DeleteKeeps(origin, before.entries, after.entries, name, deleted, maximum);
      }
    case Reopen(_) => QuietKeeps(origin, before.entries, after.entries, name, maximum);
    case _ =>
  }

  /** A file is visible after a step because it was before, or because the step created it. */
  lemma StepSources(before: Moment, after: Moment, operation: Operation, answer: Option<Removal>, locked: set<Identity>,
                    maximum: nat, name: Name)
    requires Step(before, after, operation, answer, locked, maximum) && name.Visible? && name in after.entries
    ensures SameAt(before.entries, after.entries, name) || operation == Create(name, after.entries[name])
  {
    hide SlotsSafe, Traced, Strict, Gone, Reopened, Took, Turned, Room, Claims;
    if operation.Delete? && operation.name in before.entries {
      assert name == operation.name ==> Fate(before.entries, after.entries, name, maximum);
    }
  }

  lemma StepKeepsSlots(before: Moment, after: Moment, operation: Operation, answer: Option<Removal>,
                       locked: set<Identity>, maximum: nat)
    requires Step(before, after, operation, answer, locked, maximum)
    ensures SlotsSafe(before.entries, after.entries)
  {
    hide Residue, Traced, Strict, Gone, Reopened, Took, Turned, Room, Claims, Fate, VisibleKept;
    if operation.Create? && Creates(before.entries, operation.name, operation.file) {
      forall slot: nat
        ensures Residue(before.entries, slot) ==> Residue(after.entries, slot)
        ensures SameSlot(before.entries, after.entries, slot)
      {
        VisibleIsNoSlot(before.entries, operation.name, operation.file, slot);
      }
    }
  }

  lemma StaysOrdinary(before: Moment, after: Moment, operation: Operation, answer: Option<Removal>,
                      locked: set<Identity>, maximum: nat)
    requires Ordinary(before.entries) && (operation.Delete? ==> operation.name.Visible?)
    requires Step(before, after, operation, answer, locked, maximum)
    ensures Ordinary(after.entries)
  {
    hide Step, Held;
    forall name: Name | name.Visible? && name in after.entries
      ensures Fits64(after.entries[name].identity)
      ensures after.entries[name].regular ==> OnlyAt(after.entries, after.entries[name].identity, name)
    {
      StepSources(before, after, operation, answer, locked, maximum, name);
      if name in before.entries {
        StayedIsIntact(before, after, operation, answer, locked, maximum, name);
      } else {
        CreatedIsOrdinary(before, after, operation, answer, locked, maximum);
      }
    }
  }

  lemma StayedIsIntact(before: Moment, after: Moment, operation: Operation, answer: Option<Removal>,
                       locked: set<Identity>, maximum: nat, name: Name)
    requires Ordinary(before.entries) && (operation.Delete? ==> operation.name.Visible?)
    requires Step(before, after, operation, answer, locked, maximum)
    requires name.Visible? && name in before.entries && name in after.entries
    ensures Intact(before.entries, after.entries, name)
  {
    hide SlotsSafe, Traced, Strict, Gone, Reopened, Took, Turned, Room, Claims, Held;
    assert Intact(before.entries, before.entries, name);
    StepKeeps(before.entries, before, after, operation, answer, locked, maximum, name);
    if operation.Delete? && operation.name == name {
      assert Fate(before.entries, after.entries, name, maximum);
    }
  }

  lemma CreatedIsOrdinary(before: Moment, after: Moment, operation: Operation, answer: Option<Removal>,
                          locked: set<Identity>, maximum: nat)
    requires Step(before, after, operation, answer, locked, maximum) && operation.Create?
    requires operation.name in after.entries && operation.name !in before.entries
    ensures Fits64(after.entries[operation.name].identity)
    ensures OnlyAt(after.entries, after.entries[operation.name].identity, operation.name)
  {
    assert Creates(before.entries, operation.name, operation.file);
  }

  /** No step touches a guarded slot, and a file that another handle has locked is not deleted. */
  ghost predicate RespectsLocks(before: Entries, after: Entries, operation: Operation, locked: set<Identity>) {
    && GuardedKept(before, after, locked)
    && (operation.Delete? && operation.name in before && before[operation.name].identity in locked ==> after == before)
  }

  lemma StepRespectsLocks(before: Moment, after: Moment, operation: Operation, answer: Option<Removal>,
                          locked: set<Identity>, maximum: nat)
    requires Step(before, after, operation, answer, locked, maximum)
    ensures RespectsLocks(before.entries, after.entries, operation, locked)
  {
    hide Harmless, Took, Turned, Room, Quiet, Reopened, Guarded;
    if operation.Create? {
      forall slot: nat
        ensures SameSlot(before.entries, after.entries, slot)
      {
        if Creates(before.entries, operation.name, operation.file) {
          VisibleIsNoSlot(before.entries, operation.name, operation.file, slot);
        }
      }
    }
  }

  // Many steps.

  ghost predicate WellRun(trace: seq<Moment>, operations: seq<Operation>, answers: seq<Option<Removal>>, maximum: nat) {
    && |trace| == |operations| + 1 && Run(trace, operations, answers, maximum)
    && (forall o :: o in operations && o.Delete? ==> o.name.Visible?)
    && forall moment :: moment in trace ==> Ordinary(moment.entries)
  }

  lemma {:induction false} RunIsAccounted(trace: seq<Moment>, operations: seq<Operation>, answers: seq<Option<Removal>>,
                                          m: nat, n: nat, maximum: nat)
    requires WellRun(trace, operations, answers, maximum) && m <= n <= |operations|
    ensures Accounted(trace, operations, m, n, maximum)
    decreases n - m
  {
    hide Run, Ordinary, Accounted;
    if m == n {
      assert trace[m] in trace;
      StartsAccounted(trace, operations, m, maximum);
    } else {
      RunIsAccounted(trace, operations, answers, m, n - 1, maximum);
      AccountedExtends(trace, operations, answers, m, n - 1, maximum);
    }
  }

  lemma StartsAccounted(trace: seq<Moment>, operations: seq<Operation>, m: nat, maximum: nat)
    requires m < |trace| == |operations| + 1 && Ordinary(trace[m].entries)
    ensures Accounted(trace, operations, m, m, maximum)
  {
    hide Residue, Held, Gone;
  }

  lemma AccountedExtends(trace: seq<Moment>, operations: seq<Operation>, answers: seq<Option<Removal>>, m: nat, n: nat,
                         maximum: nat)
    requires WellRun(trace, operations, answers, maximum) && m <= n < |operations|
    requires Accounted(trace, operations, m, n, maximum)
    ensures Accounted(trace, operations, m, n + 1, maximum)
  {
    hide Step, Ordinary, Tracked, Sourced, SlotSafe, SlotsSafe;
    var before, after, locked := trace[n], trace[n + 1], Locked(operations[..n]);
    assert Step(before, after, operations[n], answers[n], locked, maximum);
    forall name: Name | name.Visible? && name in trace[m].entries
      ensures Tracked(trace, operations, m, n + 1, name, maximum)
    {
      TrackedExtends(trace, operations, answers, m, n, name, maximum);
    }
    forall name: Name | name.Visible? && name in after.entries
      ensures Sourced(trace, operations, m, n + 1, name)
    {
      SourcedExtends(trace, operations, answers, m, n, name, maximum);
    }
    StepKeepsSlots(before, after, operations[n], answers[n], locked, maximum);
    var next := n + 1;
    forall slot
      ensures SlotSafe(trace, m, next, slot)
    {
      SlotSafeExtends(trace, m, n, slot);
    }
  }

  lemma TrackedExtends(trace: seq<Moment>, operations: seq<Operation>, answers: seq<Option<Removal>>, m: nat, n: nat,
                       name: Name, maximum: nat)
    requires WellRun(trace, operations, answers, maximum) && m <= n < |operations|
    requires name.Visible? && name in trace[m].entries && Tracked(trace, operations, m, n, name, maximum)
    ensures Tracked(trace, operations, m, n + 1, name, maximum)
  {
    hide Step, Ordinary, Kept, Intact, Gone, Strict;
    var origin, locked := trace[m].entries, Locked(operations[..n]);
    assert operations[n] in operations && trace[n] in trace;
    assert NeverDeleted(name, operations, m, n + 1) ==> NeverDeleted(name, operations, m, n);
    if Kept(origin, trace[n].entries, name, maximum) {
      StepKeeps(origin, trace[n], trace[n + 1], operations[n], answers[n], locked, maximum, name);
    } else {
      IntactIsKept(origin, trace[n].entries, name, maximum);
      var k :| m < k <= n && Gone(trace[k].entries, origin[name].identity);
      assert GoneSince(trace, m, n + 1, origin[name].identity);
    }
  }

  lemma IntactIsKept(origin: Entries, e: Entries, name: Name, maximum: nat)
    requires name in origin
    ensures Intact(origin, e, name) ==> Kept(origin, e, name, maximum)
  {
  }

  lemma SourcedExtends(trace: seq<Moment>, operations: seq<Operation>, answers: seq<Option<Removal>>, m: nat, n: nat,
                       name: Name, maximum: nat)
    requires WellRun(trace, operations, answers, maximum) && m <= n < |operations|
    requires name.Visible? && name in trace[n + 1].entries
    requires name in trace[n].entries ==> Sourced(trace, operations, m, n, name)
    ensures Sourced(trace, operations, m, n + 1, name)
  {
    hide Step, Ordinary;
    StepSources(trace[n], trace[n + 1], operations[n], answers[n], Locked(operations[..n]), maximum, name);
  }

  lemma SlotSafeExtends(trace: seq<Moment>, m: nat, n: nat, slot: nat)
    requires m <= n < |trace| - 1 && SlotSafe(trace, m, n, slot) && SlotsSafe(trace[n].entries, trace[n + 1].entries)
    ensures SlotSafe(trace, m, n + 1, slot)
  {
    hide Residue, Strict, Openable;
    var origin, before, after := trace[m].entries, trace[n].entries, trace[n + 1].entries;
    if !Residue(origin, slot) {
      SlotFacts(origin, before, {}, slot);
    } else if !Residue(before, slot) {
      assert SameSlot(before, after, slot);
      var k, name :| m <= k <= n && LostTo(trace[k].entries, before, slot, name);
      assert LostTo(trace[k].entries, after, slot, name);
    } else if !Residue(after, slot) {
      var name :| LostTo(before, after, slot, name);
    }
  }

  /**
   A tombstone stays as it is, with its marker, as long as another handle keeps the tombstone or the marker locked.
   */
  lemma {:induction false} LockedSlotStays(trace: seq<Moment>, operations: seq<Operation>,
                                           answers: seq<Option<Removal>>, m: nat, n: nat, maximum: nat, slot: nat,
                                           identity: Identity)
    requires Run(trace, operations, answers, maximum) && m <= n <= |operations|
    requires Guarded(trace[m].entries, {identity}, slot)
    requires forall k :: m <= k < n ==> identity in Locked(operations[..k])
    ensures SameSlot(trace[m].entries, trace[n].entries, slot)
    decreases n - m
  {
    hide Step, Locked;
    if m < n {
      LockedSlotStays(trace, operations, answers, m, n - 1, maximum, slot, identity);
      StepRespectsLocks(trace[n - 1], trace[n], operations[n - 1], answers[n - 1], Locked(operations[..n - 1]),
                        maximum);
      assert Guarded(trace[n - 1].entries, Locked(operations[..n - 1]), slot);
    }
  }

  /** Reclaiming every slot once, with no locks, decides the fate of every private file. */
  lemma ReclaimSettles(trace: seq<Moment>, operations: seq<Operation>, m: nat, reclaimed: Entries, name: Name,
                       maximum: nat)
    requires m < |trace| == |operations| + 1 && name.Visible? && name in trace[m].entries
    requires Tracked(trace, operations, m, |operations|, name, maximum)
    requires Quiet(trace[|operations|].entries, reclaimed) && Unclaimed(reclaimed, maximum)
    ensures Settled(trace, m, reclaimed, name, maximum)
    ensures NeverDeleted(name, operations, m, |operations|) ==> Intact(trace[m].entries, reclaimed, name)
  {
    var origin, last := trace[m].entries, trace[|operations|].entries;
    hide Residue, Quiet, Gone, Strict, Openable, Intact;
    IntactIsKept(origin, last, name, maximum);
    if Kept(origin, last, name, maximum) {
      QuietKeeps(origin, last, reclaimed, name, maximum);
      if slot: nat :| slot < maximum && Held(origin, reclaimed, name, slot) {
        MatchedIsResidue(reclaimed, slot);
      }
    }
  }

  /** No tombstone is left in a slot that can be reclaimed. */
  ghost predicate Unclaimed(e: Entries, maximum: nat) {
    forall slot: nat :: slot < maximum && Tombstone(slot) in e ==> !Residue(e, slot)
  }

  lemma MatchedIsResidue(e: Entries, slot: nat)
    ensures Matched(e, slot) ==> Residue(e, slot)
  {
  }

  lemma SweepClears(last: Entries, reclaimed: Entries, maximum: nat)
    requires SweptTo(last, reclaimed, {}, maximum)
    ensures Quiet(last, reclaimed) && Unclaimed(reclaimed, maximum)
    ensures forall slot: nat :: slot < maximum && Residue(last, slot) ==> Free(reclaimed, slot)
  {
    SweptIsSafe(last, reclaimed, {}, maximum);
    forall slot: nat | slot < maximum
      ensures Residue(last, slot) ==> Free(reclaimed, slot)
      ensures Tombstone(slot) in reclaimed ==> !Residue(reclaimed, slot)
    {
      ResidueIsReclaimable(last, slot);
      if SameSlot(last, reclaimed, slot) {
        SlotFacts(last, reclaimed, {}, slot);
      }
    }
  }

  lemma LockedAfter(operations: seq<Operation>, n: nat)
    requires n < |operations|
    ensures var before := Locked(operations[..n]);
            Locked(operations[..n + 1]) == (match operations[n]
                                            case Lock(identity) => before + {identity}
                                            case Unlock(identity) => before - {identity}
                                            case _ => before)
  {
    assert operations[..n + 1][..n] == operations[..n];
  }

  lemma RunExtends(trace: seq<Moment>, after: Moment, operations: seq<Operation>, answers: seq<Option<Removal>>,
                   answer: Option<Removal>, maximum: nat)
    requires |answers| < |operations| && WellRun(trace, operations[..|answers|], answers, maximum)
    requires forall o :: o in operations && o.Delete? ==> o.name.Visible?
    requires Step(trace[|answers|], after, operations[|answers|], answer, Locked(operations[..|answers|]), maximum)
    ensures WellRun(trace + [after], operations[..|answers| + 1], answers + [answer], maximum)
  {
    hide Step, Ordinary, Locked;
    var n, longer, moments := |answers|, operations[..|answers| + 1], trace + [after];
    assert operations[n] in operations && trace[n] in trace;
    StaysOrdinary(trace[n], after, operations[n], answer, Locked(operations[..n]), maximum);
    forall k | 0 <= k < |longer|
      ensures Step(moments[k], moments[k + 1], longer[k], (answers + [answer])[k], Locked(longer[..k]), maximum)
    {
      assert longer[..k] == operations[..k];
      if k < n {
        assert operations[..n][..k] == operations[..k];
        assert Step(trace[k], trace[k + 1], operations[..n][k], answers[k], Locked(operations[..n][..k]), maximum);
      }
    }
    assert Run(moments, longer, answers + [answer], maximum);
    forall moment | moment in moments
      ensures Ordinary(moment.entries)
    {
      assert moment in trace || moment == after;
    }
  }

  /**
   Every run of creations, deletions, restarts and locks from every position of the slot cursor, each operation
   stopped anywhere unless it is undisturbed. Between any two moments every file is accounted for. One later reclaim
   of every slot, with the locks released, frees every slot that holds residue and settles every file.
   */
  method EveryRun(initial: Moment, operations: seq<Operation>, maximum: nat)
    returns (trace: seq<Moment>, answers: seq<Option<Removal>>, reclaimed: Entries)
    requires Ordinary(initial.entries) && forall o :: o in operations && o.Delete? ==> o.name.Visible?
    ensures Run(trace, operations, answers, maximum) && trace[0] == initial
    ensures forall m, n :: 0 <= m <= n <= |operations| ==> Accounted(trace, operations, m, n, maximum)
    ensures forall n :: 0 <= n < |operations| ==>
              RespectsLocks(trace[n].entries, trace[n + 1].entries, operations[n], Locked(operations[..n]))
    ensures SweptTo(trace[|operations|].entries, reclaimed, {}, maximum)
    ensures forall slot: nat :: slot < maximum && Residue(trace[|operations|].entries, slot) ==> Free(reclaimed, slot)
    ensures forall m: nat, name: Name :: m <= |operations| && name.Visible? && name in trace[m].entries ==>
              && Settled(trace, m, reclaimed, name, maximum)
              && (NeverDeleted(name, operations, m, |operations|) ==> Intact(trace[m].entries, reclaimed, name))
  {
    hide Residue, Quiet, Deleted, SweptTo, Accounted, Settled, Intact, Opens, FirstBlocked, NeverDeleted, Unclaimed,
         SlotsSafe, Traced, VisibleKept, GuardedKept;
    var d := new Directory(initial.entries);
    d.nextSlot := initial.nextSlot;
    trace, answers := [initial], [];
    for n := 0 to |operations|
      invariant fresh(d) && |trace| == n + 1 && |answers| == n && trace[0] == initial
      invariant trace[n] == Moment(d.entries, d.nextSlot) && d.locked == Locked(operations[..n])
      invariant WellRun(trace, operations[..n], answers, maximum)
    {
      var operation := operations[n];
      assert operation in operations && trace[n] in trace;
      var answer := None;
      match operation {
      case Create(name, file) =>
        if Creates(d.entries, name, file) {
          d.entries := d.entries[name := file];
        }
      case Delete(name, calm) =>
        answer := Some(Refused);
        if name in d.entries {
          var r := d.RemoveOpenFile(name, maximum, calm);
          answer := Some(r);
        }
      case Reopen(calm) =>
        ghost var before := d.entries;
        var slot, aborted, stop := d.InitialSlot(maximum, calm);
        assert Quiet(before, d.entries) by { IsQuiet(before, d.entries); }
        if !aborted {
          d.nextSlot := slot;
        }
        if calm {
          assert Reopened(trace[n], Moment(d.entries, d.nextSlot), d.locked, maximum, stop) by {
            OpensOrBlocked(before, d.locked, stop, slot, maximum);
          }
        }
      case Lock(identity) =>
        d.locked := d.locked + {identity};
      case Unlock(identity) =>
        d.locked := d.locked - {identity};
      }
      var after := Moment(d.entries, d.nextSlot);
      RunExtends(trace, after, operations, answers, answer, maximum);
      LockedAfter(operations, n);
      trace, answers := trace + [after], answers + [answer];
    }
    assert operations[..|operations|] == operations;
    d.locked := {};
    d.ReclaimAll(maximum);
    reclaimed := d.entries;
    SweepClears(trace[|operations|].entries, reclaimed, maximum);
    forall n | 0 <= n < |operations|
      ensures RespectsLocks(trace[n].entries, trace[n + 1].entries, operations[n], Locked(operations[..n]))
    {
      StepRespectsLocks(trace[n], trace[n + 1], operations[n], answers[n], Locked(operations[..n]), maximum);
    }
    forall m, n | 0 <= m <= n <= |operations|
      ensures Accounted(trace, operations, m, n, maximum)
    {
      RunIsAccounted(trace, operations, answers, m, n, maximum);
    }
    forall m: nat, name: Name | m <= |operations| && name.Visible? && name in trace[m].entries
      ensures Settled(trace, m, reclaimed, name, maximum)
      ensures NeverDeleted(name, operations, m, |operations|) ==> Intact(trace[m].entries, reclaimed, name)
    {
      AccountedIsTracked(trace, operations, m, |operations|, name, maximum);
      ReclaimSettles(trace, operations, m, reclaimed, name, maximum);
    }
  }

  lemma IsQuiet(before: Entries, after: Entries)
    requires SlotsSafe(before, after) && VisibleKept(before, after, {}) && Traced(before, after, {})
    ensures Quiet(before, after)
  {
  }

  /** A directory opens, or a slot before the first unoccupied one makes that fail; never both. */
  lemma OpensOrBlocked(e: Entries, locked: set<Identity>, stop: nat, first: nat, maximum: nat)
    ensures !(Opens(e, locked, stop, first, maximum) && FirstBlocked(e, locked, stop, maximum))
  {
  }

  lemma AccountedIsTracked(trace: seq<Moment>, operations: seq<Operation>, m: nat, n: nat, name: Name, maximum: nat)
    requires m <= n < |trace| == |operations| + 1 && Accounted(trace, operations, m, n, maximum)
    requires name.Visible? && name in trace[m].entries
    ensures Tracked(trace, operations, m, n, name, maximum)
  {
  }

  // Files that are not private, and slots that cannot be read.

  /**
   An undisturbed deletion takes the file from its name exactly when it is removable, and leaves it untouched otherwise.
   It destroys the file exactly when the file is also private to the user.
   */
  lemma GoneExactly(before: Entries, after: Entries, name: Name, locked: set<Identity>, start: nat, next: nat,
                    maximum: nat, r: Removal)
    requires name.Visible? && name in before
    requires Deleted(before, after, name, locked, start, next, maximum, true, r)
    ensures name !in after <==> Removable(before, locked, start, name, maximum)
    ensures name in after ==> Intact(before, after, name)
    ensures Gone(after, before[name].identity) <==>
              Removable(before, locked, start, name, maximum) && Strict(before[name])
    ensures r.Removed? <==> Removable(before, locked, start, name, maximum) && Strict(before[name])
  {
    hide Residue, Claims, Turned, Traced, SlotsSafe, Openable, Strict, Held;
    if slot :| Claims(before, locked, start, maximum, slot) && Took(before, after, name, slot, r) {
      assert name in Cleared(before, slot);
      assert Openable(before[name]) ==> name !in Cleared(after, slot);
    }
    assert name in after ==> after[name].identity == before[name].identity;
  }

  lemma StaysEmptied(last: Entries, reclaimed: Entries, file: File, slot: nat, maximum: nat)
    requires Emptied(last, file, slot) && SweptTo(last, reclaimed, {}, maximum)
    ensures Emptied(reclaimed, file, slot)
  {
    ResidueIsReclaimable(last, slot);
    SlotFacts(last, reclaimed, {}, slot);
  }

  lemma FreeIsClaimed(e: Entries, locked: set<Identity>, slot: nat, maximum: nat)
    requires slot < maximum && Free(e, slot)
    ensures Claims(e, locked, slot, maximum, slot)
    ensures forall other :: Claims(e, locked, slot, maximum, other) ==> other == slot
  {
    assert Reclaimable(e, locked, slot, None, None);
    hide Reclaimable, Blocked;
    assert Reaches(e, locked, slot, maximum, slot);
    forall other | Claims(e, locked, slot, maximum, other)
      ensures other == slot
    {
      Reached(e, locked, slot, maximum, other);
      Reached(e, locked, slot, maximum, slot);
    }
  }

  lemma SmallIdentity(identity: Identity)
    requires identity.device < 256 && identity.inode < 256
    ensures Fits64(identity)
  {
    assert Limit(8) == 256 * Limit(7) && Limit(7) >= 1;
  }

  /**
   A directory with one file that others may read. An undisturbed deletion empties the file, answers with a
   refusal, and leaves a tombstone that reclaiming every slot does not remove.
   */
  method StrandsSharedFile() returns (answers: seq<Option<Removal>>, reclaimed: Entries)
    ensures answers == [Some(Refused)] && Visible("segment") !in reclaimed
    ensures Emptied(reclaimed, File(Identity(1, 2), [7], Beyond, true, true, false), 0)
  {
    hide Residue, Harmless, Accounted, Settled, Turned, Cleared, SweptTo, Claims, Fits64;
    var name, maximum := Visible("segment"), MAX_DIAGNOSTIC_DELETE_TOMBSTONES;
    var file := File(Identity(1, 2), [7], Beyond, true, true, false);
    var initial: Entries := map[name := file];
    SmallIdentity(file.identity);
    var operations := [Delete(name, true)];
    var trace: seq<Moment>;
    trace, answers, reclaimed := EveryRun(Moment(initial, 0), operations, maximum);
    ghost var last := trace[1];
    assert Step(trace[0], last, operations[0], answers[0], {}, maximum) by { assert operations[..0] == []; }
    FreeIsClaimed(initial, {}, 0, maximum);
    GoneExactly(initial, last.entries, name, {}, 0, last.nextSlot, maximum, answers[0].value);
    StaysEmptied(last.entries, reclaimed, file, 0, maximum);
    assert SameAt(last.entries, reclaimed, name) by { SweptIsSafe(last.entries, reclaimed, {}, maximum); }
  }

  /** An undisturbed deletion that comes to a slot whose reclaim fails changes nothing; the next begins behind it. */
  lemma BlockedRefuses(before: Moment, after: Moment, name: Name, answer: Option<Removal>, locked: set<Identity>,
                       slot: nat, maximum: nat)
    requires name in before.entries && before.entries[name].identity !in locked
    requires Step(before, after, Delete(name, true), answer, locked, maximum)
    requires Reaches(before.entries, locked, First(before.nextSlot, maximum), maximum, slot)
    requires Blocked(before.entries, locked, slot, None, None)
    ensures answer == Some(Refused) && after == Moment(before.entries, Next(slot, maximum))
  {
    hide Blocked, Reaches, Harmless, Took;
    Reached(before.entries, locked, before.nextSlot, maximum, slot);
  }

  /** An undisturbed deletion of a private file that finds its first slot free succeeds. */
  lemma FreeRemoves(before: Moment, after: Moment, name: Name, answer: Option<Removal>, locked: set<Identity>,
                    maximum: nat)
    requires name.Visible? && name in before.entries && Strict(before.entries[name])
    requires before.entries[name].identity !in locked
    requires Step(before, after, Delete(name, true), answer, locked, maximum)
    requires before.nextSlot < maximum && Free(before.entries, before.nextSlot)
    ensures answer == Some(Removed) && name !in after.entries
  {
    hide Claims, Harmless, Took, Turned, Gone;
    FreeIsClaimed(before.entries, locked, before.nextSlot, maximum);
    GoneExactly(before.entries, after.entries, name, locked, before.nextSlot, after.nextSlot, maximum, answer.value);
  }

  /**
   A complete marker guards a tombstone that the user may not open. The first deletion of a private file comes to that
   slot and is refused although every other slot is free; the second starts behind it and succeeds.
   */
  method StopsAtUnreadableTombstone() returns (answers: seq<Option<Removal>>, reclaimed: Entries)
    ensures answers == [Some(Refused), Some(Removed)] && Visible("segment") !in reclaimed
  {
    hide Residue, Step, Accounted, Settled, SweptTo, Fits64, Blocked, Reclaimable, EncodeMarker, Intact, NeverDeleted;
    var name, maximum := Visible("segment"), MAX_DIAGNOSTIC_DELETE_TOMBSTONES;
    var initial: Entries :=
      map[name := File(Identity(1, 2), [7], Exact, true, true, false),
          Marker(0) := CompleteMarker(Identity(1, 3), Identity(1, 4)),
          Tombstone(0) := File(Identity(1, 4), [], Beyond, false, true, true)];
    SmallIdentity(Identity(1, 2));
    var operations := [Delete(name, true), Delete(name, true)];
    var trace: seq<Moment>;
    trace, answers, reclaimed := EveryRun(Moment(initial, 0), operations, maximum);
    assert Locked(operations[..0]) == Locked(operations[..1]) == {} by { assert operations[..1][..0] == []; }
    UnreadableIsBlocked(initial, 0, Identity(1, 4));
    assert Reaches(initial, {}, 0, maximum, 0);
    BlockedRefuses(trace[0], trace[1], name, answers[0], {}, 0, maximum);
    FreeRemoves(trace[1], trace[2], name, answers[1], {}, maximum);
    assert SameAt(trace[2].entries, reclaimed, name) by { SweptIsSafe(trace[2].entries, reclaimed, {}, maximum); }
  }

  lemma UnreadableIsBlocked(e: Entries, slot: nat, identity: Identity)
    requires Marker(slot) in e && Tombstone(slot) in e && Denied(e[Tombstone(slot)])
    requires e[Marker(slot)] == CompleteMarker(e[Marker(slot)].identity, identity)
    requires identity.device < 256 && identity.inode < 256
    ensures Blocked(e, {}, slot, None, None)
  {
    SmallIdentity(identity);
    EncodedMarker(identity);
  }

  /** A marker byte by byte: the magic, then the device and the inode, lowest byte first. */
  lemma OneMarker()
    ensures EncodeMarker(Identity(1, 0x0203))
            == [87, 79, 75, 68, 84, 77, 48, 49, 1, 0, 0, 0, 0, 0, 0, 0, 3, 2, 0, 0, 0, 0, 0, 0]
  {
    TwoBytesOfEight(1);
    TwoBytesOfEight(0x0203);
  }

  lemma TwoBytesOfEight(value: nat)
    requires value < 65_536
    ensures ToBytes(value, 8) == [value % 256, value / 256, 0, 0, 0, 0, 0, 0]
  {
    assert ToBytes(value, 8) == [value % 256] + ToBytes(value / 256, 7);
    assert ToBytes(value / 256, 7) == [value / 256] + ToBytes(0, 6);
    assert ToBytes(0, 6) == [0] + ToBytes(0, 5) == [0, 0] + ToBytes(0, 4);
    FourBytes(0);
  }
}
