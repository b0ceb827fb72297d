/**
 Preparing a support package from its sources: `prepare_support_package`, `metadata_for_events` and
 `write_events_entry` of `wokcore-diagnostics/src/export.rs`. The events are merged twice: once to measure and count
 them for the manifest, the local header and the checksums, and once more to write them.
 */
module SupportPackage {
  import opened Prelude
  import opened TextLines
  import EventMerge
  import LeakScan
  import ZipLayout

  /** What goes into a package besides the events. */
  datatype Contents = Contents(manifest: nat -> Bytes, configuration: Bytes, resources: Bytes)

  function Documents(contents: Contents, events: seq<Bytes>): seq<Bytes> {
    [contents.manifest(|events|), Join(events), contents.configuration, contents.resources]
  }

  function Entries(sha: Bytes -> Bytes, contents: Contents, events: seq<Bytes>): (entries: seq<Bytes>)
    ensures |entries| == 5
  {
    Documents(contents, events) + [ZipLayout.ChecksumDocument(sha, Documents(contents, events))]
  }

  /** No entry contains what must not leave the machine; canaries are sought raw only in the checksums. */
  ghost predicate Clean(canaries: seq<Bytes>, entries: seq<Bytes>) {
    forall i :: 0 <= i < |entries| ==> !LeakScan.Leaks(canaries, true, i == 4, entries[i])
  }

  /** The documents are within their sizes, free of leaks and acceptable. */
  ghost predicate Fit(sha: Bytes -> Bytes, acceptable: seq<Bytes> -> bool, canaries: seq<Bytes>, contents: Contents,
                      events: seq<Bytes>)
  {
    && ZipLayout.InBounds(Documents(contents, events))
    && Clean(canaries, Entries(sha, contents, events)) && acceptable(Entries(sha, contents, events))
  }

  ghost predicate WellFormed(validate: EventMerge.Validator, header: Bytes -> bool, sources: seq<EventMerge.Source>) {
    EventMerge.AllWellFormed(validate, header, sources) && EventMerge.Agree(validate, sources)
  }

  /** One pass over the sources: the merged events and how many there are. */
  method MergePass(validate: EventMerge.Validator, header: Bytes -> bool, sources: seq<EventMerge.Source>, calm: bool)
    returns (r: Option<(Bytes, nat)>, ghost events: seq<Bytes>)
    ensures r.Some? ==>
      && WellFormed(validate, header, sources) && EventMerge.SortedUnion(validate, sources, events)
      && r.value == (Join(events), |events|)
    ensures calm && WellFormed(validate, header, sources) ==> r.Some?
  {
    hide EventMerge.AllWellFormed, EventMerge.Agree, EventMerge.SortedUnion, Join, Lines;
    var merged, out := EventMerge.MergeAll(validate, header, sources, calm);
    events := out;
    if merged.Err? {
      return None, events;
    }
    UnionLines(validate, sources, events);
    r := Some((merged.value, |Lines(merged.value)|));
  }

  lemma UnionLines(validate: EventMerge.Validator, sources: seq<EventMerge.Source>, events: seq<Bytes>)
    requires EventMerge.SortedUnion(validate, sources, events)
    ensures Lines(Join(events)) == events
  {
    hide EventMerge.Good, Lines, Join, Tail;
    forall i | 0 <= i < |events|
      ensures NEWLINE !in events[i]
    {
      assert events[i] in events;
      var k :| 0 <= k < |sources| && events[i] in EventMerge.EventLines(sources[k]);
      LinesRoundTrip(sources[k].bytes);
      assert events[i] in Lines(sources[k].bytes);
    }
    LinesOfJoin(events, []);
    assert Join(events) + [] == Join(events);
  }

  /** Write an entry under a header that was measured before, after scanning it in whatever chunks it comes. */
  method WriteScanned(writer: ZipLayout.PackageWriter, canaries: seq<Bytes>, measured: Bytes, content: Bytes)
    returns (written: bool)
    requires writer.Valid() && LeakScan.ValidCanaries(canaries) && measured == content
    requires ZipLayout.InBounds(writer.entries + [content])
    modifies writer
    ensures written <==> !LeakScan.Leaks(canaries, true, |old(writer.entries)| == 4, content)
    ensures written ==> writer.Valid() && writer.entries == old(writer.entries) + [content]
  {
    hide LeakScan.Leaks, ZipLayout.InBounds, ZipLayout.PackageWriter.Valid;
    ghost var done := |writer.entries|;
    assert LeakScan.Concat([content]) == content by { assert [content][..0] == []; }
    var chunks :| LeakScan.Concat(chunks) == content;
    var i := Position(writer);
    var leak := LeakScan.ScanLogicalEntry(canaries, chunks, i == 4);
    if leak {
      return false;
    }
    writer.WriteEntry(measured);
    written := true;
  }

  method Position(writer: ZipLayout.PackageWriter) returns (i: nat)
    requires writer.Valid()
    ensures i == |writer.entries|
  {
    hide ZipLayout.LocalPart;
    ZipLayout.RecordCount(writer.entries, writer.central);
    i := |writer.central|;
  }

  /**
   Both passes over the unchanged sources give the same events, so the header and checksum measured in the first
   describe what the second writes, and every package that is written verifies. Undisturbed, preparing succeeds exactly
   when the sources are well formed and agree and the documents fit.
   */
  method Prepare(sha: Bytes -> Bytes, acceptable: seq<Bytes> -> bool, validate: EventMerge.Validator,
                 header: Bytes -> bool, sources: seq<EventMerge.Source>, contents: Contents, canaries: seq<Bytes>,
                 calm: bool)
    returns (r: Option<Bytes>)
    requires (forall x :: |sha(x)| == 32) && LeakScan.ValidCanaries(canaries)
    ensures r.Some? ==>
      && WellFormed(validate, header, sources)
      && exists events :: EventMerge.SortedUnion(validate, sources, events) &&
           Fit(sha, acceptable, canaries, contents, events) &&
           r.value == ZipLayout.Layout(Entries(sha, contents, events))
    ensures calm && r.None? && WellFormed(validate, header, sources) ==>
      forall events :: EventMerge.SortedUnion(validate, sources, events) ==>
        !Fit(sha, acceptable, canaries, contents, events)
  {
    hide WellFormed, EventMerge.SortedUnion, ZipLayout.ChecksumDocument, ZipLayout.Layout, LeakScan.Leaks, Join;
    var measured, events := MergePass(validate, header, sources, calm);
    if measured.None? {
      return None;
    }
    OneUnion(validate, sources, events);
    var documents := [contents.manifest(measured.value.1), measured.value.0, contents.configuration,
                      contents.resources];
    if exists i :: 0 <= i < 4 && |documents[i]| > ZipLayout.SizeLimit(i) {
      return None;
    }
    var entries := documents + [ZipLayout.ChecksumDocument(sha, documents)];
    ZipLayout.ChecksumsFit(sha, documents);
    assert entries[..4] == documents && ZipLayout.InBounds(documents) && ZipLayout.InBounds(entries);
    var output := WriteAll(validate, header, sources, entries, canaries, events, calm);
    if output.None? {
      return None;
    }
    var verified := ZipLayout.Verify(sha, acceptable, output.value, entries);
    if verified.None? {
      return None;
    }
    r := output;
  }

  lemma OneUnion(validate: EventMerge.Validator, sources: seq<EventMerge.Source>, events: seq<Bytes>)
    requires EventMerge.SortedUnion(validate, sources, events)
    ensures forall other :: EventMerge.SortedUnion(validate, sources, other) ==> other == events
  {
    hide EventMerge.SortedUnion;
    forall other | EventMerge.SortedUnion(validate, sources, other)
      ensures other == events
    {
      EventMerge.UnionIsUnique(validate, sources, other, events);
    }
  }

  /** Write the five entries, merging the sources once more for the second, and the central directory. */
  method WriteAll(validate: EventMerge.Validator, header: Bytes -> bool, sources: seq<EventMerge.Source>,
                  entries: seq<Bytes>, canaries: seq<Bytes>, ghost events: seq<Bytes>, calm: bool)
    returns (output: Option<Bytes>)
    requires |entries| == 5 && ZipLayout.InBounds(entries) && LeakScan.ValidCanaries(canaries)
    requires WellFormed(validate, header, sources) && EventMerge.SortedUnion(validate, sources, events)
    requires entries[1] == Join(events)
    ensures output.Some? ==> Clean(canaries, entries) && output.value == ZipLayout.Layout(entries)
    ensures calm && output.None? ==> !Clean(canaries, entries)
  {
    hide WellFormed, EventMerge.SortedUnion, ZipLayout.Layout, LeakScan.Leaks, Join, ZipLayout.PackageWriter.Valid,
         LeakScan.ValidCanaries;
    var writer := new ZipLayout.PackageWriter();
    for i := 0 to 5
      invariant fresh(writer) && writer.Valid() && writer.entries == entries[..i]
      invariant forall k :: 0 <= k < i ==> !LeakScan.Leaks(canaries, true, k == 4, entries[k])
    {
      var content := entries[i];
      if i == 1 {
        var again, merged := MergePass(validate, header, sources, calm);
        if again.None? {
          return None;
        }
        EventMerge.UnionIsUnique(validate, sources, events, merged);
        content := again.value.0;
      }
      assert entries[..i] + [entries[i]] == entries[..i + 1];
      var written := WriteScanned(writer, canaries, entries[i], content);
      if !written {
        return None;
      }
    }
    assert entries[..5] == entries;
    var done := writer.WriteCentralDirectory();
    output := Some(writer.output);
  }
}
