/**
 The support package archive: the writer functions and `verify_support_package_reader` of
 `wokcore-diagnostics/src/export.rs`. The layout is the stored-only subset of PKWARE APPNOTE.TXT, sections
 4.3.7 (local file header), 4.3.12 (central directory header) and 4.3.16 (end of central directory record).
 SHA-256 and the checks on what the entries say are parameters.
 */
module ZipLayout {
  import opened Prelude
  import opened LittleEndian
  import Crc

  const LOCAL_SIGNATURE: nat := 0x0403_4b50
  const CENTRAL_SIGNATURE: nat := 0x0201_4b50
  const END_SIGNATURE: nat := 0x0605_4b50
  const ENTRY_COUNT: nat := 5
  const DOS_DATE_1980_01_01: nat := 0x0021
  const MAX_EXPORT_EVENT_BYTES: nat := 67_108_864

  const ENTRY_NAMES: seq<string> :=
    ["manifest.json", "events.jsonl", "configuration.json", "resources.json", "checksums.sha256"]

  function EntryName(i: nat): (name: Bytes)
    requires i < ENTRY_COUNT
    ensures 0 < |name| <= 18
  {
    Ascii(ENTRY_NAMES[i])
  }

  function SizeLimit(i: nat): nat {
    if i == 1 then MAX_EXPORT_EVENT_BYTES else if i == 4 then 1_024 else EXPORT_BUFFER_BYTES
  }

  // The layout.

  function U16(value: nat): (bytes: Bytes)
    ensures |bytes| == 2
  {
    ToBytes(value, 2)
  }

  function U32(value: nat): (bytes: Bytes)
    ensures |bytes| == 4
  {
    ToBytes(value, 4)
  }

  function LocalHeader(i: nat, crc: nat, size: nat): (bytes: Bytes)
    requires i < ENTRY_COUNT
    ensures |bytes| == 30 + |EntryName(i)|
  {
    U32(LOCAL_SIGNATURE) + (U16(20) + (U16(0) + (U16(0) + (U16(0) + (U16(DOS_DATE_1980_01_01)
    + (U32(crc) + (U32(size) + (U32(size) + (U16(|EntryName(i)|) + (U16(0) + EntryName(i)))))))))))
  }

  function CentralHeader(i: nat, crc: nat, size: nat, offset: nat): (bytes: Bytes)
    requires i < ENTRY_COUNT
    ensures |bytes| == 46 + |EntryName(i)|
  {
    U32(CENTRAL_SIGNATURE) + (U16(20) + (U16(20) + (U16(0) + (U16(0) + (U16(0) + (U16(DOS_DATE_1980_01_01)
    + (U32(crc) + (U32(size) + (U32(size) + (U16(|EntryName(i)|) + (U16(0) + (U16(0) + (U16(0) + (U16(0)
    + (U32(0) + (U32(offset) + EntryName(i)))))))))))))))))
  }

  function EndRecord(centralSize: nat, centralOffset: nat): (bytes: Bytes)
    ensures |bytes| == 22
  {
    U32(END_SIGNATURE) + (U16(0) + (U16(0) + (U16(ENTRY_COUNT) + (U16(ENTRY_COUNT)
    + (U32(centralSize) + (U32(centralOffset) + U16(0)))))))
  }

  /** An entry as stored: its local header followed by its bytes. */
  function Piece(i: nat, content: Bytes): (bytes: Bytes)
    requires i < ENTRY_COUNT
    ensures |bytes| == 30 + |EntryName(i)| + |content|
  {
    LocalHeader(i, Crc.Checksum(content), |content|) + content
  }

  function CentralPiece(entries: seq<Bytes>, i: nat): (bytes: Bytes)
    requires i < |entries| <= ENTRY_COUNT
    ensures |bytes| == 46 + |EntryName(i)|
  {
    CentralHeader(i, Crc.Checksum(entries[i]), |entries[i]|, |LocalPart(entries[..i])|)
  }

  /** The first entries, one after the other. */
  function LocalPart(entries: seq<Bytes>): Bytes
    requires |entries| <= ENTRY_COUNT
  {
    if entries == [] then []
    else
      var i := |entries| - 1;
      LocalPart(entries[..i]) + Piece(i, entries[i])
  }

  /** The central headers of the first `n` entries. */
  function CentralPart(entries: seq<Bytes>, n: nat): Bytes
    requires n <= |entries| <= ENTRY_COUNT
    decreases n
  {
    if n == 0 then []
    else CentralPart(entries, n - 1) + CentralPiece(entries, n - 1)
  }

  function Layout(entries: seq<Bytes>): Bytes
    requires |entries| == ENTRY_COUNT
  {
    var central := CentralPart(entries, ENTRY_COUNT);
    LocalPart(entries) + (central + EndRecord(|central|, |LocalPart(entries)|))
  }

  // Reading parts at an offset.

  predicate At(b: Bytes, at: nat, part: Bytes) {
    at + |part| <= |b| && b[at..at + |part|] == part
  }

  function Word(b: Bytes, at: nat, width: nat): nat
    requires at + width <= |b|
  {
    FromBytes(b[at..at + width])
  }

  lemma AtConcat(b: Bytes, at: nat, x: Bytes, y: Bytes)
    ensures At(b, at, x + y) <==> At(b, at, x) && At(b, at + |x|, y)
  {
    if at + |x| + |y| <= |b| {
      var whole := b[at..at + |x| + |y|];
      assert whole == b[at..at + |x|] + b[at + |x|..at + |x| + |y|];
      assert (x + y)[..|x|] == x && (x + y)[|x|..] == y;
      assert whole[..|x|] == b[at..at + |x|] && whole[|x|..] == b[at + |x|..at + |x| + |y|];
    }
  }

  lemma AtWord(b: Bytes, at: nat, value: nat, width: nat)
    requires value < Limit(width)
    ensures At(b, at, ToBytes(value, width)) <==> at + width <= |b| && Word(b, at, width) == value
  {
    DecodeEncode(value, width);
    if at + width <= |b| {
      EncodeDecode(b[at..at + width]);
    }
  }

  lemma Limits()
    ensures Limit(2) == 65_536 && Limit(4) == U32_MAX + 1
  {
    assert Limit(2) == 256 * Limit(1);
    assert Limit(4) == 256 * (256 * Limit(2));
  }

  lemma AtU16(b: Bytes, at: nat, value: nat, rest: Bytes)
    requires value < 65_536
    ensures At(b, at, U16(value) + rest) <==> at + 2 <= |b| && Word(b, at, 2) == value && At(b, at + 2, rest)
  {
    hide At;
    Limits();
    AtWord(b, at, value, 2);
    AtConcat(b, at, U16(value), rest);
  }

  lemma AtU32(b: Bytes, at: nat, value: nat, rest: Bytes)
    requires value <= U32_MAX
    ensures At(b, at, U32(value) + rest) <==> at + 4 <= |b| && Word(b, at, 4) == value && At(b, at + 4, rest)
  {
    hide At;
    Limits();
    AtWord(b, at, value, 4);
    AtConcat(b, at, U32(value), rest);
  }

  /** The fields of a local header, read at their offsets. */
  predicate LocalAt(b: Bytes, at: nat, i: nat, crc: nat, size: nat)
    requires i < ENTRY_COUNT
  {
    && at + 30 + |EntryName(i)| <= |b|
    && Word(b, at, 4) == LOCAL_SIGNATURE && Word(b, at + 4, 2) == 20 && Word(b, at + 6, 2) == 0
    && Word(b, at + 8, 2) == 0 && Word(b, at + 10, 2) == 0 && Word(b, at + 12, 2) == DOS_DATE_1980_01_01
    && Word(b, at + 14, 4) == crc && Word(b, at + 18, 4) == size && Word(b, at + 22, 4) == size
    && Word(b, at + 26, 2) == |EntryName(i)| && Word(b, at + 28, 2) == 0
    && b[at + 30..at + 30 + |EntryName(i)|] == EntryName(i)
  }

  lemma LocalFields(b: Bytes, at: nat, i: nat, crc: nat, size: nat)
    requires i < ENTRY_COUNT && crc <= U32_MAX && size <= U32_MAX
    ensures LocalAt(b, at, i, crc, size) <==> At(b, at, LocalHeader(i, crc, size))
  {
    hide At, U16, U32, Word, EntryName;
    var r11 := EntryName(i);
    var r10 := U16(0) + r11;
    var r9 := U16(|EntryName(i)|) + r10;
    var r8 := U32(size) + r9;
    var r7 := U32(size) + r8;
    var r6 := U32(crc) + r7;
    var r5 := U16(DOS_DATE_1980_01_01) + r6;
    var r4 := U16(0) + r5;
    var r3 := U16(0) + r4;
    var r2 := U16(0) + r3;
    var r1 := U16(20) + r2;
    AtU32(b, at, LOCAL_SIGNATURE, r1);
    AtU16(b, at + 4, 20, r2);
    AtU16(b, at + 6, 0, r3);
    AtU16(b, at + 8, 0, r4);
    AtU16(b, at + 10, 0, r5);
    AtU16(b, at + 12, DOS_DATE_1980_01_01, r6);
    AtU32(b, at + 14, crc, r7);
    AtU32(b, at + 18, size, r8);
    AtU32(b, at + 22, size, r9);
    AtU16(b, at + 26, |EntryName(i)|, r10);
    AtU16(b, at + 28, 0, r11);
    assert LocalHeader(i, crc, size) == U32(LOCAL_SIGNATURE) + r1;
    AtName(b, at + 30, EntryName(i));
  }

  /** The fields of a central header, read at their offsets. */
  predicate CentralAt(b: Bytes, at: nat, i: nat, crc: nat, size: nat, offset: nat)
    requires i < ENTRY_COUNT
  {
    && at + 46 + |EntryName(i)| <= |b|
    && Word(b, at, 4) == CENTRAL_SIGNATURE && Word(b, at + 4, 2) == 20 && Word(b, at + 6, 2) == 20
    && Word(b, at + 8, 2) == 0 && Word(b, at + 10, 2) == 0 && Word(b, at + 12, 2) == 0
    && Word(b, at + 14, 2) == DOS_DATE_1980_01_01 && Word(b, at + 16, 4) == crc
    && Word(b, at + 20, 4) == size && Word(b, at + 24, 4) == size && Word(b, at + 28, 2) == |EntryName(i)|
    && Word(b, at + 30, 2) == 0 && Word(b, at + 32, 2) == 0 && Word(b, at + 34, 2) == 0
    && Word(b, at + 36, 2) == 0 && Word(b, at + 38, 4) == 0 && Word(b, at + 42, 4) == offset
    && b[at + 46..at + 46 + |EntryName(i)|] == EntryName(i)
  }

  lemma CentralFields(b: Bytes, at: nat, i: nat, crc: nat, size: nat, offset: nat)
    requires i < ENTRY_COUNT && crc <= U32_MAX && size <= U32_MAX && offset <= U32_MAX
    ensures CentralAt(b, at, i, crc, size, offset) <==> At(b, at, CentralHeader(i, crc, size, offset))
  {
    hide At, U16, U32, Word, EntryName;
    var r17 := EntryName(i);
    var r16 := U32(offset) + r17;
    var r15 := U32(0) + r16;
    var r14 := U16(0) + r15;
    var r13 := U16(0) + r14;
    var r12 := U16(0) + r13;
    var r11 := U16(0) + r12;
    var r10 := U16(|EntryName(i)|) + r11;
    var r9 := U32(size) + r10;
    var r8 := U32(size) + r9;
    var r7 := U32(crc) + r8;
    var r6 := U16(DOS_DATE_1980_01_01) + r7;
    var r5 := U16(0) + r6;
    var r4 := U16(0) + r5;
    var r3 := U16(0) + r4;
    var r2 := U16(20) + r3;
    var r1 := U16(20) + r2;
    AtU32(b, at, CENTRAL_SIGNATURE, r1);
    AtU16(b, at + 4, 20, r2);
    AtU16(b, at + 6, 20, r3);
    AtU16(b, at + 8, 0, r4);
    AtU16(b, at + 10, 0, r5);
    AtU16(b, at + 12, 0, r6);
    AtU16(b, at + 14, DOS_DATE_1980_01_01, r7);
    AtU32(b, at + 16, crc, r8);
    AtU32(b, at + 20, size, r9);
    AtU32(b, at + 24, size, r10);
    AtU16(b, at + 28, |EntryName(i)|, r11);
    AtU16(b, at + 30, 0, r12);
    AtU16(b, at + 32, 0, r13);
    AtU16(b, at + 34, 0, r14);
    AtU16(b, at + 36, 0, r15);
    AtU32(b, at + 38, 0, r16);
    AtU32(b, at + 42, offset, r17);
    assert CentralHeader(i, crc, size, offset) == U32(CENTRAL_SIGNATURE) + r1;
    AtName(b, at + 46, EntryName(i));
  }

  /** The fields of the end record, read at their offsets. */
  predicate EndAt(b: Bytes, at: nat, centralSize: nat, centralOffset: nat)
  {
    && at + 22 <= |b|
    && Word(b, at, 4) == END_SIGNATURE && Word(b, at + 4, 2) == 0 && Word(b, at + 6, 2) == 0
    && Word(b, at + 8, 2) == ENTRY_COUNT && Word(b, at + 10, 2) == ENTRY_COUNT
    && Word(b, at + 12, 4) == centralSize && Word(b, at + 16, 4) == centralOffset
    && Word(b, at + 20, 2) == 0
  }

  lemma EndFields(b: Bytes, at: nat, centralSize: nat, centralOffset: nat)
    requires centralSize <= U32_MAX && centralOffset <= U32_MAX
    ensures EndAt(b, at, centralSize, centralOffset) <==> At(b, at, EndRecord(centralSize, centralOffset))
  {
    hide At, U16, U32, Word, EntryName;
    var r7 := U16(0);
    var r6 := U32(centralOffset) + r7;
    var r5 := U32(centralSize) + r6;
    var r4 := U16(ENTRY_COUNT) + r5;
    var r3 := U16(ENTRY_COUNT) + r4;
    var r2 := U16(0) + r3;
    var r1 := U16(0) + r2;
    AtU32(b, at, END_SIGNATURE, r1);
    AtU16(b, at + 4, 0, r2);
    AtU16(b, at + 6, 0, r3);
    AtU16(b, at + 8, ENTRY_COUNT, r4);
    AtU16(b, at + 10, ENTRY_COUNT, r5);
    AtU32(b, at + 12, centralSize, r6);
    AtU32(b, at + 16, centralOffset, r7);
    assert EndRecord(centralSize, centralOffset) == U32(END_SIGNATURE) + r1;
    AtLastU16(b, at + 20, 0);
  }

  lemma AtName(b: Bytes, at: nat, name: Bytes)
    ensures At(b, at, name) <==> at + |name| <= |b| && b[at..at + |name|] == name
  {
  }

  lemma AtLastU16(b: Bytes, at: nat, value: nat)
    requires value < 65_536
    ensures At(b, at, U16(value)) <==> at + 2 <= |b| && Word(b, at, 2) == value
  {
    Limits();
    AtWord(b, at, value, 2);
  }

  // What the archive must hold.

  function HexDigit(n: nat): byte
    requires n < 16
  {
    if n < 10 then 48 + n else 87 + n
  }

  function Hex(hash: Bytes): (text: Bytes)
    ensures |text| == 2 * |hash|
  {
    if hash == [] then []
    else Hex(hash[..|hash| - 1]) + [HexDigit(hash[|hash| - 1] as int / 16), HexDigit(hash[|hash| - 1] as int % 16)]
  }

  function ChecksumLine(sha: Bytes -> Bytes, i: nat, content: Bytes): Bytes
    requires i < ENTRY_COUNT
  {
    Hex(sha(content)) + (Ascii("  ") + (EntryName(i) + [NEWLINE]))
  }

  function ChecksumDocument(sha: Bytes -> Bytes, entries: seq<Bytes>): Bytes
    requires |entries| <= ENTRY_COUNT
  {
    if entries == [] then []
    else
      var i := |entries| - 1;
      ChecksumDocument(sha, entries[..i]) + ChecksumLine(sha, i, entries[i])
  }

  predicate InBounds(entries: seq<Bytes>) {
    |entries| <= ENTRY_COUNT && forall i :: 0 <= i < |entries| ==> |entries[i]| <= SizeLimit(i)
  }

  /** Five entries within their sizes, the last listing the hashes of the others, whose contents are acceptable. */
  predicate Good(sha: Bytes -> Bytes, acceptable: seq<Bytes> -> bool, entries: seq<Bytes>) {
    && |entries| == ENTRY_COUNT && InBounds(entries)
    && entries[4] == ChecksumDocument(sha, entries[..4]) && acceptable(entries)
  }

  lemma LocalSnoc(entries: seq<Bytes>)
    requires 0 < |entries| <= ENTRY_COUNT
    ensures var n := |entries| - 1; LocalPart(entries) == LocalPart(entries[..n]) + Piece(n, entries[n])
  {
  }

  lemma {:induction false} LocalPieces(b: Bytes, entries: seq<Bytes>, i: nat)
    requires i < |entries| <= ENTRY_COUNT && At(b, 0, LocalPart(entries))
    ensures At(b, |LocalPart(entries[..i])|, Piece(i, entries[i]))
  {
    hide *;
    var n := |entries| - 1;
    var prefix := entries[..n];
    LocalSnoc(entries);
    AtConcat(b, 0, LocalPart(prefix), Piece(n, entries[n]));
    if i < n {
      LocalPieces(b, prefix, i);
      assert prefix[..i] == entries[..i];
    }
  }

  lemma CentralSnoc(entries: seq<Bytes>, n: nat)
    requires 0 < n <= |entries| <= ENTRY_COUNT
    ensures CentralPart(entries, n) == CentralPart(entries, n - 1) + CentralPiece(entries, n - 1)
  {
  }

  lemma {:induction false} CentralPieces(b: Bytes, base: nat, entries: seq<Bytes>, n: nat, i: nat)
    requires i < n <= |entries| <= ENTRY_COUNT && At(b, base, CentralPart(entries, n))
    ensures At(b, base + |CentralPart(entries, i)|, CentralPiece(entries, i))
    decreases n
  {
    hide *;
    CentralSnoc(entries, n);
    AtConcat(b, base, CentralPart(entries, n - 1), CentralPiece(entries, n - 1));
    if i < n - 1 {
      CentralPieces(b, base, entries, n - 1, i);
    }
  }

  lemma NoParts()
    ensures LocalPart([]) == [] && forall entries :: |entries| <= ENTRY_COUNT ==> CentralPart(entries, 0) == []
  {
  }

  const MAX_PIECE: nat := MAX_EXPORT_EVENT_BYTES + 48

  lemma {:induction false} LocalPartFits(entries: seq<Bytes>)
    requires InBounds(entries)
    ensures |LocalPart(entries)| <= |entries| * MAX_PIECE <= U32_MAX
  {
    hide Piece, EntryName, LocalPart;
    NoParts();
    if entries != [] {
      LocalSnoc(entries);
      LocalPartFits(entries[..|entries| - 1]);
    }
  }

  lemma {:induction false} CentralPartFits(entries: seq<Bytes>, n: nat)
    requires n <= |entries| <= ENTRY_COUNT
    ensures |CentralPart(entries, n)| <= n * 64 <= 320
    decreases n
  {
    hide CentralPiece, LocalPart, EntryName;
    if n > 0 {
      CentralPartFits(entries, n - 1);
    }
  }

  // The verifier.

  method ReadContent(b: Bytes, start: nat, size: nat) returns (content: Option<Bytes>, crc: nat)
    requires start <= |b|
    ensures content.Some? <==> start + size <= |b|
    ensures content.Some? ==> content.value == b[start..start + size] && crc == Crc.Checksum(content.value)
  {
    hide Crc.Feed, Crc.Start;
    var register, read, bytes: Bytes := Crc.Start(), 0, [];
    while read < size
      invariant read <= size && start + read <= |b|
      invariant bytes == b[start..start + read] && register == Crc.FeedAll(Crc.Start(), bytes)
    {
      var length := if size - read < EXPORT_BUFFER_BYTES then size - read else EXPORT_BUFFER_BYTES;
      if start + read + length > |b| {
        return None, 0;
      }
      var chunk := b[start + read..start + read + length];
      register := Crc.Update(register, chunk);
      Crc.FeedChunks(Crc.Start(), bytes, chunk);
      SliceJoin(b, start, start + read, start + (read + length));
      bytes, read := bytes + chunk, read + length;
    }
    return Some(bytes), Crc.Finish(register);
  }

  /** One local entry; it is accepted exactly when the bytes are the header and contents of some entry in bounds. */
  method ReadEntry(b: Bytes, at: nat, i: nat, ghost wanted: Bytes) returns (r: Option<Bytes>, crc: nat)
    requires at <= |b| && i < ENTRY_COUNT
    ensures r.Some? ==>
      && |r.value| <= SizeLimit(i) && crc == Crc.Checksum(r.value)
      && At(b, at, Piece(i, r.value))
    ensures |wanted| <= SizeLimit(i) && At(b, at, Piece(i, wanted)) ==> r == Some(wanted)
  {
    hide At, Piece, LocalAt, Word, EntryName, Crc.Checksum;
    if |wanted| <= SizeLimit(i) {
      EntryParts(b, at, i, wanted);
    }
    if at + 30 > |b| {
      return None, 0;
    }
    crc := Word(b, at + 14, 4);
    var size := Word(b, at + 22, 4);
    WordFits(b, at + 14);
    WordFits(b, at + 22);
    if |wanted| <= SizeLimit(i) && LocalAt(b, at, i, Crc.Checksum(wanted), |wanted|) {
      LocalWords(b, at, i, Crc.Checksum(wanted), |wanted|);
    }
    if !LocalAt(b, at, i, crc, size) || size > SizeLimit(i) {
      return None, crc;
    }
    LocalWords(b, at, i, crc, size);
    var start := at + 30 + |EntryName(i)|;
    var content, computed := ReadContent(b, start, size);
    if content.None? || computed != crc {
      return None, crc;
    }
    EntryParts(b, at, i, content.value);
    r := content;
  }

  lemma LocalWords(b: Bytes, at: nat, i: nat, crc: nat, size: nat)
    requires i < ENTRY_COUNT && LocalAt(b, at, i, crc, size)
    ensures at + 30 + |EntryName(i)| <= |b| && Word(b, at + 14, 4) == crc && Word(b, at + 22, 4) == size
  {
    hide Word;
  }

  lemma WordFits(b: Bytes, at: nat)
    requires at + 4 <= |b|
    ensures Word(b, at, 4) <= U32_MAX
  {
    Limits();
    EncodeDecode(b[at..at + 4]);
  }

  /** An entry stored at `at`, as its header fields and the bytes after them. */
  lemma EntryParts(b: Bytes, at: nat, i: nat, content: Bytes)
    requires i < ENTRY_COUNT && |content| <= U32_MAX
    ensures var start := at + 30 + |EntryName(i)|;
            At(b, at, Piece(i, content)) <==>
            && LocalAt(b, at, i, Crc.Checksum(content), |content|)
            && start + |content| <= |b| && b[start..start + |content|] == content
  {
    hide At, LocalHeader, LocalAt, EntryName, Crc.Checksum;
    LocalFields(b, at, i, Crc.Checksum(content), |content|);
    AtConcat(b, at, LocalHeader(i, Crc.Checksum(content), |content|), content);
    AtName(b, at + 30 + |EntryName(i)|, content);
  }

  /** The three parts of a layout, at their places. */
  lemma LayoutParts(b: Bytes, entries: seq<Bytes>)
    requires |entries| == ENTRY_COUNT
    ensures var n := |LocalPart(entries)|;
            var m := |CentralPart(entries, ENTRY_COUNT)|;
            b == Layout(entries) <==>
            && At(b, 0, LocalPart(entries)) && At(b, n, CentralPart(entries, ENTRY_COUNT))
            && At(b, n + m, EndRecord(m, n)) && n + m + 22 == |b|
  {
    hide LocalPart, CentralPart, EndRecord, At;
    var local, central := LocalPart(entries), CentralPart(entries, ENTRY_COUNT);
    var end := EndRecord(|central|, |local|);
    AtConcat(b, 0, local, central + end);
    AtConcat(b, |local|, central, end);
    AtAll(b, local + (central + end));
  }

  lemma AtAll(b: Bytes, part: Bytes)
    ensures b == part <==> At(b, 0, part) && |b| == |part|
  {
    assert b[0..|b|] == b;
  }

  datatype Record = Record(offset: nat, crc: nat, size: nat)

  /** The record the verifier keeps of each entry it read. */
  ghost predicate Records(entries: seq<Bytes>, records: seq<Record>) {
    && |records| == |entries| <= ENTRY_COUNT
    && forall i :: 0 <= i < |entries| ==>
         records[i] == Record(|LocalPart(entries[..i])|, Crc.Checksum(entries[i]), |entries[i]|)
  }

  lemma RecordsGrow(entries: seq<Bytes>, records: seq<Record>, content: Bytes)
    requires Records(entries, records) && |entries| < ENTRY_COUNT
    ensures Records(entries + [content], records + [Record(|LocalPart(entries)|, Crc.Checksum(content), |content|)])
  {
    hide LocalPart, Crc.Checksum;
    var all := entries + [content];
    forall i | 0 <= i < |all|
      ensures all[..i] == if i < |entries| then entries[..i] else entries
    {
    }
  }

  /** The entries, in order; each must be stored where the one before it ends. */
  method ReadEntries(b: Bytes, ghost wanted: seq<Bytes>) returns (r: Option<seq<Bytes>>, records: seq<Record>, at: nat)
    ensures r.Some? ==>
      && |r.value| == ENTRY_COUNT && InBounds(r.value)
      && at == |LocalPart(r.value)| && At(b, 0, LocalPart(r.value)) && Records(r.value, records)
    ensures |wanted| == ENTRY_COUNT && InBounds(wanted) && At(b, 0, LocalPart(wanted)) ==> r == Some(wanted)
  {
    hide At, LocalPart, Piece, Records, EntryName, Crc.Checksum;
    ghost var fits := |wanted| == ENTRY_COUNT && InBounds(wanted) && At(b, 0, LocalPart(wanted));
    var entries: seq<Bytes> := [];
    records, at := [], 0;
    StartsEmpty(b);
    for i := 0 to ENTRY_COUNT
      invariant |entries| == i && InBounds(entries)
      invariant at == |LocalPart(entries)| <= |b| && At(b, 0, LocalPart(entries)) && Records(entries, records)
      invariant fits ==> entries == wanted[..i]
    {
      if at > U32_MAX {
        LocalPartFits(entries);
        return None, records, at;
      }
      if fits {
        LocalPieces(b, wanted, i);
      }
      var content, crc := ReadEntry(b, at, i, if fits then wanted[i] else []);
      if content.None? {
        return None, records, at;
      }
      RecordsGrow(entries, records, content.value);
      EntryAdded(b, entries, content.value);
      records := records + [Record(at, crc, |content.value|)];
      entries := entries + [content.value];
      at := at + 30 + |EntryName(i)| + |content.value|;
    }
    assert fits ==> wanted[..ENTRY_COUNT] == wanted;
    r := Some(entries);
  }

  lemma StartsEmpty(b: Bytes)
    ensures At(b, 0, LocalPart([])) && LocalPart([]) == [] && Records([], [])
  {
  }

  lemma EntryAdded(b: Bytes, entries: seq<Bytes>, content: Bytes)
    requires |entries| < ENTRY_COUNT && At(b, 0, LocalPart(entries))
    requires At(b, |LocalPart(entries)|, Piece(|entries|, content))
    ensures At(b, 0, LocalPart(entries + [content])) && |LocalPart(entries + [content])| <= |b|
    ensures |LocalPart(entries + [content])| == |LocalPart(entries)| + 30 + |EntryName(|entries|)| + |content|
  {
    hide LocalPart, Piece, EntryName;
    LocalSnoc(entries + [content]);
    assert (entries + [content])[..|entries|] == entries;
    AtConcat(b, 0, LocalPart(entries), Piece(|entries|, content));
  }

  /** The central directory must repeat what was read of each entry. */
  method ReadCentral(b: Bytes, entries: seq<Bytes>, records: seq<Record>, base: nat) returns (ok: bool, at: nat)
    requires |entries| == ENTRY_COUNT && InBounds(entries) && Records(entries, records) && base <= U32_MAX
    ensures ok <==> At(b, base, CentralPart(entries, ENTRY_COUNT))
    ensures ok ==> at == base + |CentralPart(entries, ENTRY_COUNT)|
  {
    hide At, LocalPart, CentralPart, CentralPiece, CentralAt, EntryName, Crc.Checksum;
    at := base;
    CentralStarts(b, base, entries);
    if base > |b| {
      return false, at;
    }
    for i := 0 to ENTRY_COUNT
      invariant at == base + |CentralPart(entries, i)| && At(b, base, CentralPart(entries, i))
    {
      CentralChecked(b, at, entries, i, records);
      if !CentralAt(b, at, i, records[i].crc, records[i].size, records[i].offset) {
        if At(b, base, CentralPart(entries, ENTRY_COUNT)) {
          CentralPieces(b, base, entries, ENTRY_COUNT, i);
        }
        return false, at;
      }
      CentralSnoc(entries, i + 1);
      AtConcat(b, base, CentralPart(entries, i), CentralPiece(entries, i));
      at := at + 46 + |EntryName(i)|;
    }
    ok := true;
  }

  lemma CentralStarts(b: Bytes, base: nat, entries: seq<Bytes>)
    requires |entries| == ENTRY_COUNT
    ensures CentralPart(entries, 0) == [] && (base <= |b| <==> At(b, base, CentralPart(entries, 0)))
    ensures At(b, base, CentralPart(entries, ENTRY_COUNT)) ==> base <= |b|
  {
    hide CentralPiece;
  }

  lemma CentralChecked(b: Bytes, at: nat, entries: seq<Bytes>, i: nat, records: seq<Record>)
    requires |entries| == ENTRY_COUNT && InBounds(entries) && Records(entries, records) && i < ENTRY_COUNT
    ensures CentralAt(b, at, i, records[i].crc, records[i].size, records[i].offset)
            <==> At(b, at, CentralPiece(entries, i))
  {
    hide At, LocalPart, CentralHeader, CentralAt, Crc.Checksum;
    LocalPartFits(entries[..i]);
    CentralFields(b, at, i, records[i].crc, records[i].size, records[i].offset);
  }

  /**
   The verifier accepts a byte string exactly when it is the layout of five good entries, and then it has found
   those entries: `wanted` stands for any five entries.
   */
  method Verify(sha: Bytes -> Bytes, acceptable: seq<Bytes> -> bool, b: Bytes, ghost wanted: seq<Bytes>)
    returns (r: Option<seq<Bytes>>)
    ensures r.Some? ==> Good(sha, acceptable, r.value) && b == Layout(r.value)
    ensures |wanted| == ENTRY_COUNT && InBounds(wanted) && b == Layout(wanted) ==>
              r == if Good(sha, acceptable, wanted) then Some(wanted) else None
  {
    hide At, Layout, LocalPart, CentralPart, Records, EndRecord, EndAt, ChecksumDocument;
    if |wanted| == ENTRY_COUNT && InBounds(wanted) {
      LayoutParts(b, wanted);
    }
    var entries, records, base := ReadEntries(b, wanted);
    if entries.None? {
      return None;
    }
    var found := entries.value;
    if found[4] != ChecksumDocument(sha, found[..4]) || !acceptable(found) {
      return None;
    }
    LocalPartFits(found);
    CentralPartFits(found, ENTRY_COUNT);
    LayoutParts(b, found);
    var ok, at := ReadCentral(b, found, records, base);
    if !ok {
      return None;
    }
    EndFields(b, at, at - base, base);
    if !EndAt(b, at, at - base, base) || at + 22 != |b| {
      return None;
    }
    r := Some(found);
  }

  // The writer.

  class PackageWriter {
    var output: Bytes
    var central: seq<Record>
    ghost var entries: seq<Bytes>

    ghost predicate Valid()
      reads this
    {
      InBounds(entries) && output == LocalPart(entries) && Records(entries, central)
    }

    constructor ()
      ensures Valid() && entries == []
    {
      output, central, entries := [], [], [];
    }

    /** Write the local header and bytes of the next entry; its offset and size always fit their 32-bit fields. */
    method WriteEntry(content: Bytes)
      requires Valid() && InBounds(entries + [content])
      modifies this
      ensures Valid() && entries == old(entries) + [content]
      ensures |old(output)| <= U32_MAX && |content| <= U32_MAX
    {
      hide LocalPart, Records, LocalHeader, Crc.FeedAll, Crc.Start, Crc.Finish;
      LocalPartFits(entries);
      RecordCount(entries, central);
      assert (entries + [content])[|entries|] == content;
      var offset := |output|;
      var register := Crc.Update(Crc.Start(), content);
      var crc, i := Crc.Finish(register), |central|;
      output := output + (LocalHeader(i, crc, |content|) + content);
      RecordsGrow(entries, central, content);
      LocalSnoc(entries + [content]);
      assert (entries + [content])[..|entries|] == entries;
      central := central + [Record(offset, crc, |content|)];
      entries := entries + [content];
    }

    /** Write the central directory and the end record after the fifth entry. */
    method WriteCentralDirectory() returns (ok: bool)
      requires Valid()
      modifies this`output
      ensures ok <==> |entries| == ENTRY_COUNT
      ensures ok ==> output == Layout(entries)
    {
      hide LocalPart, CentralPart, CentralPiece, Records, CentralHeader, EndRecord, EntryName, Layout;
      RecordCount(entries, central);
      if |central| != ENTRY_COUNT {
        return false;
      }
      LocalPartFits(entries);
      ghost var local := output;
      var base := |output|;
      NoParts();
      for i := 0 to ENTRY_COUNT
        invariant output == local + CentralPart(entries, i)
      {
        var record := central[i];
        CentralSnoc(entries, i + 1);
        RecordAt(entries, central, i);
        Regroup(local, CentralPart(entries, i), CentralPiece(entries, i));
        output := output + CentralHeader(i, record.crc, record.size, record.offset);
      }
      var size := |output| - base;
      Regroup(local, CentralPart(entries, ENTRY_COUNT), EndRecord(size, base));
      LayoutIs(entries);
      output := output + EndRecord(size, base);
      ok := true;
    }
  }

  lemma LayoutIs(entries: seq<Bytes>)
    requires |entries| == ENTRY_COUNT
    ensures var central := CentralPart(entries, ENTRY_COUNT);
            Layout(entries) == LocalPart(entries) + (central + EndRecord(|central|, |LocalPart(entries)|))
  {
  }

  lemma RecordCount(entries: seq<Bytes>, records: seq<Record>)
    requires Records(entries, records)
    ensures |records| == |entries|
  {
  }

  lemma RecordAt(entries: seq<Bytes>, records: seq<Record>, i: nat)
    requires Records(entries, records) && i < |entries|
    ensures i < |records|
    ensures CentralPiece(entries, i) == CentralHeader(i, records[i].crc, records[i].size, records[i].offset)
  {
  }

  lemma {:induction false} ChecksumsFit(sha: Bytes -> Bytes, entries: seq<Bytes>)
    requires |entries| <= ENTRY_COUNT && forall x :: |sha(x)| == 32
    ensures |ChecksumDocument(sha, entries)| <= |entries| * 85
  {
    hide EntryName;
    if entries != [] {
      ChecksumsFit(sha, entries[..|entries| - 1]);
    }
  }

  /** The signatures are the letters PK and two numbers. */
  lemma Signatures()
    ensures U32(LOCAL_SIGNATURE) == [80, 75, 3, 4] && U32(CENTRAL_SIGNATURE) == [80, 75, 1, 2]
    ensures U32(END_SIGNATURE) == [80, 75, 5, 6]
  {
    hide ToBytes;
    FourBytes(LOCAL_SIGNATURE);
    FourBytes(CENTRAL_SIGNATURE);
    FourBytes(END_SIGNATURE);
  }
}
