/** Writing, opening and listing an archive with the C implementation and the `plain` format, which is the
    identity (scar-c/src/scar-writer.c, scar-c/src/scar-reader.c, scar-c/src/compression/plain.c). */
module CArchive {
  import opened Bytes
  import opened Decimal
  import opened PaxHeader
  import opened Sections
  import opened CStream

  // ---------------------------------------------------------------- what the writer produces

  /** One entry: its type, its path, the tar bytes that `scar_pax_write_entry` puts out for it, and what
      `scar_io_printf` delivered for its line of the index. */
  datatype Entry = Entry(ft: FileType, path: bytes, tar: bytes, printed: bytes)

  /** What the format "%c %lld %s\n" stands for. */
  function Line(ft: FileType, path: bytes, offset: nat): bytes {
    [TypeChar(ft), SPACE] + Digits(offset) + [SPACE] + path + [LINE_FEED]
  }

  /** The longest text that `scar_io_vprintf` formats in its first attempt. For a longer one it formats a
      second time from an argument list that the first attempt has used up, so nothing is known of the result. */
  const MAX_PRINTED: nat := 127

  predicate PrintedAs(text: bytes, printed: bytes) {
    |text| <= MAX_PRINTED ==> printed == text
  }

  const CHECKPOINT_LIMIT: nat := 10 * 1024 * 1024
  const EOF_MARKER: bytes := [83, 67, 65, 82, 45, 69, 79, 70, 10]

  datatype CState = CState(body: bytes, index: bytes, table: seq<Checkpoint>, last: nat)

  const START := CState([], [], [], 0)

  function Checkpointed(s: CState): CState {
    s.(table := s.table + [Checkpoint(|s.body|, |s.body|)], last := |s.body|)
  }

  /** A line of the index behind its own length. */
  function Framed(line: bytes): bytes {
    Digits(SelfLength(1 + |line|)) + [SPACE] + line
  }

  function Added(s: CState, e: Entry): CState {
    var s1 := if |s.body| > s.last + CHECKPOINT_LIMIT then Checkpointed(s) else s;
    s1.(index := s1.index + Framed(e.printed), body := s1.body + e.tar)
  }

  function Run(entries: seq<Entry>): CState {
    if entries == [] then START else Added(Run(entries[..|entries| - 1]), entries[|entries| - 1])
  }

  /** The tar body, with the two zero blocks at its end. */
  function Body(s: CState): bytes {
    s.body + Zeros(2 * BLOCK_SIZE)
  }

  function IndexSection(s: CState): bytes {
    INDEX_HEADER + s.index
  }

  function CheckpointSection(s: CState): bytes {
    CHECKPOINTS_HEADER + CheckpointsText(s.table)
  }

  function IndexOffset(s: CState): nat {
    |Body(s)|
  }

  function CheckpointsOffset(s: CState): nat {
    |Body(s)| + |IndexSection(s)|
  }

  function FinishedFile(s: CState): bytes {
    Body(s) + IndexSection(s) + CheckpointSection(s) + TailText(IndexOffset(s), CheckpointsOffset(s)) + EOF_MARKER
  }

  lemma CheckpointsTextPush(table: seq<Checkpoint>, c: Checkpoint)
    ensures CheckpointsText(table + [c]) == CheckpointsText(table) + CheckpointText(c)
  {
    hide CheckpointText;
    if table == [] {
      assert [c][1..] == [];
      assert table + [c] == [c];
      assert CheckpointText(c) + [] == CheckpointText(c);
    } else {
      assert (table + [c])[1..] == table[1..] + [c];
      CheckpointsTextPush(table[1..], c);
    }
  }

  /** `scar_io_vprintf`, with the text that its format and arguments stand for. */
  method ScarIoPrintf(text: bytes) returns (printed: bytes)
    ensures PrintedAs(text, printed)
  {
    if |text| <= MAX_PRINTED {
      return text;
    }
    printed := *;
  }

  /** The two pieces in which `scar_writer_write_entry` prints an index entry. */
  method PrintIndexEntry(ft: FileType, path: bytes, offset: nat) returns (head: bytes, entryBuf: bytes)
    ensures PrintedAs(Line(ft, path, offset), entryBuf)
    ensures head + entryBuf == Framed(entryBuf)
  {
    hide TypeChar, Digits;
    entryBuf := ScarIoPrintf([TypeChar(ft), SPACE] + Digits(offset) + [SPACE] + path + [LINE_FEED]);
    var fieldSize := 1 + |entryBuf|;
    var fieldSizeLen := CLog10Ceil(fieldSize);
    var corrected := CLog10Ceil(fieldSize + fieldSizeLen);
    if corrected > fieldSizeLen {
      fieldSizeLen := fieldSizeLen + 1;
    }
    fieldSize := fieldSize + fieldSizeLen;
    head := Digits(fieldSize) + [SPACE];
  }

  lemma IndexGrows(index: bytes, head: bytes, line: bytes)
    ensures INDEX_HEADER + index + head + line == INDEX_HEADER + (index + (head + line))
  {
  }

  /** `struct scar_writer`, with both compressors of the `plain` format written through. */
  class ScarWriter {
    var out: bytes                                 // what the backing writer has received
    var compressedCount: nat
    var uncompressedCount: nat
    var lastCheckpointUncompressedOffset: nat
    var indexBuf: MemWriter
    var checkpointsBuf: MemWriter
    ghost var now: CState

    ghost predicate Valid()
      reads this, indexBuf, indexBuf.buf, checkpointsBuf, checkpointsBuf.buf
    {
      && indexBuf != checkpointsBuf && indexBuf.buf != checkpointsBuf.buf
      && indexBuf.Valid() && checkpointsBuf.Valid()
      && out == now.body
      && compressedCount == |out| && uncompressedCount == |out|
      && lastCheckpointUncompressedOffset == now.last
      && indexBuf.Contents() == IndexSection(now)
      && checkpointsBuf.Contents() == CheckpointSection(now)
    }

    constructor ()
      ensures Valid() && now == START
      ensures fresh(indexBuf) && fresh(checkpointsBuf) && fresh(indexBuf.buf) && fresh(checkpointsBuf.buf)
    {
      out := [];
      compressedCount, uncompressedCount, lastCheckpointUncompressedOffset := 0, 0, 0;
      now := START;
      var index := new MemWriter();
      var checkpoints := new MemWriter();
      indexBuf, checkpointsBuf := index, checkpoints;
      new;
      indexBuf.Write(INDEX_HEADER);
      checkpointsBuf.Write(CHECKPOINTS_HEADER);
      assert [] + INDEX_HEADER == INDEX_HEADER + [];
      assert [] + CHECKPOINTS_HEADER == CHECKPOINTS_HEADER + [];
    }

    /** A write through the counting writers. */
    method WriteOut(data: bytes)
      modifies this`out, this`compressedCount, this`uncompressedCount
      ensures out == old(out) + data
      ensures compressedCount == old(compressedCount) + |data|
      ensures uncompressedCount == old(uncompressedCount) + |data|
    {
      out := out + data;
      compressedCount := compressedCount + |data|;
      uncompressedCount := uncompressedCount + |data|;
    }

    /** `create_checkpoint` */
    method CreateCheckpoint()
      requires Valid()
      modifies this, checkpointsBuf, checkpointsBuf.buf
      ensures Valid() && now == Checkpointed(old(now))
      ensures indexBuf == old(indexBuf) && indexBuf.buf == old(indexBuf.buf)
      ensures checkpointsBuf == old(checkpointsBuf)
      ensures checkpointsBuf.buf == old(checkpointsBuf.buf) || fresh(checkpointsBuf.buf)
    {
      hide CheckpointText, CheckpointsText;
      lastCheckpointUncompressedOffset := uncompressedCount;
      var c := Checkpoint(compressedCount, uncompressedCount);
      CheckpointsTextPush(now.table, c);
      checkpointsBuf.Write(CheckpointText(c));
      now := Checkpointed(now);
      assert CheckpointSection(old(now)) + CheckpointText(c) == CheckpointSection(now);
    }

    /** `scar_writer_write_entry` */
    method WriteEntry(ft: FileType, path: bytes, tar: bytes) returns (ghost e: Entry)
      requires Valid()
      modifies this, indexBuf, indexBuf.buf, checkpointsBuf, checkpointsBuf.buf
      ensures Valid() && now == Added(old(now), e)
      ensures e == Entry(ft, path, tar, e.printed) && PrintedAs(Line(ft, path, |old(now).body|), e.printed)
      ensures indexBuf == old(indexBuf) && checkpointsBuf == old(checkpointsBuf)
      ensures indexBuf.buf == old(indexBuf.buf) || fresh(indexBuf.buf)
      ensures checkpointsBuf.buf == old(checkpointsBuf.buf) || fresh(checkpointsBuf.buf)
    {
      hide CheckpointsText, CheckpointText, Framed, Line;
      if uncompressedCount > lastCheckpointUncompressedOffset + CHECKPOINT_LIMIT {
        CreateCheckpoint();
      }
      ghost var before := now;
      var head, entryBuf := PrintIndexEntry(ft, path, uncompressedCount);
      indexBuf.Write(head);
      indexBuf.Write(entryBuf);
      WriteOut(tar);
      e := Entry(ft, path, tar, entryBuf);
      now := before.(index := before.index + Framed(entryBuf), body := before.body + tar);
      IndexGrows(before.index, head, entryBuf);
    }

    /** `scar_writer_finish` */
    method Finish() returns (file: bytes)
      requires Valid()
      modifies this
      ensures file == FinishedFile(old(now))
    {
      hide CheckpointsText, TailText;
      WriteOut(Zeros(BLOCK_SIZE));
      WriteOut(Zeros(BLOCK_SIZE));
      assert Zeros(BLOCK_SIZE) + Zeros(BLOCK_SIZE) == Zeros(2 * BLOCK_SIZE);
      assert out == Body(now);
      var indexCompressedOffset := compressedCount;
      var checkpointsCompressedOffset := indexCompressedOffset + indexBuf.len;
      file := out + indexBuf.buf[..indexBuf.len] + checkpointsBuf.buf[..checkpointsBuf.len];
      file := file + TailText(indexCompressedOffset, checkpointsCompressedOffset);
      file := file + EOF_MARKER;
    }
  }

  /** A line that is printed as it should be makes the index entry of the Rust writer. */
  lemma SameEntryText(ft: FileType, path: bytes, offset: nat)
    ensures Framed(Line(ft, path, offset)) == EntryText(IndexEntry(offset, TypeChar(ft), path))
  {
    hide Digits, SelfLength, TypeChar;
    var e := IndexEntry(offset, TypeChar(ft), path);
    TypeRoundTrip(ft);
    assert EntryTail(e) == [SPACE] + Line(ft, path, offset);
  }

  // ---------------------------------------------------------------- runs

  /** The tar body of a run. */
  function TarOf(entries: seq<Entry>): bytes {
    if entries == [] then [] else TarOf(entries[..|entries| - 1]) + entries[|entries| - 1].tar
  }

  function LineAt(entries: seq<Entry>, i: nat): bytes
    requires i < |entries|
  {
    Line(entries[i].ft, entries[i].path, |TarOf(entries[..i])|)
  }

  /** A run as it can happen: every line is printed as `scar_io_vprintf` prints it. */
  predicate Possible(entries: seq<Entry>) {
    forall i | 0 <= i < |entries| :: PrintedAs(LineAt(entries, i), entries[i].printed)
  }

  /** Every line is short enough to be printed as it should be. */
  predicate ShortLines(entries: seq<Entry>) {
    forall i | 0 <= i < |entries| :: |LineAt(entries, i)| <= MAX_PRINTED
  }

  /** The guard in terms of what a caller knows: the offset of the entry and the length of its path. */
  lemma LineLength(entries: seq<Entry>, i: nat)
    requires i < |entries|
    ensures |LineAt(entries, i)| == 4 + |Digits(|TarOf(entries[..i])|)| + |entries[i].path|
  {
  }

  /** At the start of an archive, 122 bytes is the longest path whose line is short. */
  lemma LongestFirstPath(e: Entry)
    ensures ShortLines([e]) <==> |e.path| <= 122
  {
    LineLength([e], 0);
    assert [e][..0] == [];
  }
}
