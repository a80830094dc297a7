/** `ScarWriter`: the writer with its counters, proved to follow the steps of `Archive`
    (scar-rs/scar/src/write.rs). */
module Writer {
  import opened Bytes
  import opened Decimal
  import opened PaxRecords
  import opened PaxHeader
  import opened PaxIO
  import opened Codec
  import opened Sections
  import opened Archive
  import opened Cursor

  class ScarWriter {
    const codec: Codec
    var sink: bytes                      // what has reached the underlying writer
    var ops: seq<Op>                     // what the open compressor was given
    var compressedLoc: nat
    var rawLoc: nat
    var checkpoints: seq<Checkpoint>
    var scarIndex: seq<IndexEntry>
    var lastCheckpointCompressedLoc: nat
    ghost var members: seq<seq<Op>>      // what the finished compressors were given

    ghost function Now(): State
      reads this
    {
      State(members, ops, scarIndex)
    }

    /** The counters are exact: `compressedLoc` counts the bytes passed on, `rawLoc` the bytes taken in,
        and every checkpoint pair is the end of a member. */
    ghost predicate Valid()
      reads this
    {
      && Appends(codec)
      && sink == FileSoFar(codec, Now())
      && compressedLoc == |sink|
      && rawLoc == |RawBody(Now())|
      && checkpoints == Boundaries(codec, members)
      && lastCheckpointCompressedLoc == |Encoded(codec, members)|
    }

    constructor (codec: Codec)
      requires Appends(codec)
      ensures Valid() && Now() == INITIAL && this.codec == codec
    {
      this.codec := codec;
      sink := codec.emitted([]);
      ops := [];
      compressedLoc := |codec.emitted([])|;
      rawLoc := 0;
      checkpoints := [];
      scarIndex := [];
      lastCheckpointCompressedLoc := 0;
      members := [];
    }

    /** The open compressor takes one more step; what it emits is counted by `TrackedWrite`. */
    method Step(op: Op)
      requires Valid()
      modifies this`sink, this`ops, this`compressedLoc, this`rawLoc
      ensures Valid() && Now() == old(Now()).(ops := old(ops) + [op])
    {
      hide Encoded, RawOf, Raw;
      RawPush(ops, op);
      assert codec.emitted(ops) <= codec.emitted(ops + [op]);
      var emitted := codec.emitted(ops + [op])[|codec.emitted(ops)|..];
      ops := ops + [op];
      sink := sink + emitted;
      compressedLoc := compressedLoc + |emitted|;
      if op.Write? {
        rawLoc := rawLoc + |op.data|;
      }
    }

    /** `self.w.write_all` */
    method WriteAll(data: bytes)
      requires Valid()
      modifies this`sink, this`ops, this`compressedLoc, this`rawLoc
      ensures Valid() && Now() == Put(old(Now()), data)
    {
      hide ScarWriter.Valid;
      Step(Op.Write(data));
    }

    /** `checkpoint` */
    method MakeCheckpoint()
      requires Valid()
      modifies this
      ensures Valid() && Now() == Checkpointed(old(Now()))
    {
      hide Encoded, RawOf, Raw, Boundaries;
      Step(Flush);
      assert codec.emitted(ops) <= codec.member(ops);
      var emitted := codec.member(ops)[|codec.emitted(ops)|..];
      sink := sink + emitted;
      compressedLoc := compressedLoc + |emitted|;
      lastCheckpointCompressedLoc := compressedLoc;
      checkpoints := checkpoints + [Checkpoint(compressedLoc, rawLoc)];
      ClosedMember(codec, members, ops);
      members := members + [ops];
      ops := [];
      RawNothing();
      sink := sink + codec.emitted([]);
      compressedLoc := compressedLoc + |codec.emitted([])|;
    }

    /** `consider_checkpoint` */
    method ConsiderCheckpoint()
      requires Valid()
      modifies this
      ensures Valid() && Now() == Considered(codec, old(Now()))
    {
      hide Encoded, RawOf, Raw, Boundaries;
      Step(Flush);
      if compressedLoc - lastCheckpointCompressedLoc > CHECKPOINT_INTERVAL {
        MakeCheckpoint();
      }
    }

    /** `pax::write_content`, reading from a byte slice */
    method WriteSlice(content: bytes)
      requires Valid()
      modifies this`sink, this`ops, this`compressedLoc, this`rawLoc
      ensures Valid() && Now() == PutBlocks(old(Now()), Padded(content))
    {
      hide ScarWriter.Valid, PutBlocks;
      var r := content;
      ghost var was := Now();
      ghost var done: bytes := [];
      PutNoBlocks(was);
      while |r| >= BLOCK_SIZE
        invariant Valid()
        invariant done + r == content && |done| % BLOCK_SIZE == 0
        invariant Now() == PutBlocks(was, done)
      {
        PutBlocksPush(was, done, r[..BLOCK_SIZE]);
        WriteAll(r[..BLOCK_SIZE]);
        done := done + r[..BLOCK_SIZE];
        r := r[BLOCK_SIZE..];
      }
      PaddedTail(content, done, r);
      if |r| > 0 {
        PutBlocksPush(was, done, r + Zeros(BLOCK_SIZE - |r|));
        WriteAll(r + Zeros(BLOCK_SIZE - |r|));
      }
    }

    /** `pax::write_content`, reading from a reader; fails when the reader ends early. */
    method WriteContent(r: Decoder, size: nat) returns (ok: bool)
      requires Valid() && r.Valid() && r.InSync()
      modifies this`sink, this`ops, this`compressedLoc, this`rawLoc, r, r.file
      ensures Valid() && r.Valid() && r.InSync()
      ensures ok <==> size <= |old(r.Remaining())|
      ensures ok ==> Now() == PutBlocks(old(Now()), Padded(old(r.Remaining())[..size]))
      ensures ok ==> r.Remaining() == old(r.Remaining())[size..]
    {
      hide ScarWriter.Valid, PutBlocks, Padded, Put, Decoder.Valid, Decoder.InSync, Decoder.Remaining;
      var count: nat := size;
      ghost var s, was := r.Remaining(), Now();
      ghost var done: bytes := [];
      PutNoBlocks(was);
      while count >= BLOCK_SIZE
        invariant Valid() && r.Valid() && r.InSync()
        invariant |done| + count == size && |done| <= |s| && |done| % BLOCK_SIZE == 0
        invariant done == s[..|done|] && r.Remaining() == s[|done|..]
        invariant Now() == PutBlocks(was, done)
      {
        var block := r.ReadExact(BLOCK_SIZE);
        if block.None? {
          return false;
        }
        PutBlocksPush(was, done, block.value);
        WriteAll(block.value);
        TakeMore(s, |done|, BLOCK_SIZE);
        done := done + block.value;
        count := count - BLOCK_SIZE;
      }
      if count > 0 {
        var block := r.ReadExact(count);
        if block.None? {
          return false;
        }
        TakeMore(s, |done|, count);
        PaddedTail(s[..size], done, block.value);
        var last := block.value + Zeros(BLOCK_SIZE - count);
        PutBlocksPush(was, done, last);
        WriteAll(last);
      } else {
        PaddedTail(s[..size], done, []);
      }
      return true;
    }

    /** `pax::write_raw_entry` */
    method WriteRawEntry(typeflag: byte, content: bytes)
      requires Valid()
      modifies this`sink, this`ops, this`compressedLoc, this`rawLoc
      ensures Valid() && |RawEntry(typeflag, content)| % BLOCK_SIZE == 0
      ensures Now() == PutBlocks(old(Now()), RawEntry(typeflag, content))
    {
      hide ScarWriter.Valid, PutBlocks, Seal, PutOctal;
      ghost var was := Now();
      var block := BuildRawBlock(typeflag, |content|);
      WriteAll(block[..]);
      PutOneBlock(was, block[..]);
      WriteSlice(content);
      PutBlocksAppend(was, block[..], Padded(content));
    }

    /** `pax::write_header` */
    method WriteHeaderOf(meta: Metadata)
      requires Valid()
      modifies this`sink, this`ops, this`compressedLoc, this`rawLoc
      ensures Valid() && |WriteHeader(meta)| % BLOCK_SIZE == 0
      ensures Now() == PutBlocks(old(Now()), WriteHeader(meta))
    {
      hide ScarWriter.Valid, PutBlocks, HeaderBlock, Stringify, Extended, RawEntry;
      WriteHeaderBlocks(meta);
      ghost var was := Now();
      var records := StringifyMeta(Extended(meta));
      if records != [] {
        WriteRawEntry(PAX_NEXT, records);
        PutBlocksAppend(was, RawEntry(PAX_NEXT, records), HeaderBlock(meta));
      } else {
        assert WriteHeader(meta) == HeaderBlock(meta);
      }
      var block := BuildHeaderBlock(meta);
      PutOneBlock(Now(), block[..]);
      WriteAll(block[..]);
    }

    method AddEntry(meta: Metadata)
      requires Valid()
      modifies this
      ensures Valid() && Now() == Archive.AddEntry(codec, old(Now()), meta)
    {
      hide WriteHeader, Considered, PutBlocks;
      ConsiderCheckpoint();
      scarIndex := scarIndex + [IndexEntry(rawLoc, TypeChar(meta.typeflag), meta.path)];
      WriteHeaderOf(meta);
    }

    /** Adds a file whose content comes from a reader; fails when the reader is too short. */
    method AddFile(r: Decoder, meta: Metadata) returns (ok: bool)
      requires Valid() && r.Valid() && r.InSync()
      modifies this, r, r.file
      ensures Valid() && r.Valid() && r.InSync()
      ensures ok <==> meta.size <= |old(r.Remaining())|
      ensures ok ==> Now() == AddItem(codec, old(Now()), RawItem.Item(meta, Padded(old(r.Remaining())[..meta.size])))
      ensures ok ==> r.Remaining() == old(r.Remaining())[meta.size..]
    {
      hide ScarWriter.Valid, PutBlocks, Decoder.Valid, Decoder.InSync, Decoder.Remaining, Archive.AddEntry;
      AddEntry(meta);
      ok := WriteContent(r, meta.size);
    }

    /** `write_block` */
    method WriteBlock(block: bytes)
      requires Valid() && |block| == BLOCK_SIZE
      modifies this`sink, this`ops, this`compressedLoc, this`rawLoc
      ensures Valid() && Now() == Put(old(Now()), block)
    {
      hide ScarWriter.Valid;
      WriteAll(block);
    }

    /** `write_entry` */
    method WriteIndexEntry(e: IndexEntry)
      requires Valid()
      modifies this`sink, this`ops, this`compressedLoc, this`rawLoc
      ensures Valid() && Now() == PutEntry(old(Now()), e)
    {
      hide ScarWriter.Valid;
      var rawLocDigits := Log10Ceil(e.rawLoc);
      var len := 3 + rawLocDigits + 1 + |e.data| + 1;
      var numDigits := Log10Ceil(len);
      var corrected := Log10Ceil(len + numDigits);
      if corrected > numDigits {
        numDigits := numDigits + 1;
      }
      WriteAll(Digits(numDigits + len) + [SPACE, e.typeflag, SPACE] + Digits(e.rawLoc) + [SPACE]);
      WriteAll(e.data);
      if e.typeflag != PAX_GLOBAL {
        WriteAll([LINE_FEED]);
      }
    }

    /** `finish`: the complete file. */
    method Finish() returns (file: bytes)
      requires Valid()
      modifies this
      ensures file == FinishedFile(codec, old(Now()))
    {
      hide ScarWriter.Valid, Encoded, Boundaries, PutEntries, PutTable, PutEntry, CheckpointText, TailText;
      var block := Zeros(BLOCK_SIZE);
      WriteAll(block);
      WriteAll(block);

      MakeCheckpoint();
      ghost var body := Now();
      assert body == Ended(old(Now()));
      LastCheckpoint();
      var indexLoc := checkpoints[|checkpoints| - 1].compressedLoc;
      WriteAll(INDEX_HEADER);
      ghost var before := Now();
      var i := 0;
      while i < |scarIndex|
        invariant Valid() && i <= |scarIndex| && scarIndex == body.index
        invariant PutEntries(Now(), scarIndex[i..]) == PutEntries(before, body.index)
      {
        PutEntriesStep(Now(), scarIndex[i..]);
        assert scarIndex[i..][1..] == scarIndex[i + 1..];
        WriteIndexEntry(scarIndex[i]);
        i := i + 1;
      }
      assert scarIndex[i..] == [];
      PutEntriesStep(Now(), scarIndex[i..]);

      MakeCheckpoint();
      ghost var index := Now();
      assert index == Indexed(body);
      LastCheckpoint();
      var checkpointsLoc := checkpoints[|checkpoints| - 1].compressedLoc;
      WriteAll(CHECKPOINTS_HEADER);
      before := Now();
      TableIs();
      i := 0;
      while i < |checkpoints|
        invariant Valid() && i <= |checkpoints| && checkpoints == Boundaries(codec, index.members)
        invariant PutTable(Now(), checkpoints[i..]) == PutTable(before, checkpoints)
      {
        PutTableStep(Now(), checkpoints[i..]);
        assert checkpoints[i..][1..] == checkpoints[i + 1..];
        WriteAll(CheckpointText(checkpoints[i]));
        i := i + 1;
      }
      assert checkpoints[i..] == [];
      PutTableStep(Now(), checkpoints[i..]);

      MakeCheckpoint();
      ghost var table := Now();
      assert table == Tabled(codec, index);
      WriteAll(TailText(indexLoc, checkpointsLoc));
      assert ops == [Op.Write(TailText(indexLoc, checkpointsLoc))];
      file := FinishLast();
    }

    /** The compressor of the tail is finished, and the end marker follows. */
    method FinishLast() returns (file: bytes)
      requires Valid()
      ensures file == Encoded(codec, members + [ops]) + codec.eofMarker
    {
      hide RawOf, Raw, Boundaries;
      assert codec.emitted(ops) <= codec.member(ops);
      var emitted := codec.member(ops)[|codec.emitted(ops)|..];
      assert (members + [ops])[..|members|] == members;
      file := sink + emitted + codec.eofMarker;
    }

    /** The checkpoint that was just made is the end of the members so far. */
    lemma LastCheckpoint()
      requires Valid() && members != []
      ensures checkpoints != [] && checkpoints[|checkpoints| - 1].compressedLoc == |Encoded(codec, members)|
    {
      hide Encoded, RawOf, Raw;
      assert members[..|members|] == members;
    }

    lemma TableIs()
      requires Valid()
      ensures checkpoints == Boundaries(codec, members)
    {
    }
  }

  lemma ClosedMember(c: Codec, members: seq<seq<Op>>, ops: seq<Op>)
    ensures Encoded(c, members + [ops]) == Encoded(c, members) + c.member(ops)
    ensures RawOf(members + [ops]) == RawOf(members) + Raw(ops)
    ensures Boundaries(c, members + [ops]) == Boundaries(c, members) + [Boundary(c, members + [ops])]
  {
    hide Raw, Encoded, RawOf;
    var all := members + [ops];
    assert all[..|members|] == members && all[..|all|] == all;
    var longer := Boundaries(c, members) + [Boundary(c, all)];
    forall k | 0 <= k < |all|
      ensures Boundaries(c, all)[k] == longer[k]
    {
      if k < |members| {
        assert all[..k + 1] == members[..k + 1];
      }
    }
    ClosedMemberSum(c, members, ops);
  }

  lemma ClosedMemberSum(c: Codec, members: seq<seq<Op>>, ops: seq<Op>)
    ensures Encoded(c, members + [ops]) == Encoded(c, members) + c.member(ops)
    ensures RawOf(members + [ops]) == RawOf(members) + Raw(ops)
  {
    hide Raw;
    assert (members + [ops])[..|members|] == members;
  }

  lemma TakeMore(s: bytes, a: nat, b: nat)
    requires a + b <= |s|
    ensures s[..a + b] == s[..a] + s[a..][..b] && s[a..][b..] == s[a + b..]
  {
  }

  lemma PutNoBlocks(s: State)
    ensures PutBlocks(s, []) == s
  {
  }

  lemma PutBlocksPush(s: State, done: bytes, block: bytes)
    requires |done| % BLOCK_SIZE == 0 && |block| == BLOCK_SIZE
    ensures PutBlocks(s, done + block) == Put(PutBlocks(s, done), block)
  {
    hide PutBlocks;
    PutBlocksAppend(s, done, block);
    PutOneBlock(PutBlocks(s, done), block);
  }

  lemma PaddedTail(content: bytes, done: bytes, r: bytes)
    requires content == done + r && |done| % BLOCK_SIZE == 0 && |r| < BLOCK_SIZE
    ensures Padded(content) == if r == [] then done else done + (r + Zeros(BLOCK_SIZE - |r|))
  {
    PaddedRest(|content|, |done|);
    if r == [] {
      assert Padded(content) == content;
    }
  }

  lemma PutEntriesStep(s: State, entries: seq<IndexEntry>)
    ensures PutEntries(s, entries) == if entries == [] then s else PutEntries(PutEntry(s, entries[0]), entries[1..])
  {
  }

  lemma PutTableStep(s: State, table: seq<Checkpoint>)
    ensures PutTable(s, table) ==
            if table == [] then s else PutTable(Put(s, CheckpointText(table[0])), table[1..])
  {
  }
}
