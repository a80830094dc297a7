/** What the Rust writer produces, as a function of everything it was asked to add: members, index,
    checkpoint table and tail (scar-rs/scar/src/write.rs). */
module Archive {
  import opened Bytes
  import opened Decimal
  import opened PaxRecords
  import opened PaxHeader
  import opened Codec
  import opened Sections

  /** What the writer has done so far: the finished compressors, the open one, and the index. */
  datatype State = State(members: seq<seq<Op>>, ops: seq<Op>, index: seq<IndexEntry>)

  const INITIAL := State([], [], [])

  function Encoded(c: Codec, members: seq<seq<Op>>): bytes {
    if members == [] then [] else Encoded(c, members[..|members| - 1]) + c.member(members[|members| - 1])
  }

  function RawOf(members: seq<seq<Op>>): bytes {
    if members == [] then [] else RawOf(members[..|members| - 1]) + Raw(members[|members| - 1])
  }

  /** Everything that has reached the underlying writer. */
  function FileSoFar(c: Codec, s: State): bytes {
    Encoded(c, s.members) + c.emitted(s.ops)
  }

  /** Everything that was written into compressors. */
  function RawBody(s: State): bytes {
    RawOf(s.members) + Raw(s.ops)
  }

  function Boundary(c: Codec, members: seq<seq<Op>>): Checkpoint {
    Checkpoint(|Encoded(c, members)|, |RawOf(members)|)
  }

  /** The ends of all finished members. */
  function Boundaries(c: Codec, members: seq<seq<Op>>): (cs: seq<Checkpoint>)
    ensures |cs| == |members|
    ensures forall k | 0 <= k < |cs| :: cs[k] == Boundary(c, members[..k + 1])
  {
    seq(|members|, k requires 0 <= k < |members| => Boundary(c, members[..k + 1]))
  }

  // ---------------------------------------------------------------- the steps of the writer

  const CHECKPOINT_INTERVAL: nat := 1024 * 1024

  function Put(s: State, data: bytes): State {
    s.(ops := s.ops + [Write(data)])
  }

  /** `checkpoint`: flush and finish the open compressor, and start another. */
  function Checkpointed(s: State): State {
    State(s.members + [s.ops + [Flush]], [], s.index)
  }

  /** `consider_checkpoint`: flush, and restart once more than the interval has been emitted. */
  function Considered(c: Codec, s: State): State {
    var f := s.(ops := s.ops + [Flush]);
    if |FileSoFar(c, f)| - |Encoded(c, f.members)| > CHECKPOINT_INTERVAL then Checkpointed(f) else f
  }

  function PutBlocks(s: State, data: bytes): State
    requires |data| % BLOCK_SIZE == 0
    decreases |data|
  {
    if data == [] then s else PutBlocks(Put(s, data[..BLOCK_SIZE]), data[BLOCK_SIZE..])
  }

  function EntryFor(s: State, meta: Metadata): IndexEntry {
    IndexEntry(|RawBody(s)|, TypeChar(meta.typeflag), meta.path)
  }

  lemma RawEntryBlocks(typeflag: byte, content: bytes)
    ensures |RawEntry(typeflag, content)| == BLOCK_SIZE + PaddedLength(|content|)
  {
    hide Seal, PaddedLength, PutOctal;
  }

  lemma WriteHeaderBlocks(meta: Metadata)
    ensures |WriteHeader(meta)| % BLOCK_SIZE == 0 && |WriteHeader(meta)| > 0
  {
    hide RawEntry, HeaderBlock, Stringify, Extended, PaddedLength;
    var records := Stringify(Extended(meta));
    RawEntryBlocks(PAX_NEXT, records);
    var p := PaddedLength(|records|);
    assert (BLOCK_SIZE + p) % BLOCK_SIZE == 0;
    assert (BLOCK_SIZE + p + BLOCK_SIZE) % BLOCK_SIZE == 0;
  }

  function AddEntry(c: Codec, s: State, meta: Metadata): State {
    var s1 := Considered(c, s);
    WriteHeaderBlocks(meta);
    PutBlocks(s1.(index := s1.index + [EntryFor(s1, meta)]), WriteHeader(meta))
  }

  /** One entry as it is added: a header, then whole blocks of content. */
  datatype RawItem = Item(meta: Metadata, blocks: bytes)

  predicate WholeBlocks(item: RawItem) {
    |item.blocks| % BLOCK_SIZE == 0
  }

  type Item = item: RawItem | WholeBlocks(item) witness RawItem.Item(NO_METADATA, [])

  function EntryBytes(item: Item): bytes {
    WriteHeader(item.meta) + item.blocks
  }

  function AddItem(c: Codec, s: State, item: Item): State {
    PutBlocks(AddEntry(c, s, item.meta), item.blocks)
  }

  /** The writer after a run of additions. */
  function Run(c: Codec, items: seq<Item>): State {
    if items == [] then INITIAL else AddItem(c, Run(c, items[..|items| - 1]), items[|items| - 1])
  }

  function PutEntry(s: State, e: IndexEntry): State {
    var prefix := Digits(DeclaredLength(e)) + [SPACE, e.typeflag, SPACE] + Digits(e.rawLoc) + [SPACE];
    var s1 := Put(Put(s, prefix), e.data);
    if e.typeflag == PAX_GLOBAL then s1 else Put(s1, [LINE_FEED])
  }

  function PutEntries(s: State, entries: seq<IndexEntry>): State
    decreases |entries|
  {
    if entries == [] then s else PutEntries(PutEntry(s, entries[0]), entries[1..])
  }

  function PutTable(s: State, table: seq<Checkpoint>): State
    decreases |table|
  {
    if table == [] then s else PutTable(Put(s, CheckpointText(table[0])), table[1..])
  }

  /** The end of the tar body, up to the start of the index member. */
  function Ended(s: State): State {
    Checkpointed(Put(Put(s, Zeros(BLOCK_SIZE)), Zeros(BLOCK_SIZE)))
  }

  function Indexed(s: State): State {
    Checkpointed(PutEntries(Put(s, INDEX_HEADER), s.index))
  }

  function Tabled(c: Codec, s: State): State {
    Checkpointed(PutTable(Put(s, CHECKPOINTS_HEADER), Boundaries(c, s.members)))
  }

  /** All members of the finished file. */
  function FinishedMembers(c: Codec, s: State): seq<seq<Op>> {
    var body := Ended(s);
    var index := Indexed(body);
    var table := Tabled(c, index);
    table.members + [[Write(TailText(|Encoded(c, body.members)|, |Encoded(c, index.members)|))]]
  }

  function FinishedFile(c: Codec, s: State): bytes {
    Encoded(c, FinishedMembers(c, s)) + c.eofMarker
  }

  // ---------------------------------------------------------------- what the steps write

  lemma {:induction false} PutBlocksRaw(s: State, data: bytes)
    requires |data| % BLOCK_SIZE == 0
    ensures var r := PutBlocks(s, data);
            Raw(r.ops) == Raw(s.ops) + data && r.members == s.members && r.index == s.index
    decreases |data|
  {
    hide Raw;
    if data == [] {
      assert Raw(s.ops) + data == Raw(s.ops);
    } else {
      RawPush(s.ops, Write(data[..BLOCK_SIZE]));
      PutBlocksRaw(Put(s, data[..BLOCK_SIZE]), data[BLOCK_SIZE..]);
      assert data == data[..BLOCK_SIZE] + data[BLOCK_SIZE..];
    }
  }

  lemma {:induction false} PutBlocksAppend(s: State, a: bytes, b: bytes)
    requires |a| % BLOCK_SIZE == 0 && |b| % BLOCK_SIZE == 0
    ensures PutBlocks(s, a + b) == PutBlocks(PutBlocks(s, a), b)
    decreases |a|
  {
    if a == [] {
      assert a + b == b;
    } else {
      assert (a + b)[..BLOCK_SIZE] == a[..BLOCK_SIZE];
      assert (a + b)[BLOCK_SIZE..] == a[BLOCK_SIZE..] + b;
      PutBlocksAppend(Put(s, a[..BLOCK_SIZE]), a[BLOCK_SIZE..], b);
    }
  }

  lemma PutOneBlock(s: State, block: bytes)
    requires |block| == BLOCK_SIZE
    ensures PutBlocks(s, block) == Put(s, block)
  {
    assert block[..BLOCK_SIZE] == block && block[BLOCK_SIZE..] == [];
  }

  lemma PutRaw(s: State, data: bytes)
    ensures Raw(Put(s, data).ops) == Raw(s.ops) + data
  {
    RawPush(s.ops, Write(data));
  }

  lemma FlushRaw(ops: seq<Op>)
    ensures Raw(ops + [Flush]) == Raw(ops)
  {
    RawPush(ops, Flush);
    assert Raw(ops) + [] == Raw(ops);
  }

  lemma PutEntryRaw(s: State, e: IndexEntry)
    ensures var r := PutEntry(s, e);
            Raw(r.ops) == Raw(s.ops) + EntryText(e) && r.members == s.members && r.index == s.index
  {
    hide Raw, Digits, DeclaredLength;
    var prefix := Digits(DeclaredLength(e)) + [SPACE, e.typeflag, SPACE] + Digits(e.rawLoc) + [SPACE];
    PutRaw(s, prefix);
    PutRaw(Put(s, prefix), e.data);
    PutRaw(Put(Put(s, prefix), e.data), [LINE_FEED]);
    if e.typeflag == PAX_GLOBAL {
      assert EntryText(e) == prefix + e.data;
    } else {
      assert EntryText(e) == prefix + e.data + [LINE_FEED];
    }
  }

  lemma {:induction false} PutEntriesRaw(s: State, entries: seq<IndexEntry>)
    ensures var r := PutEntries(s, entries);
            Raw(r.ops) == Raw(s.ops) + EntriesText(entries) && r.members == s.members && r.index == s.index
    decreases |entries|
  {
    hide Raw, PutEntry, EntryText;
    if entries == [] {
      assert Raw(s.ops) + [] == Raw(s.ops);
    } else {
      PutEntryRaw(s, entries[0]);
      PutEntriesRaw(PutEntry(s, entries[0]), entries[1..]);
    }
  }

  lemma {:induction false} PutTableRaw(s: State, table: seq<Checkpoint>)
    ensures var r := PutTable(s, table);
            Raw(r.ops) == Raw(s.ops) + CheckpointsText(table) && r.members == s.members && r.index == s.index
    decreases |table|
  {
    hide Raw, CheckpointText;
    if table == [] {
      assert Raw(s.ops) + [] == Raw(s.ops);
    } else {
      PutRaw(s, CheckpointText(table[0]));
      PutTableRaw(Put(s, CheckpointText(table[0])), table[1..]);
    }
  }

  // ---------------------------------------------------------------- growth

  /** The k-th stretch of raw bytes between two checkpoints; the last one is still open. */
  function Segment(s: State, k: nat): bytes
    requires k <= |s.members|
  {
    if k < |s.members| then Raw(s.members[k]) else Raw(s.ops)
  }

  function StartOf(members: seq<seq<Op>>, k: nat): nat
    requires k <= |members|
  {
    |RawOf(members[..k])|
  }

  /** `t` continues `s`: finished members stay, and what the open one held stays at its front. */
  ghost predicate Continues(s: State, t: State) {
    && |s.members| <= |t.members|
    && t.members[..|s.members|] == s.members
    && Raw(s.ops) <= Segment(t, |s.members|)
  }

  lemma ContinuesTransitive(s: State, t: State, u: State)
    requires Continues(s, t) && Continues(t, u)
    ensures Continues(s, u)
  {
    hide Raw;
    assert u.members[..|s.members|] == u.members[..|t.members|][..|s.members|];
    if |s.members| < |t.members| {
      assert u.members[|s.members|] == u.members[..|t.members|][|s.members|];
    }
  }

  lemma CheckpointedContinues(s: State)
    ensures Continues(s, Checkpointed(s))
  {
    hide Raw;
    FlushRaw(s.ops);
  }

  lemma ConsideredContinues(c: Codec, s: State)
    ensures var t := Considered(c, s);
            Continues(s, t) && t.index == s.index && RawBody(t) == RawBody(s)
  {
    hide Raw, RawOf, Encoded, FileSoFar;
    var f := s.(ops := s.ops + [Flush]);
    FlushRaw(s.ops);
    CheckpointedBody(f);
    CheckpointedContinues(f);
    ContinuesTransitive(s, f, Checkpointed(f));
  }

  lemma CheckpointedBody(s: State)
    ensures RawBody(Checkpointed(s)) == RawBody(s) && RawOf(Checkpointed(s).members) == RawBody(s)
  {
    hide Raw;
    FlushRaw(s.ops);
    var m := s.members + [s.ops + [Flush]];
    assert m[..|m| - 1] == s.members;
    RawNothing();
    assert RawOf(m) + [] == RawOf(m);
  }

  lemma RawNothing()
    ensures Raw([]) == []
  {
  }

  /** `bytes` lie inside one segment, at raw offset `offset`. */
  ghost predicate LocatedIn(s: State, k: nat, offset: nat, data: bytes) {
    && k <= |s.members|
    && StartOf(s.members, k) <= offset
    && data <= Drop(Segment(s, k), offset - StartOf(s.members, k))
  }

  ghost predicate Located(s: State, offset: nat, data: bytes) {
    exists k: nat :: LocatedIn(s, k, offset, data)
  }

  lemma LocatedContinues(s: State, t: State, offset: nat, data: bytes)
    requires Located(s, offset, data) && Continues(s, t) && data != []
    ensures Located(t, offset, data)
  {
    hide Raw, RawOf;
    var k: nat :| LocatedIn(s, k, offset, data);
    assert t.members[..k] == s.members[..k] by {
      assert t.members[..|s.members|][..k] == t.members[..k];
    }
    if k < |s.members| {
      assert t.members[k] == t.members[..|s.members|][k];
    }
    assert LocatedIn(t, k, offset, data);
  }

  // ---------------------------------------------------------------- the invariant of every run

  function BodyOf(items: seq<Item>): bytes {
    if items == [] then [] else BodyOf(items[..|items| - 1]) + EntryBytes(items[|items| - 1])
  }

  /** The index: every entry with the raw offset of its first header block. */
  function IndexOf(items: seq<Item>): (index: seq<IndexEntry>)
    ensures |index| == |items|
    ensures forall i | 0 <= i < |items| ::
              index[i] == IndexEntry(|BodyOf(items[..i])|, TypeChar(items[i].meta.typeflag), items[i].meta.path)
  {
    seq(|items|, i requires 0 <= i < |items| =>
      IndexEntry(|BodyOf(items[..i])|, TypeChar(items[i].meta.typeflag), items[i].meta.path))
  }

  /** The entry of item `i` lies inside one member, right where the index says. */
  ghost predicate ItemLocated(s: State, items: seq<Item>, i: nat)
    requires i < |items|
  {
    Located(s, |BodyOf(items[..i])|, EntryBytes(items[i]))
  }

  /** Raw offset `n` is where some entry starts. */
  ghost predicate StartsEntry(items: seq<Item>, n: nat) {
    exists i: nat :: i < |items| && n == |BodyOf(items[..i])|
  }

  ghost predicate Inv(s: State, items: seq<Item>) {
    && s.index == IndexOf(items)
    && RawBody(s) == BodyOf(items)
    && (forall i: nat | i < |items| :: ItemLocated(s, items, i))
    && (forall k: nat | 0 < k <= |s.members| :: StartsEntry(items, StartOf(s.members, k)))
  }

  lemma AddItemRaw(c: Codec, s: State, item: Item)
    ensures var s1 := Considered(c, s); var t := AddItem(c, s, item);
            && t.members == s1.members
            && Raw(t.ops) == Raw(s1.ops) + EntryBytes(item)
            && t.index == s1.index + [EntryFor(s1, item.meta)]
            && EntryBytes(item) != []
  {
    hide Raw, Considered, WriteHeader, EntryFor;
    var s1 := Considered(c, s);
    var s2 := s1.(index := s1.index + [EntryFor(s1, item.meta)]);
    WriteHeaderBlocks(item.meta);
    PutBlocksRaw(s2, WriteHeader(item.meta));
    var s3 := PutBlocks(s2, WriteHeader(item.meta));
    PutBlocksRaw(s3, item.blocks);
    assert Raw(s2.ops) + WriteHeader(item.meta) + item.blocks == Raw(s1.ops) + EntryBytes(item);
  }

  lemma OpenLocated(s: State, data: bytes, t: State)
    requires t.members == s.members && Raw(t.ops) == Raw(s.ops) + data
    ensures Located(t, |RawBody(s)|, data)
    ensures RawBody(t) == RawBody(s) + data
  {
    hide Raw, RawOf;
    var k := |t.members|;
    assert t.members[..k] == t.members;
    assert Drop(Raw(t.ops), |Raw(s.ops)|) == data;
    assert LocatedIn(t, k, |RawBody(s)|, data);
  }

  lemma ItemStep(c: Codec, s: State, items: seq<Item>, item: Item)
    requires Inv(s, items)
    ensures Inv(AddItem(c, s, item), items + [item])
  {
    hide Raw, RawOf, Considered, EntryBytes, Located, Continues, StartOf, RawBody, BodyOf;
    var s1 := Considered(c, s);
    var t := AddItem(c, s, item);
    var all := items + [item];
    AddItemRaw(c, s, item);
    ConsideredContinues(c, s);
    OpenContinues(s1, t);
    ContinuesTransitive(s, s1, t);
    OpenLocated(s1, EntryBytes(item), t);
    BodyPush(items, item);
    forall i: nat | i < |all|
      ensures ItemLocated(t, all, i)
    {
      if i < |items| {
        assert all[..i] == items[..i];
        assert ItemLocated(s, items, i);
        EntryBytesNonempty(items[i]);
        LocatedContinues(s, t, |BodyOf(items[..i])|, EntryBytes(items[i]));
      } else {
        assert all[..i] == items;
      }
    }
    forall i: nat | i < |all|
      ensures all[..i] == if i < |items| then items[..i] else items
    {
    }
    assert t.index == IndexOf(all);
    NewBoundaries(c, s, items, item);
  }

  lemma OpenContinues(s: State, t: State)
    requires t.members == s.members && Raw(s.ops) <= Raw(t.ops)
    ensures Continues(s, t)
  {
    hide Raw;
  }

  lemma BodyPush(items: seq<Item>, item: Item)
    ensures BodyOf(items + [item]) == BodyOf(items) + EntryBytes(item)
  {
    hide EntryBytes;
    assert (items + [item])[..|items|] == items;
  }

  lemma EntryBytesNonempty(item: Item)
    ensures EntryBytes(item) != []
  {
    hide WriteHeader;
    WriteHeaderBlocks(item.meta);
  }

  /** A checkpoint is only ever made right before an entry. */
  lemma NewBoundaries(c: Codec, s: State, items: seq<Item>, item: Item)
    requires Inv(s, items)
    ensures var t := Considered(c, s);
            forall k: nat | 0 < k <= |t.members| :: StartsEntry(items + [item], StartOf(t.members, k))
  {
    hide Raw, RawOf, FileSoFar, Encoded, BodyOf;
    var f := s.(ops := s.ops + [Flush]);
    var t := Considered(c, s);
    var all := items + [item];
    FlushRaw(s.ops);
    CheckpointedBody(f);
    forall k: nat | 0 < k <= |t.members|
      ensures StartsEntry(all, StartOf(t.members, k))
    {
      if k <= |s.members| {
        assert t.members[..k] == s.members[..k];
        assert StartsEntry(items, StartOf(s.members, k));
        var i: nat :| i < |items| && StartOf(s.members, k) == |BodyOf(items[..i])|;
        assert all[..i] == items[..i];
      } else {
        assert t.members[..k] == t.members;
        assert all[..|items|] == items;
      }
    }
  }

  lemma {:induction false} BodyIsWholeBlocks(items: seq<Item>)
    ensures |BodyOf(items)| % BLOCK_SIZE == 0
  {
    hide WriteHeader;
    if items != [] {
      var n := |items| - 1;
      BodyIsWholeBlocks(items[..n]);
      WriteHeaderBlocks(items[n].meta);
    }
  }

  /** No entry straddles a checkpoint: in every run, each checkpoint of the tar body is the raw offset of
      the first header block of some entry, a multiple of 512, and all bytes of each entry lie in one member. */
  lemma NoStraddling(c: Codec, items: seq<Item>)
    ensures var s := Run(c, items);
            && (forall k: nat | 0 < k <= |s.members| ::
                  StartsEntry(items, StartOf(s.members, k)) && StartOf(s.members, k) % BLOCK_SIZE == 0)
            && (forall i: nat | i < |items| :: ItemLocated(s, items, i))
  {
    hide BodyOf, RawOf, Run, Located;
    var s := Run(c, items);
    RunInvariant(c, items);
    forall k: nat | 0 < k <= |s.members|
      ensures StartOf(s.members, k) % BLOCK_SIZE == 0
    {
      assert StartsEntry(items, StartOf(s.members, k));
      var i: nat :| i < |items| && StartOf(s.members, k) == |BodyOf(items[..i])|;
      BodyIsWholeBlocks(items[..i]);
    }
  }

  /** Every run keeps the invariant: the body is the concatenation of the entries, the index gives each
      its offset, no entry straddles a checkpoint, and every checkpoint is the start of an entry. */
  lemma {:induction false} RunInvariant(c: Codec, items: seq<Item>)
    ensures Inv(Run(c, items), items)
  {
    hide AddItem, EntryBytes;
    if items == [] {
      RawNothing();
      assert RawBody(INITIAL) == [];
    } else {
      var before := items[..|items| - 1];
      RunInvariant(c, before);
      ItemStep(c, Run(c, before), before, items[|items| - 1]);
      assert before + [items[|items| - 1]] == items;
    }
  }
}
