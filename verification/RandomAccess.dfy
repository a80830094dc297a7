/** Reading a finished archive: tail, sections, checkpointed seeks and entries, and the theorem that
    every entry is read back as it was added (scar-rs/scar/src/read.rs). */
module RandomAccess {
  import opened Bytes
  import opened PaxRecords
  import opened PaxHeader
  import opened Codec
  import opened Sections
  import opened Archive
  import opened Scan

  // ---------------------------------------------------------------- the reader

  /** What a decompressor created at `loc` yields. */
  function DecodeAt(c: Codec, file: bytes, loc: nat): bytes {
    c.decoded(Drop(file, loc))
  }

  function RawLocs(table: seq<Checkpoint>): (r: seq<int>)
    ensures |r| == |table| && forall i | 0 <= i < |table| :: r[i] == table[i].rawLoc
  {
    seq(|table|, i requires 0 <= i < |table| => table[i].rawLoc)
  }

  /** The scan of `seek_to_raw_loc`. */
  function FindCheckpoint(table: seq<Checkpoint>, offset: nat): (cp: Checkpoint)
    ensures cp.rawLoc <= offset
  {
    var n := Reached(RawLocs(table), offset);
    if n == 0 then Checkpoint(0, 0) else table[n - 1]
  }

  ghost predicate Sorted(table: seq<Checkpoint>) {
    Ascending(RawLocs(table))
  }

  /** In a sorted table the scan finds the last checkpoint at or below the offset, hence a greatest one. */
  lemma FindsGreatest(table: seq<Checkpoint>, offset: nat, i: nat)
    requires Sorted(table) && i < |table| && table[i].rawLoc <= offset
    ensures table[i].rawLoc <= FindCheckpoint(table, offset).rawLoc
    ensures exists n: nat :: i <= n < |table| && FindCheckpoint(table, offset) == table[n] &&
                             (n + 1 < |table| ==> table[n + 1].rawLoc > offset)
  {
    StopsLast(RawLocs(table), offset, i);
    var n := Reached(RawLocs(table), offset);
    assert i <= n - 1 < |table| && FindCheckpoint(table, offset) == table[n - 1];
  }

  /** `seek_to_raw_loc`: what is left to read behind raw offset `offset`. */
  function Seek(c: Codec, file: bytes, table: seq<Checkpoint>, offset: nat): Option<bytes> {
    var cp := FindCheckpoint(table, offset);
    var decoded := DecodeAt(c, file, cp.compressedLoc);
    if |decoded| < offset - cp.rawLoc then None else Some(decoded[offset - cp.rawLoc..])
  }

  /** The decoder at the checkpoint has to yield all that is skipped; what it yields behind that is left to read. */
  lemma SeekExactly(c: Codec, file: bytes, table: seq<Checkpoint>, offset: nat, s: bytes)
    ensures var cp := FindCheckpoint(table, offset);
            Seek(c, file, table, offset) == Some(s) <==>
            exists skipped :: |skipped| == offset - cp.rawLoc && DecodeAt(c, file, cp.compressedLoc) == skipped + s
  {
    hide FindCheckpoint, DecodeAt;
    var cp := FindCheckpoint(table, offset);
    var decoded, n := DecodeAt(c, file, cp.compressedLoc), offset - cp.rawLoc;
    if Seek(c, file, table, offset) == Some(s) {
      assert decoded == decoded[..n] + s;
    }
  }

  datatype Opened = Opened(table: seq<Checkpoint>, items: seq<IndexItem>)

  /** How many bytes were buffered at the tests for the end of the checkpoint table and of the index. */
  datatype Held = Held(table: nat, index: nat)

  /** Both section headers lay in the buffer as a whole. */
  predicate Whole(held: Held) {
    held.table >= |TAIL_HEADER| && held.index >= |CHECKPOINTS_HEADER|
  }

  /** Opening an archive whose tail member starts at `tailLoc`, and reading its index to the end. */
  function Open(c: Codec, file: bytes, tailLoc: nat, held: Held): Option<Opened> {
    match ReadTail(DecodeAt(c, file, tailLoc))
    case None => None
    case Some((indexLoc, checkpointsLoc)) =>
      match SeenCheckpoints(DecodeAt(c, file, checkpointsLoc), held.table)
      case None => None
      case Some(table) =>
        match SeenIndex(DecodeAt(c, file, indexLoc), held.index)
        case None => None
        case Some(items) => Some(Opened(table, items))
  }

  /** Header and content of the entry an index item points to. */
  function ReadEntry(c: Codec, file: bytes, table: seq<Checkpoint>, item: IndexItem): Option<(Metadata, bytes)> {
    match Seek(c, file, table, item.offset)
    case None => None
    case Some(stream) =>
      match NextHeader(item.globalMeta, stream)
      case Failed => None
      case EndOfArchive(_, _) => None
      case Header(meta, _, rest) =>
        match ReadContent(rest, meta.size)
        case None => None
        case Some((content, _)) => Some((meta, content))
  }

  // ---------------------------------------------------------------- the layout of a finished file

  function BodyMembers(c: Codec, items: seq<Item>): seq<seq<Op>> {
    Ended(Run(c, items)).members
  }

  function AllMembers(c: Codec, items: seq<Item>): seq<seq<Op>> {
    FinishedMembers(c, Run(c, items))
  }

  function ArchiveOf(c: Codec, items: seq<Item>): bytes {
    FinishedFile(c, Run(c, items))
  }

  /** The tar body: all entries and the end-of-archive marker. */
  function TarBody(items: seq<Item>): bytes {
    BodyOf(items) + Zeros(2 * BLOCK_SIZE)
  }

  function TableOf(c: Codec, items: seq<Item>): seq<Checkpoint> {
    Boundaries(c, Indexed(Ended(Run(c, items))).members)
  }

  function TailLoc(c: Codec, items: seq<Item>): nat {
    |Encoded(c, Tabled(c, Indexed(Ended(Run(c, items)))).members)|
  }

  /** Every size and offset of the archive is a 64-bit number. */
  predicate FitsWords(c: Codec, items: seq<Item>) {
    |ArchiveOf(c, items)| < TWO_TO_64 && |RawOf(AllMembers(c, items))| < TWO_TO_64
  }

  lemma EndedRaw(s: State)
    ensures var t := Ended(s);
            && Continues(s, t)
            && |t.members| == |s.members| + 1
            && RawOf(t.members) == RawBody(s) + Zeros(2 * BLOCK_SIZE)
            && t.index == s.index && t.ops == []
  {
    hide Raw, RawOf, Continues, Zeros;
    var z := Zeros(BLOCK_SIZE);
    var s1, s2 := Put(s, z), Put(Put(s, z), z);
    PutRaw(s, z);
    PutRaw(s1, z);
    CheckpointedBody(s2);
    assert z + z == Zeros(2 * BLOCK_SIZE);
    assert RawBody(s2) == RawBody(s) + z + z;
    OpenContinues(s, s2);
    CheckpointedContinues(s2);
    ContinuesTransitive(s, s2, Checkpointed(s2));
  }

  lemma IndexedRaw(s: State)
    requires s.ops == []
    ensures var t := Indexed(s);
            && |t.members| == |s.members| + 1 && t.members[..|s.members|] == s.members && t.ops == []
            && Raw(t.members[|s.members|]) == INDEX_HEADER + EntriesText(s.index)
  {
    hide Raw, EntriesText, PutEntries;
    RawNothing();
    PutRaw(s, INDEX_HEADER);
    PutEntriesRaw(Put(s, INDEX_HEADER), s.index);
    FlushRaw(PutEntries(Put(s, INDEX_HEADER), s.index).ops);
    assert [] + INDEX_HEADER == INDEX_HEADER;
  }

  lemma TabledRaw(c: Codec, s: State)
    requires s.ops == []
    ensures var t := Tabled(c, s);
            && |t.members| == |s.members| + 1 && t.members[..|s.members|] == s.members
            && Raw(t.members[|s.members|]) == CHECKPOINTS_HEADER + CheckpointsText(Boundaries(c, s.members))
  {
    hide Raw, CheckpointsText, PutTable, Boundaries;
    RawNothing();
    PutRaw(s, CHECKPOINTS_HEADER);
    PutTableRaw(Put(s, CHECKPOINTS_HEADER), Boundaries(c, s.members));
    FlushRaw(PutTable(Put(s, CHECKPOINTS_HEADER), Boundaries(c, s.members)).ops);
    assert [] + CHECKPOINTS_HEADER == CHECKPOINTS_HEADER;
  }

  lemma RawOneWrite(data: bytes)
    ensures Raw([Write(data)]) == data
  {
    RawPush([], Write(data));
    assert [] + [Write(data)] == [Write(data)];
    assert Raw([]) + data == data;
  }

  /** The members of a finished file: the body, then index, checkpoints and tail. */
  lemma Layout(c: Codec, items: seq<Item>)
    ensures var m := AllMembers(c, items); var n := |BodyMembers(c, items)|;
            && |m| == n + 3
            && m[..n] == BodyMembers(c, items)
            && RawOf(m[..n]) == TarBody(items)
            && Raw(m[n]) == INDEX_HEADER + EntriesText(Archive.IndexOf(items))
            && TableOf(c, items) == Boundaries(c, m[..n + 1])
            && Raw(m[n + 1]) == CHECKPOINTS_HEADER + CheckpointsText(TableOf(c, items))
            && TailLoc(c, items) == |Encoded(c, m[..n + 2])|
            && Raw(m[n + 2]) == TailText(|Encoded(c, m[..n])|, |Encoded(c, m[..n + 1])|)
  {
    hide Raw, RawOf, Encoded, Run, Ended, Indexed, Tabled, EntriesText, CheckpointsText, TailText, Boundaries;
    hide BodyOf, Continues, Archive.IndexOf;
    var s := Run(c, items);
    RunInvariant(c, items);
    EndedRaw(s);
    var body := Ended(s);
    IndexedRaw(body);
    var index := Indexed(body);
    TabledRaw(c, index);
    var table := Tabled(c, index);
    var m := AllMembers(c, items);
    var n := |body.members|;
    RawOneWrite(TailText(|Encoded(c, body.members)|, |Encoded(c, index.members)|));
    assert m[..n + 2] == table.members;
    assert m[..n + 1] == table.members[..n + 1];
    assert m[..n] == index.members[..n];
    assert m[n] == index.members[n];
  }

  /** The members of the body hold the entries and 1024 zeros. */
  lemma BodyThenZeros(c: Codec, items: seq<Item>)
    ensures RawOf(BodyMembers(c, items)) == BodyOf(items) + Zeros(1024)
  {
    hide RawOf, Run, Ended, BodyOf;
    RunInvariant(c, items);
    EndedRaw(Run(c, items));
  }

  // ---------------------------------------------------------------- decoding at a boundary

  lemma {:induction false} EncodedAt(c: Codec, m: seq<seq<Op>>, k: nat) returns (rest: bytes)
    requires k < |m|
    ensures Encoded(c, m) == Encoded(c, m[..k]) + (c.member(m[k]) + rest)
  {
    var n := |m| - 1;
    if k == n {
      rest := [];
    } else {
      var r := EncodedAt(c, m[..n], k);
      assert m[..n][..k] == m[..k];
      rest := r + c.member(m[n]);
    }
  }

  /** A decompressor at a member boundary yields that member. */
  lemma DecodeMember(c: Codec, items: seq<Item>, k: nat)
    requires Faithful(c) && k < |AllMembers(c, items)|
    ensures var m := AllMembers(c, items);
            var d := DecodeAt(c, ArchiveOf(c, items), |Encoded(c, m[..k])|);
            && Raw(m[k]) <= d && (Bounded(c) ==> d == Raw(m[k]))
            && (Continuing(c) ==> d == Raw(m[k]) + DecodeAt(c, ArchiveOf(c, items), |Encoded(c, m[..k + 1])|))
  {
    hide Raw, Encoded, Run, FinishedMembers, Faithful, Bounded, Continuing;
    var m := AllMembers(c, items);
    var rest := EncodedAt(c, m, k);
    var front := Encoded(c, m[..k]);
    assert ArchiveOf(c, items) == front + (c.member(m[k]) + (rest + c.eofMarker));
    assert Drop(ArchiveOf(c, items), |front|) == c.member(m[k]) + (rest + c.eofMarker);
    MemberDecodes(c, m[k], rest + c.eofMarker);
    EncodedNext(c, m, k);
    assert Drop(ArchiveOf(c, items), |Encoded(c, m[..k + 1])|) == rest + c.eofMarker;
  }

  lemma MemberDecodes(c: Codec, ops: seq<Op>, rest: bytes)
    requires Faithful(c)
    ensures var d := c.decoded(c.member(ops) + rest);
            && Raw(ops) <= d && (Bounded(c) ==> d == Raw(ops))
            && (Continuing(c) ==> d == Raw(ops) + c.decoded(rest))
  {
    hide Raw;
    assert Holds(c, c.member(ops), Raw(ops));
    assert Bounded(c) ==> HoldsExactly(c, c.member(ops), Raw(ops));
  }

  lemma EncodedNext(c: Codec, m: seq<seq<Op>>, k: nat)
    requires k < |m|
    ensures Encoded(c, m[..k + 1]) == Encoded(c, m[..k]) + c.member(m[k])
  {
    assert m[..k + 1][..k] == m[..k];
  }

  /** With a decoder that goes on, the whole rest of the tar body can be read from any of its members. */
  lemma {:induction false} BodyBehind(c: Codec, items: seq<Item>, m: seq<seq<Op>>, n: nat, k: nat)
    requires Continuing(c) && m == AllMembers(c, items) && k <= n < |m|
    ensures Drop(RawOf(m[..n]), StartOf(m, k)) <= DecodeAt(c, ArchiveOf(c, items), |Encoded(c, m[..k])|)
    decreases n - k
  {
    hide Raw, RawOf, Encoded, AllMembers, ArchiveOf, DecodeAt, Continuing;
    var body := RawOf(m[..n]);
    if k < n {
      ContinuingIsFaithful(c);
      DecodeMember(c, items, k);
      var rest := RawOfAt(m[..n], k);
      assert m[..n][..k] == m[..k];
      StartOfNext(m, k);
      assert Drop(body, StartOf(m, k)) == Raw(m[k]) + rest;
      assert Drop(body, StartOf(m, k + 1)) == rest;
      BodyBehind(c, items, m, n, k + 1);
    } else {
      assert Drop(body, StartOf(m, k)) == [];
    }
  }

  lemma {:induction false} RawOfAt(m: seq<seq<Op>>, k: nat) returns (rest: bytes)
    requires k < |m|
    ensures RawOf(m) == RawOf(m[..k]) + (Raw(m[k]) + rest)
  {
    hide Raw;
    var n := |m| - 1;
    if k == n {
      rest := [];
      assert Raw(m[k]) + [] == Raw(m[k]);
    } else {
      var r := RawOfAt(m[..n], k);
      assert m[..n][..k] == m[..k];
      rest := r + Raw(m[n]);
    }
  }

  lemma StartOfNext(m: seq<seq<Op>>, k: nat)
    requires k < |m|
    ensures RawOf(m[..k + 1]) == RawOf(m[..k]) + Raw(m[k])
    ensures StartOf(m, k + 1) == StartOf(m, k) + |Raw(m[k])|
  {
    hide Raw;
    assert m[..k + 1][..k] == m[..k];
  }

  lemma {:induction false} StartOfMonotone(m: seq<seq<Op>>, j: nat, k: nat)
    requires j <= k <= |m|
    ensures StartOf(m, j) <= StartOf(m, k)
    decreases k
  {
    hide Raw, RawOf;
    if j < k {
      StartOfMonotone(m, j, k - 1);
      StartOfNext(m, k - 1);
    }
  }

  /** The table is sorted, and the scan of the first `n` boundaries of `m` finds the member that
      holds the offset. */
  lemma FindsMember(c: Codec, m: seq<seq<Op>>, n: nat, k: nat, offset: nat)
    requires k <= n < |m| && StartOf(m, k) <= offset < StartOf(m, k + 1)
    ensures Sorted(Boundaries(c, m[..n]))
    ensures FindCheckpoint(Boundaries(c, m[..n]), offset) == Checkpoint(|Encoded(c, m[..k])|, StartOf(m, k))
  {
    hide RawOf, Encoded, Reached, RawLocs;
    var table := Boundaries(c, m[..n]);
    forall j | 0 <= j < n
      ensures table[j] == Checkpoint(|Encoded(c, m[..j + 1])|, StartOf(m, j + 1))
    {
      assert m[..n][..j + 1] == m[..j + 1];
    }
    forall i, j | 0 <= i <= j < n
      ensures table[i].rawLoc <= table[j].rawLoc
    {
      StartOfMonotone(m, i + 1, j + 1);
    }
    var r := Reached(RawLocs(table), offset);
    if r < k {
      StartOfMonotone(m, r + 1, k);
    }
    assert k < n ==> table[k].rawLoc == StartOf(m, k + 1);
    assert r == k;
    if k == 0 {
      assert m[..0] == [];
      NothingEncoded(c);
    }
  }

  lemma NothingEncoded(c: Codec)
    ensures Encoded(c, []) == [] && RawOf([]) == []
  {
  }

  /** The member that holds a raw offset. */
  lemma MemberAt(m: seq<seq<Op>>, offset: nat) returns (k: nat)
    requires offset < |RawOf(m)|
    ensures k < |m| && StartOf(m, k) <= offset < StartOf(m, k + 1)
  {
    hide RawOf, Raw;
    NothingEncodedRaw(m);
    assert m[..|m|] == m;
    k := 0;
    while StartOf(m, k + 1) <= offset
      invariant k < |m| && StartOf(m, k) <= offset
      decreases |m| - k
    {
      k := k + 1;
    }
  }

  lemma NothingEncodedRaw(m: seq<seq<Op>>)
    ensures StartOf(m, 0) == 0 && (RawOf(m) != [] ==> m != [])
  {
    assert m[..0] == [];
  }

  // ---------------------------------------------------------------- the checkpointed seek

  lemma SeekInMember(c: Codec, items: seq<Item>, m: seq<seq<Op>>, k: nat, offset: nat)
    requires Faithful(c) && m == AllMembers(c, items) && |m| == |BodyMembers(c, items)| + 3
    requires k < |m| - 3 && StartOf(m, k) <= offset < StartOf(m, k + 1)
    ensures var r := Seek(c, ArchiveOf(c, items), TableOf(c, items), offset);
            && r.Some?
            && Drop(Raw(m[k]), offset - StartOf(m, k)) <= r.value
            && (Bounded(c) ==> r.value == Drop(Raw(m[k]), offset - StartOf(m, k)))
            && (Continuing(c) ==> Drop(TarBody(items), offset) <= r.value)
  {
    hide Raw, RawOf, Encoded, AllMembers, BodyMembers, ArchiveOf, TableOf, TailLoc, TarBody, EntriesText;
    hide CheckpointsText, FindCheckpoint, Boundaries, Faithful, Bounded, Archive.IndexOf, DecodeAt;
    Layout(c, items);
    FindsMember(c, m, |m| - 2, k, offset);
    DecodeMember(c, items, k);
    StartOfNext(m, k);
    if Continuing(c) {
      BodyBehind(c, items, m, |m| - 3, k);
      DropDrop(TarBody(items), StartOf(m, k), offset);
    }
  }

  lemma DropDrop(s: bytes, a: nat, b: nat)
    requires a <= b
    ensures Drop(Drop(s, a), b - a) == Drop(s, b)
  {
  }

  /** Seeking refines the raw body: from any offset in member `k` of the tar body, the reader sees the body from
      there at least to the end of that member; exactly so far with a format that marks where members end, and
      to the end of the body with one whose decoder goes on. */
  lemma SeekRefinesBody(c: Codec, items: seq<Item>, offset: nat)
    requires Faithful(c) && offset < |TarBody(items)|
    ensures exists k: nat | k < |BodyMembers(c, items)| :: HoldsOffset(c, items, offset, k)
  {
    hide Raw, RawOf, Encoded, AllMembers, BodyMembers, ArchiveOf, TableOf, TailLoc, TarBody, EntriesText;
    hide CheckpointsText, Seek, Boundaries, Faithful, Bounded, Continuing, Archive.IndexOf, TailText;
    var m := AllMembers(c, items);
    var n := |BodyMembers(c, items)|;
    Layout(c, items);
    var k := MemberAt(m[..n], offset);
    assert m[..n] == BodyMembers(c, items);
    assert m[..n][..k] == m[..k] && m[..n][..k + 1] == m[..k + 1];
    SeekInMember(c, items, m, k, offset);
    var rest := RawOfAt(m[..n], k);
    StartOfNext(m, k);
    var start, end := StartOf(m, k), StartOf(m, k + 1);
    var body := TarBody(items);
    assert body == RawOf(m[..k]) + (Raw(m[k]) + rest);
    assert body[offset..end] == Drop(Raw(m[k]), offset - start);
    assert HoldsOffset(c, items, offset, k);
  }

  /** Member `k` of the tar body holds the offset, and the reader that seeks there sees what is left of it. */
  ghost predicate HoldsOffset(c: Codec, items: seq<Item>, offset: nat, k: nat)
    requires k < |BodyMembers(c, items)|
  {
    var m, body := BodyMembers(c, items), TarBody(items);
    var r := Seek(c, ArchiveOf(c, items), TableOf(c, items), offset);
    && StartOf(m, k) <= offset < StartOf(m, k + 1) <= |body|
    && r.Some?
    && body[offset..StartOf(m, k + 1)] <= r.value
    && (Bounded(c) ==> r.value == body[offset..StartOf(m, k + 1)])
    && (Continuing(c) ==> body[offset..] <= r.value)
  }

  /** Seeking to an index offset puts the reader right at the entry. */
  lemma SeekEntry(c: Codec, items: seq<Item>, i: nat)
    requires Faithful(c) && i < |items|
    ensures var r := Seek(c, ArchiveOf(c, items), TableOf(c, items), Archive.IndexOf(items)[i].rawLoc);
            r.Some? && EntryBytes(items[i]) <= r.value
  {
    hide Raw, RawOf, Encoded, ArchiveOf, TableOf, TailLoc, TarBody, EntriesText, CheckpointsText, Seek;
    hide Boundaries, Faithful, Bounded, TailText, EntryBytes, BodyOf, Run, Ended, Indexed, Tabled;
    var s := Run(c, items);
    var m := AllMembers(c, items);
    var n := |BodyMembers(c, items)|;
    var offset := |BodyOf(items[..i])|;
    Layout(c, items);
    RunInvariant(c, items);
    EndedRaw(s);
    EntryBytesNonempty(items[i]);
    assert ItemLocated(s, items, i);
    var t := Ended(s);
    LocatedContinues(s, t, offset, EntryBytes(items[i]));
    var k: nat :| LocatedIn(t, k, offset, EntryBytes(items[i]));
    NothingOpen(t, k, offset, EntryBytes(items[i]));
    assert m[..n][..k] == m[..k];
    assert m[k] == m[..n][k];
    StartOfNext(m, k);
    SeekInMember(c, items, m, k, offset);
  }

  lemma NothingOpen(t: State, k: nat, offset: nat, data: bytes)
    requires LocatedIn(t, k, offset, data) && data != [] && t.ops == []
    ensures k < |t.members|
    ensures data <= Drop(Raw(t.members[k]), offset - StartOf(t.members, k))
    ensures offset < StartOf(t.members, k) + |Raw(t.members[k])|
  {
    RawNothing();
  }

  // ---------------------------------------------------------------- opening and reading

  lemma {:induction false} EntryTextInside(entries: seq<IndexEntry>, i: nat)
    requires i < |entries|
    ensures |EntryText(entries[i])| <= |EntriesText(entries)|
  {
    hide EntryText;
    if i > 0 {
      EntryTextInside(entries[1..], i - 1);
    }
  }

  lemma TypeCharNotGlobal(t: FileType)
    ensures TypeChar(t) != PAX_GLOBAL
  {
  }

  lemma {:induction false} BodyPrefix(items: seq<Item>, i: nat)
    requires i <= |items|
    ensures |BodyOf(items[..i])| <= |BodyOf(items)|
  {
    hide EntryBytes;
    if i == |items| {
      assert items[..i] == items;
    } else {
      BodyPrefix(items[..|items| - 1], i);
      assert items[..|items| - 1][..i] == items[..i];
    }
  }

  lemma IndexPlain(c: Codec, items: seq<Item>)
    requires FitsWords(c, items)
    ensures forall e | e in Archive.IndexOf(items) :: PlainEntry(e)
  {
    hide Raw, RawOf, Encoded, AllMembers, BodyMembers, TableOf, TailLoc, EntriesText, EntryText;
    hide CheckpointsText, Boundaries, BodyOf, TypeChar;
    var m := AllMembers(c, items);
    var n := |BodyMembers(c, items)|;
    Layout(c, items);
    var r0 := RawOfAt(m, n);
    forall e | e in Archive.IndexOf(items)
      ensures PlainEntry(e)
    {
      var i: nat :| i < |items| && Archive.IndexOf(items)[i] == e;
      EntryTextInside(Archive.IndexOf(items), i);
      TypeCharNotGlobal(items[i].meta.typeflag);
      BodyPrefix(items, i);
    }
  }

  lemma TableInRange(c: Codec, items: seq<Item>)
    requires FitsWords(c, items)
    ensures forall cp | cp in TableOf(c, items) :: InRange(cp)
    ensures var m := AllMembers(c, items); var n := |BodyMembers(c, items)|;
            n + 1 < |m| && |Encoded(c, m[..n])| < TWO_TO_64 && |Encoded(c, m[..n + 1])| < TWO_TO_64
  {
    hide Raw, RawOf, Encoded, BodyMembers, TailLoc, EntriesText, CheckpointsText, TarBody, TailText, TableOf;
    hide Archive.IndexOf, Run, FinishedMembers;
    var m := AllMembers(c, items);
    var n := |BodyMembers(c, items)|;
    Layout(c, items);
    forall k: nat | k < |m|
      ensures |Encoded(c, m[..k])| < TWO_TO_64 && |RawOf(m[..k])| < TWO_TO_64
    {
      var r1 := EncodedAt(c, m, k);
      var r2 := RawOfAt(m, k);
    }
    forall cp | cp in TableOf(c, items)
      ensures InRange(cp)
    {
      var table := TableOf(c, items);
      var j: nat :| j < |table| && table[j] == cp;
      assert cp == Boundary(c, m[..n + 1][..j + 1]);
      assert m[..n + 1][..j + 1] == m[..j + 1];
    }
  }

  /** What decoding at a member yields behind that member: nothing, or what decoding at the next one yields. */
  lemma DecodeThen(c: Codec, items: seq<Item>, k: nat) returns (rest: bytes)
    requires Bounded(c) || Continuing(c)
    requires k < |AllMembers(c, items)|
    ensures var m := AllMembers(c, items);
            && DecodeAt(c, ArchiveOf(c, items), |Encoded(c, m[..k])|) == Raw(m[k]) + rest
            && (Bounded(c) ==> rest == [])
            && (!Bounded(c) && k + 1 < |m| ==> Raw(m[k + 1]) <= rest)
  {
    hide Raw, Encoded, ArchiveOf, AllMembers, Bounded, Continuing, DecodeAt;
    if Bounded(c) {
      BoundedIsFaithful(c);
      DecodeMember(c, items, k);
      rest := [];
    } else {
      ContinuingIsFaithful(c);
      DecodeMember(c, items, k);
      rest := DecodeAt(c, ArchiveOf(c, items), |Encoded(c, AllMembers(c, items)[..k + 1])|);
      if k + 1 < |AllMembers(c, items)| {
        DecodeMember(c, items, k + 1);
      }
    }
  }

  /** The sections of a finished archive, as a decoder yields them: behind each comes nothing, or the header of the
      next one. */
  lemma SectionsOf(c: Codec, items: seq<Item>) returns (behindIndex: bytes, behindTable: bytes)
    requires (Bounded(c) || Continuing(c)) && FitsWords(c, items)
    ensures var m, n := AllMembers(c, items), |BodyMembers(c, items)|;
            && n + 2 < |m|
            && ReadTail(DecodeAt(c, ArchiveOf(c, items), TailLoc(c, items))) ==
               Some((|Encoded(c, m[..n])|, |Encoded(c, m[..n + 1])|))
            && DecodeAt(c, ArchiveOf(c, items), |Encoded(c, m[..n])|) ==
               INDEX_HEADER + (EntriesText(Archive.IndexOf(items)) + behindIndex)
            && DecodeAt(c, ArchiveOf(c, items), |Encoded(c, m[..n + 1])|) ==
               CHECKPOINTS_HEADER + (CheckpointsText(TableOf(c, items)) + behindTable)
    ensures if Bounded(c) then behindIndex == [] && behindTable == []
            else CHECKPOINTS_HEADER <= behindIndex && TAIL_HEADER <= behindTable
  {
    hide Raw, RawOf, Encoded, AllMembers, BodyMembers, ArchiveOf, TableOf, TailLoc, TarBody, EntriesText;
    hide CheckpointsText, Boundaries, Bounded, Continuing, TailText, ReadTail, DecodeAt, Archive.IndexOf, FitsWords;
    var m := AllMembers(c, items);
    var n := |BodyMembers(c, items)|;
    var index, table := Archive.IndexOf(items), TableOf(c, items);
    Layout(c, items);
    behindIndex := DecodeThen(c, items, n);
    behindTable := DecodeThen(c, items, n + 1);
    var behindTail := DecodeThen(c, items, n + 2);
    TableInRange(c, items);
    var indexLoc, checkpointsLoc := |Encoded(c, m[..n])|, |Encoded(c, m[..n + 1])|;
    ReadTailText(indexLoc, checkpointsLoc, behindTail);
    TailTextHeader(indexLoc, checkpointsLoc);
    StartsWith(TAIL_HEADER, Raw(m[n + 2]), behindTable);
    StartsWith(CHECKPOINTS_HEADER, Raw(m[n + 1]), behindIndex);
    assert Raw(m[n + 1]) + behindTable == CHECKPOINTS_HEADER + (CheckpointsText(table) + behindTable);
    assert Raw(m[n]) + behindIndex == INDEX_HEADER + (EntriesText(index) + behindIndex);
  }

  /** What is seen of a printed checkpoint section. */
  lemma SeenTable(table: seq<Checkpoint>, behind: bytes, held: nat)
    requires forall c | c in table :: InRange(c)
    requires EndsAt(TAIL_HEADER, behind)
    ensures var s := CHECKPOINTS_HEADER + (CheckpointsText(table) + behind);
            && SeenCheckpoints(s, held) == (if Missed(TAIL_HEADER, behind, held) then None else Some(table))
            && FirstLine(s) == CHECKPOINTS_HEADER && TableRest(s[|CHECKPOINTS_HEADER|..]) == behind
  {
    hide FirstLine, ReadCheckpoints, CheckpointsText, TableRest, EndsAt, Missed;
    HeaderLine(CHECKPOINTS_HEADER, 16, CheckpointsText(table) + behind);
    ReadCheckpointsText(table, behind);
    TableRestText(table, behind);
  }

  /** What is seen of a printed index section. */
  lemma SeenEntries(entries: seq<IndexEntry>, behind: bytes, held: nat)
    requires forall e | e in entries :: PlainEntry(e)
    requires EndsAt(CHECKPOINTS_HEADER, behind)
    ensures var s := INDEX_HEADER + (EntriesText(entries) + behind);
            var readable := forall e | e in entries :: Readable(e);
            && SeenIndex(s, held) ==
               (if readable && !Missed(CHECKPOINTS_HEADER, behind, held) then Some(ItemsOf(entries)) else None)
            && (readable ==> FirstLine(s) == INDEX_HEADER && IndexRest(s[|INDEX_HEADER|..]) == behind)
  {
    hide FirstLine, ReadIndex, EntriesText, IndexRest, EndsAt, Missed, PlainEntry, Readable, ItemsOf;
    HeaderLine(INDEX_HEADER, 10, EntriesText(entries) + behind);
    ReadIndexText(entries, behind);
    if forall e | e in entries :: Readable(e) {
      IndexRestText(entries, behind);
    }
  }

  /** Opening a finished archive recovers the checkpoint table and the whole index, exactly when no
      index entry is longer than 16384 bytes and, unless the format marks where members end, both section headers
      lay whole in the buffer as they were looked for. */
  lemma OpenFinished(c: Codec, items: seq<Item>, held: Held)
    requires (Bounded(c) || Continuing(c)) && FitsWords(c, items)
    ensures Open(c, ArchiveOf(c, items), TailLoc(c, items), held) ==
            if (forall e | e in Archive.IndexOf(items) :: Readable(e)) && (Bounded(c) || Whole(held))
            then Some(Opened(TableOf(c, items), ItemsOf(Archive.IndexOf(items)))) else None
  {
    hide Encoded, AllMembers, BodyMembers, ArchiveOf, TableOf, TailLoc, EntriesText, CheckpointsText;
    hide Bounded, Continuing, ReadTail, SeenCheckpoints, SeenIndex, DecodeAt, Archive.IndexOf, ItemsOf;
    hide Readable, PlainEntry, FitsWords, FirstLine, IndexRest, TableRest, InRange;
    var behindIndex, behindTable := SectionsOf(c, items);
    TableInRange(c, items);
    IndexPlain(c, items);
    SeenTable(TableOf(c, items), behindTable, held.table);
    SeenEntries(Archive.IndexOf(items), behindIndex, held.index);
  }

  lemma PlainIsNotBounded()
    ensures !Bounded(PLAIN)
  {
    assert PLAIN.decoded(PLAIN.member([]) + [NUL]) != Raw([]);
    assert !HoldsExactly(PLAIN, PLAIN.member([]), Raw([]));
  }

  /** A section header that is split between two fills of the buffer is missed, and the archive cannot be opened. */
  lemma SplitHeaderFails(items: seq<Item>, held: Held)
    requires FitsWords(PLAIN, items) && !Whole(held)
    ensures Open(PLAIN, ArchiveOf(PLAIN, items), TailLoc(PLAIN, items), held) == None
  {
    hide Open, ArchiveOf, TailLoc, FitsWords, Bounded, Continuing;
    PlainLaws();
    PlainIsNotBounded();
    OpenFinished(PLAIN, items, held);
  }

  lemma StartsWith(header: bytes, section: bytes, rest: bytes)
    requires header <= section
    ensures rest == [] || section <= rest ==> EndsAt(header, rest)
  {
  }

  /** Metadata that survives, in front of as many blocks as its size calls for. */
  predicate Recoverable(item: Item) {
    && Representable(item.meta)
    && |item.blocks| == PaddedLength(item.meta.size)
  }

  function ContentOf(item: Item): bytes
    requires Recoverable(item)
  {
    item.blocks[..item.meta.size]
  }

  /** Reading the entry behind an index item gives back the metadata and the content that were added. */
  lemma ReadAddedEntry(c: Codec, items: seq<Item>, i: nat)
    requires Faithful(c) && i < |items| && Recoverable(items[i])
    ensures ReadEntry(c, ArchiveOf(c, items), TableOf(c, items), ItemOf(Archive.IndexOf(items)[i])) ==
            Some((items[i].meta, ContentOf(items[i])))
  {
    hide ArchiveOf, TableOf, Seek, Faithful, WriteHeader, Representable, NextHeader, ReadContent, PaddedLength;
    hide Archive.IndexOf, Stringify, Extended, TypeOf;
    var meta, blocks := items[i].meta, items[i].blocks;
    SeekEntry(c, items, i);
    var stream := Seek(c, ArchiveOf(c, items), TableOf(c, items), Archive.IndexOf(items)[i].rawLoc).value;
    var rest := stream[|EntryBytes(items[i])|..];
    assert stream == EntryBytes(items[i]) + rest;
    assert stream == WriteHeader(meta) + (blocks + rest);
    HeaderRoundTrip(meta, blocks + rest);
    ReadBlocks(blocks, meta.size, rest);
  }

  /** End to end: for every run of additions and every entry of it, opening the finished archive when the end of
      its sections is seen, taking the entry's index item, seeking by checkpoint and reading returns what was added. */
  lemma RandomAccess(c: Codec, items: seq<Item>, held: Held, i: nat)
    requires Bounded(c) || (Continuing(c) && Whole(held))
    requires FitsWords(c, items) && i < |items|
    requires forall e | e in Archive.IndexOf(items) :: Readable(e)
    requires Recoverable(items[i])
    ensures var archive := Open(c, ArchiveOf(c, items), TailLoc(c, items), held);
            && archive.Some? && |archive.value.items| == |items|
            && var item := archive.value.items[i];
            && item.path == items[i].meta.path && item.typeflag == items[i].meta.typeflag
            && ReadEntry(c, ArchiveOf(c, items), archive.value.table, item) ==
               Some((items[i].meta, ContentOf(items[i])))
  {
    hide Open, ArchiveOf, TailLoc, TableOf, Bounded, Continuing, Faithful, FitsWords, ReadEntry, Recoverable;
    hide Readable, TypeOf, TypeChar, BodyOf, ContentOf;
    if Bounded(c) {
      BoundedIsFaithful(c);
    } else {
      ContinuingIsFaithful(c);
    }
    OpenFinished(c, items, held);
    ReadAddedEntry(c, items, i);
    TypeRoundTrip(items[i].meta.typeflag);
  }
}
