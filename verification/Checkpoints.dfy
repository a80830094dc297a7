/** When the Rust writer makes a checkpoint, over the members it wrote and the compression format alone
    (`consider_checkpoint`, scar-rs/scar/src/write.rs). */
module Checkpoints {
  import opened Bytes
  import opened PaxHeader
  import opened Codec
  import opened Sections
  import opened Archive

  /** What the `k`-th compressor was asked to do; the last one is still open. */
  function OpsOf(s: State, k: nat): seq<Op>
    requires k <= |s.members|
  {
    if k < |s.members| then s.members[k] else s.ops
  }

  /** A closed member had emitted more than 1 MiB when it was flushed in front of the entry that follows it; it was
      then flushed again and finished. */
  predicate Due(c: Codec, member: seq<Op>) {
    var n := |member|;
    n >= 2 && member[n - 1] == Flush && member[n - 2] == Flush && |c.emitted(member[..n - 1])| > 1024 * 1024
  }

  /** Where the writing of an entry begins: after `q` in member `k`. Either the entry is the first thing in its
      member, or the member was flushed and had emitted at most 1 MiB. */
  predicate BeginsAt(c: Codec, s: State, k: nat, q: seq<Op>, offset: nat) {
    && k <= |s.members|
    && q < OpsOf(s, k) && OpsOf(s, k)[|q|].Write?
    && StartOf(s.members, k) + |Raw(q)| == offset
    && (if q == [] then k > 0 else q[|q| - 1] == Flush && |c.emitted(q)| <= 1024 * 1024)
  }

  ghost predicate Begins(c: Codec, s: State, offset: nat) {
    exists k: nat, q :: BeginsAt(c, s, k, q, offset)
  }

  ghost predicate OnlyWhenDue(c: Codec, s: State, items: seq<Item>) {
    && (forall k | 0 <= k < |s.members| :: Due(c, s.members[k]))
    && (forall i: nat | i < |items| :: Begins(c, s, |BodyOf(items[..i])|))
  }

  // ---------------------------------------------------------------- one step

  lemma {:induction false} PutBlocksWrites(s: State, data: bytes) returns (w: seq<Op>)
    requires |data| % BLOCK_SIZE == 0
    ensures PutBlocks(s, data).ops == s.ops + w && (data != [] ==> w != [] && w[0].Write?)
    decreases |data|
  {
    if data == [] {
      w := [];
    } else {
      var v := PutBlocksWrites(Put(s, data[..BLOCK_SIZE]), data[BLOCK_SIZE..]);
      w := [Write(data[..BLOCK_SIZE])] + v;
    }
  }

  /** An entry is written behind what the checkpoint test left. */
  lemma AddItemWrites(c: Codec, s: State, item: Item) returns (w: seq<Op>)
    ensures var t := AddItem(c, s, item);
            && t.members == Considered(c, s).members && t.ops == Considered(c, s).ops + w
            && w != [] && w[0].Write?
  {
    hide Considered, WriteHeader, EntryFor;
    AddItemRaw(c, s, item);
    var s1 := Considered(c, s);
    WriteHeaderBlocks(item.meta);
    var u := PutBlocksWrites(s1.(index := s1.index + [EntryFor(s1, item.meta)]), WriteHeader(item.meta));
    var v := PutBlocksWrites(AddEntry(c, s, item.meta), item.blocks);
    w := u + v;
  }

  /** What the checkpoint test does to the open member. */
  lemma ConsideredOps(c: Codec, s: State)
    ensures var q := s.ops + [Flush]; var t := Considered(c, s);
            if |c.emitted(q)| > 1024 * 1024 then t.members == s.members + [q + [Flush]] && t.ops == []
            else t.members == s.members && t.ops == q
  {
    hide Encoded;
  }

  lemma BeginsStays(c: Codec, s: State, t: State, offset: nat)
    requires Begins(c, s, offset)
    requires |s.members| <= |t.members| && t.members[..|s.members|] == s.members && s.ops <= OpsOf(t, |s.members|)
    ensures Begins(c, t, offset)
  {
    hide RawOf, Raw;
    var k: nat, q :| BeginsAt(c, s, k, q, offset);
    assert t.members[..k] == s.members[..k] by {
      assert t.members[..|s.members|][..k] == t.members[..k];
    }
    if k < |s.members| {
      assert t.members[k] == t.members[..|s.members|][k];
    }
    assert BeginsAt(c, t, k, q, offset);
  }

  lemma DueStep(c: Codec, s: State, items: seq<Item>, item: Item)
    requires OnlyWhenDue(c, s, items) && Inv(s, items)
    ensures OnlyWhenDue(c, AddItem(c, s, item), items + [item])
  {
    hide RawOf, Raw, Considered, AddItem, BodyOf, Begins, Inv;
    var all, t, q := items + [item], AddItem(c, s, item), s.ops + [Flush];
    ConsideredOps(c, s);
    var w := AddItemWrites(c, s, item);
    assert (q + [Flush])[..|q|] == q;
    forall k | 0 <= k < |t.members|
      ensures Due(c, t.members[k])
    {
      if k < |s.members| {
        assert t.members[k] == s.members[k];
      }
    }
    forall i: nat | i < |all|
      ensures Begins(c, t, |BodyOf(all[..i])|)
    {
      if i < |items| {
        assert all[..i] == items[..i];
        BeginsStays(c, s, t, |BodyOf(items[..i])|);
      } else {
        assert all[..i] == items;
        BeginsHere(c, s, items, t, w);
      }
    }
  }

  lemma BeginsHere(c: Codec, s: State, items: seq<Item>, t: State, w: seq<Op>)
    requires Inv(s, items) && w != [] && w[0].Write?
    requires t.members == Considered(c, s).members && t.ops == Considered(c, s).ops + w
    ensures Begins(c, t, |BodyOf(items)|)
  {
    hide RawOf, Raw, Considered, BodyOf, ItemLocated, StartsEntry;
    var q := Considered(c, s).ops;
    ConsideredOps(c, s);
    ConsideredContinues(c, s);
    assert t.members[..|t.members|] == t.members;
    assert BeginsAt(c, t, |t.members|, q, |BodyOf(items)|);
  }

  /** Checkpoints are made when they are due, and only then, in every run: each member that was closed had emitted
      more than 1 MiB, as flushed in front of the next entry; and each entry that is not the first in its member
      begins behind a flush after which that member had emitted at most 1 MiB. */
  lemma {:induction false} MadeWhenDue(c: Codec, items: seq<Item>)
    ensures OnlyWhenDue(c, Run(c, items), items)
  {
    hide AddItem, OnlyWhenDue, Inv;
    if items == [] {
      assert OnlyWhenDue(c, INITIAL, []) by { NothingDue(c); }
    } else {
      var before := items[..|items| - 1];
      MadeWhenDue(c, before);
      RunInvariant(c, before);
      DueStep(c, Run(c, before), before, items[|items| - 1]);
      assert before + [items[|items| - 1]] == items;
    }
  }

  lemma NothingDue(c: Codec)
    ensures OnlyWhenDue(c, INITIAL, [])
  {
  }

  // ---------------------------------------------------------------- the finished file

  ghost predicate AllFlushed(members: seq<seq<Op>>) {
    forall k | 0 <= k < |members| :: members[k] != [] && members[k][|members[k]| - 1] == Flush
  }

  lemma CheckpointedFlushes(s: State)
    requires AllFlushed(s.members)
    ensures AllFlushed(Checkpointed(s).members) && |Checkpointed(s).members| == |s.members| + 1
  {
  }

  /** Every member of a finished file but the one that holds the tail was flushed right before it was finished, and
      three members follow those of the tar body: the index, the checkpoint table, and the tail. */
  lemma FlushedBeforeFinish(c: Codec, items: seq<Item>)
    ensures var s := Run(c, items); var ms := FinishedMembers(c, s);
            |ms| == |s.members| + 4 && AllFlushed(ms[..|ms| - 1])
  {
    hide Checkpointed, Run, Encoded, TailText, Boundaries, PutTable, PutEntries, Put, AllFlushed;
    var s := Run(c, items);
    MadeWhenDue(c, items);
    DueIsFlushed(c, s, items);
    var body := Put(Put(s, Zeros(BLOCK_SIZE)), Zeros(BLOCK_SIZE));
    PutKeepsMembers(s, Zeros(BLOCK_SIZE));
    PutKeepsMembers(Put(s, Zeros(BLOCK_SIZE)), Zeros(BLOCK_SIZE));
    CheckpointedFlushes(body);
    var index := PutEntries(Put(Ended(s), INDEX_HEADER), Ended(s).index);
    PutKeepsMembers(Ended(s), INDEX_HEADER);
    PutEntriesRaw(Put(Ended(s), INDEX_HEADER), Ended(s).index);
    CheckpointedFlushes(index);
    var t := Indexed(Ended(s));
    var table := PutTable(Put(t, CHECKPOINTS_HEADER), Boundaries(c, t.members));
    PutKeepsMembers(t, CHECKPOINTS_HEADER);
    PutTableRaw(Put(t, CHECKPOINTS_HEADER), Boundaries(c, t.members));
    CheckpointedFlushes(table);
    var ms := FinishedMembers(c, s);
    assert ms[..|ms| - 1] == Checkpointed(table).members;
  }

  lemma PutKeepsMembers(s: State, data: bytes)
    ensures Put(s, data).members == s.members
  {
  }

  lemma DueIsFlushed(c: Codec, s: State, items: seq<Item>)
    requires OnlyWhenDue(c, s, items)
    ensures AllFlushed(s.members)
  {
    hide Begins, BodyOf;
  }
}
