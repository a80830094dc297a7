/** Where the C writer makes its checkpoints, over the tar bytes of the entries alone
    (`scar_writer_write_entry` and `create_checkpoint`, scar-c/src/scar-writer.c). */
module CCheckpoints {
  import opened Bytes
  import opened Sections
  import opened CArchive

  /** Where entry `i` starts. */
  function StartOf(entries: seq<Entry>, i: nat): nat
    requires i <= |entries|
  {
    |TarOf(entries[..i])|
  }

  /** The `j`-th checkpoint; the front of the archive counts as one. */
  function Nth(table: seq<Checkpoint>, j: nat): nat
    requires j <= |table|
  {
    if j == 0 then 0 else table[j - 1].rawLoc
  }

  ghost predicate AtAnEntry(entries: seq<Entry>, c: Checkpoint) {
    c.compressedLoc == c.rawLoc && exists i: nat :: i < |entries| && c.rawLoc == StartOf(entries, i)
  }

  /** `offset` lies at a checkpoint, or at most 10 MiB behind one. */
  ghost predicate Near(table: seq<Checkpoint>, offset: nat) {
    exists j: nat :: j <= |table| && Nth(table, j) <= offset <= Nth(table, j) + 10 * 1024 * 1024
  }

  /** Every checkpoint is at the start of an entry, each more than 10 MiB behind the one before, and no entry starts
      more than 10 MiB behind the last checkpoint. There is only one such table. */
  ghost predicate PlacedRight(table: seq<Checkpoint>, entries: seq<Entry>) {
    && (forall j | 0 <= j < |table| :: AtAnEntry(entries, table[j]))
    && (forall j: nat | j < |table| :: Nth(table, j + 1) > Nth(table, j) + 10 * 1024 * 1024)
    && (forall i: nat | i < |entries| :: Near(table, StartOf(entries, i)))
  }

  lemma AtAnEntryStays(entries: seq<Entry>, e: Entry, c: Checkpoint)
    requires AtAnEntry(entries, c)
    ensures AtAnEntry(entries + [e], c)
  {
    hide TarOf;
    var i: nat :| i < |entries| && c.rawLoc == StartOf(entries, i);
    assert (entries + [e])[..i] == entries[..i];
    assert c.rawLoc == StartOf(entries + [e], i);
  }

  lemma NearStays(table: seq<Checkpoint>, c: Checkpoint, offset: nat)
    requires Near(table, offset)
    ensures Near(table + [c], offset)
  {
    var j: nat :| j <= |table| && Nth(table, j) <= offset <= Nth(table, j) + 10 * 1024 * 1024;
    assert Nth(table + [c], j) == Nth(table, j);
  }

  lemma PlacedStep(s: CState, entries: seq<Entry>, e: Entry)
    requires PlacedRight(s.table, entries) && s.body == TarOf(entries) && s.last == Nth(s.table, |s.table|) <= |s.body|
    ensures var t := Added(s, e);
            PlacedRight(t.table, entries + [e]) && t.last == Nth(t.table, |t.table|) <= |t.body|
  {
    hide TarOf, Framed, Near, AtAnEntry;
    var t, all, here := Added(s, e), entries + [e], Checkpoint(|s.body|, |s.body|);
    assert t.table == s.table || t.table == s.table + [here];
    assert all[..|entries|] == entries;
    forall j | 0 <= j < |t.table|
      ensures AtAnEntry(all, t.table[j])
    {
      if j < |s.table| {
        AtAnEntryStays(entries, e, s.table[j]);
      } else {
        HereIsAnEntry(all, |entries|);
      }
    }
    assert forall j: nat | j < |s.table| :: Nth(t.table, j) == Nth(s.table, j);
    forall i: nat | i < |all|
      ensures Near(t.table, StartOf(all, i))
    {
      if i < |entries| {
        assert all[..i] == entries[..i];
        NearStays(s.table, here, StartOf(entries, i));
      } else {
        NearLast(t.table, |s.body|);
      }
    }
  }

  lemma HereIsAnEntry(entries: seq<Entry>, i: nat)
    requires i < |entries|
    ensures AtAnEntry(entries, Checkpoint(StartOf(entries, i), StartOf(entries, i)))
  {
    hide TarOf;
  }

  lemma NearLast(table: seq<Checkpoint>, offset: nat)
    ensures Nth(table, |table|) <= offset <= Nth(table, |table|) + 10 * 1024 * 1024 ==> Near(table, offset)
  {
  }

  /** Where the checkpoints of a run are. */
  lemma {:induction false} PlacedByRun(entries: seq<Entry>)
    ensures var s := Run(entries);
            && s.body == TarOf(entries) && PlacedRight(s.table, entries)
            && s.last == Nth(s.table, |s.table|) <= |s.body|
  {
    hide Added, PlacedRight, Nth;
    if entries == [] {
      PlacedNowhere();
    } else {
      var n := |entries| - 1;
      PlacedByRun(entries[..n]);
      PlacedStep(Run(entries[..n]), entries[..n], entries[n]);
      BodyAdded(Run(entries[..n]), entries[n]);
      assert entries[..n] + [entries[n]] == entries;
    }
  }

  lemma BodyAdded(s: CState, e: Entry)
    ensures Added(s, e).body == s.body + e.tar
  {
    hide Framed;
  }

  lemma PlacedNowhere()
    ensures PlacedRight([], []) && Nth([], 0) == 0
  {
  }

  lemma {:induction false} Ascending(table: seq<Checkpoint>, entries: seq<Entry>, i: nat, j: nat)
    requires PlacedRight(table, entries) && i <= j <= |table|
    ensures Nth(table, i) <= Nth(table, j)
    decreases j
  {
    hide Nth, Near, AtAnEntry;
    if i < j {
      Ascending(table, entries, i, j - 1);
    }
  }

  /** Behind a common front, neither table has its next checkpoint later than the other. */
  lemma NextNoLater(a: seq<Checkpoint>, b: seq<Checkpoint>, entries: seq<Entry>, n: nat)
    requires PlacedRight(a, entries) && PlacedRight(b, entries)
    requires n < |a| && n <= |b| && a[..n] == b[..n]
    ensures n < |b| && Nth(b, n + 1) <= Nth(a, n + 1)
  {
    hide StartOf;
    assert AtAnEntry(entries, a[n]);
    var i: nat :| i < |entries| && a[n].rawLoc == StartOf(entries, i);
    assert Near(b, StartOf(entries, i));
    var j: nat :| j <= |b| && Nth(b, j) <= a[n].rawLoc <= Nth(b, j) + 10 * 1024 * 1024;
    assert n > 0 ==> a[n - 1] == a[..n][n - 1] == b[n - 1];
    assert Nth(a, n + 1) > Nth(a, n) + 10 * 1024 * 1024;
    if j <= n {
      Ascending(b, entries, j, n);
    }
    Ascending(b, entries, n + 1, j);
  }

  lemma {:induction false} SameUpTo(a: seq<Checkpoint>, b: seq<Checkpoint>, entries: seq<Entry>, n: nat)
    requires PlacedRight(a, entries) && PlacedRight(b, entries) && n <= |a|
    ensures n <= |b| && a[..n] == b[..n]
  {
    hide PlacedRight;
    if n > 0 {
      SameUpTo(a, b, entries, n - 1);
      NextNoLater(a, b, entries, n - 1);
      NextNoLater(b, a, entries, n - 1);
      BothOffsets(a, entries, n - 1);
      BothOffsets(b, entries, n - 1);
      assert a[..n] == a[..n - 1] + [a[n - 1]] && b[..n] == b[..n - 1] + [b[n - 1]];
    }
  }

  lemma BothOffsets(table: seq<Checkpoint>, entries: seq<Entry>, j: nat)
    requires PlacedRight(table, entries) && j < |table|
    ensures table[j] == Checkpoint(Nth(table, j + 1), Nth(table, j + 1))
  {
    assert AtAnEntry(entries, table[j]);
  }

  /** Only one table is placed right. */
  lemma OnlyOneTable(a: seq<Checkpoint>, b: seq<Checkpoint>, entries: seq<Entry>)
    requires PlacedRight(a, entries) && PlacedRight(b, entries)
    ensures a == b
  {
    hide PlacedRight;
    SameUpTo(a, b, entries, |a|);
    SameUpTo(b, a, entries, |b|);
    assert a[..|a|] == a && b[..|b|] == b;
  }
}
