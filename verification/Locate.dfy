/** Locating the tail of an archive from its end (scar-rs/scar/src/read.rs). */
module Locate {
  import opened Bytes
  import opened Decimal
  import opened Codec
  import opened Sections
  import opened Archive
  import opened RandomAccess
  import opened TailScan

  /** Whether decoding at `loc` starts with the header of a tail. */
  predicate StartsTail(c: Codec, file: bytes, loc: nat) {
    FirstLine(DecodeAt(c, file, loc)) == TAIL_HEADER
  }

  /** Where the search of `create` ends up: at the last occurrence of the magic in the searched block at whose
      position, counted from the end of the file, a tail starts. */
  ghost predicate Located(file: bytes, df: Codec, magic: bytes, loc: Option<nat>) {
    var block, base := SearchedBlock(file), |file| - |LastBlock(file)|;
    match loc
    case Some(l) =>
      && l >= base && Occurs(block, magic, l - base) && StartsTail(df, file, l)
      && NoneBehind(file, df, magic, l)
    case None => forall j: nat | Occurs(block, magic, j) :: !StartsTail(df, file, base + j)
  }

  /** No occurrence of the magic behind position `l` is taken for a tail. */
  ghost predicate NoneBehind(file: bytes, df: Codec, magic: bytes, l: nat) {
    var block, base := SearchedBlock(file), |file| - |LastBlock(file)|;
    forall j: nat | base + j > l && Occurs(block, magic, j) :: !StartsTail(df, file, base + j)
  }

  /** The search of `create`: it counts from the end of the file, in a block that need not lie there. */
  method LocateTail(file: bytes, df: Codec, magic: bytes) returns (loc: Option<nat>)
    requires magic != []
    ensures Located(file, df, magic, loc)
  {
    hide Occurs, StartsTail, SearchedBlock, LastBlock;
    var block, base := SearchedBlock(file), BaseOf(file);
    var found, tried := FindTail(block, magic, (j: nat) => StartsTail(df, file, base + j));
    return if found.None? then None else Some(base + found.value);
  }

  function BaseOf(file: bytes): (base: nat)
    ensures base == |file| - |LastBlock(file)|
  {
    |file| - |LastBlock(file)|
  }

  lemma StartsAtTail(c: Codec, items: seq<Item>)
    requires (Bounded(c) || Continuing(c)) && FitsWords(c, items)
    ensures StartsTail(c, ArchiveOf(c, items), TailLoc(c, items))
  {
    hide DecodeAt, ArchiveOf, TailLoc, Bounded, Continuing, FitsWords, FirstLine, ReadNumberLine;
    var behindIndex, behindTable := SectionsOf(c, items);
  }

  /** The search of `create` finds the tail of a finished archive exactly when no later occurrence of the magic is
      taken for one; provided that it searches the end of the file, which its length decides, that the tail member
      lies in there, and that it starts with the magic. */
  lemma LocatesTail(c: Codec, items: seq<Item>, magic: bytes, loc: Option<nat>)
    requires (Bounded(c) || Continuing(c)) && FitsWords(c, items)
    requires var file := ArchiveOf(c, items);
             && (|file| <= 512 || |file| == 1024) && |file| - |LastBlock(file)| <= TailLoc(c, items) < |file|
             && magic != [] && magic <= file[TailLoc(c, items)..] && Located(file, c, magic, loc)
    ensures loc == Some(TailLoc(c, items)) <==> NoneBehind(ArchiveOf(c, items), c, magic, TailLoc(c, items))
  {
    hide ArchiveOf, TailLoc, Bounded, Continuing, FitsWords, StartsTail;
    StartsAtTail(c, items);
    var file, at := ArchiveOf(c, items), TailLoc(c, items);
    OccursAt(file, magic, at);
  }

  lemma FileEnd(c: Codec, items: seq<Item>)
    ensures Drop(ArchiveOf(c, items), |Encoded(c, AllMembers(c, items))|) == c.eofMarker
    ensures |Encoded(c, AllMembers(c, items))| <= |ArchiveOf(c, items)|
  {
    hide Encoded, Run, FinishedMembers;
    assert ArchiveOf(c, items) == Encoded(c, AllMembers(c, items)) + c.eofMarker;
  }

  /** The end of a `plain` archive: the tail text and the end marker. */
  lemma PlainEnd(items: seq<Item>) returns (a: nat, b: nat)
    requires FitsWords(PLAIN, items)
    ensures a < TWO_TO_64 && b < TWO_TO_64
    ensures Drop(ArchiveOf(PLAIN, items), TailLoc(PLAIN, items)) == TailText(a, b) + PLAIN_EOF
  {
    hide Raw, RawOf, AllMembers, BodyMembers, TableOf, TarBody, EntriesText, CheckpointsText, TailText;
    hide Archive.IndexOf, Encoded, ArchiveOf, TailLoc, Faithful, Bounded;
    PlainLaws();
    ContinuingIsFaithful(PLAIN);
    Layout(PLAIN, items);
    var m, n := AllMembers(PLAIN, items), |BodyMembers(PLAIN, items)|;
    DecodeMember(PLAIN, items, n + 2);
    a, b := |Encoded(PLAIN, m[..n])|, |Encoded(PLAIN, m[..n + 1])|;
    EncodedAtMost(PLAIN, m, n);
    EncodedAtMost(PLAIN, m, n + 1);
    FileEnd(PLAIN, items);
    assert m[..n + 3] == m;
  }

  lemma EncodedAtMost(c: Codec, m: seq<seq<Op>>, k: nat)
    requires k < |m|
    ensures |Encoded(c, m[..k])| <= |Encoded(c, m)|
  {
    hide Encoded;
    var rest := EncodedAt(c, m, k);
  }

  /** In the end of a `plain` archive the header of the tail occurs only at its start. */
  lemma PlainOccurs(a: nat, b: nat, i: nat)
    requires i > 0
    ensures !Occurs(TailText(a, b) + PLAIN_EOF, TAIL_HEADER, i)
  {
    hide TailText;
    var t := TailText(a, b);
    var s := t + PLAIN_EOF;
    if 0 < i < |t| {
      HeaderOnlyFirst(a, b, i);
      assert s[i] == t[i];
    }
    if i + |TAIL_HEADER| <= |s| {
      assert s[i..i + |TAIL_HEADER|][0] == s[i];
    }
  }

  lemma WordTail(a: nat, b: nat)
    requires a < TWO_TO_64 && b < TWO_TO_64
    ensures |TailText(a, b)| <= 52
  {
    hide Digits, Pow10;
    Pow10Twenty();
    DigitsBound(a, 20);
    DigitsBound(b, 20);
  }

  lemma Pow10Twenty()
    ensures Pow10(20) > TWO_TO_64
  {
    assert Pow10(4) == 10000;
    assert Pow10(8) == 10000 * Pow10(4);
    assert Pow10(12) == 10000 * Pow10(8);
    assert Pow10(16) == 10000 * Pow10(12);
    assert Pow10(20) == 10000 * Pow10(16);
  }

  /** For the `plain` format the search of `create` finds the tail of every finished archive whose length makes it
      search the end of the file. */
  lemma LocatesPlainTail(items: seq<Item>, loc: Option<nat>)
    requires FitsWords(PLAIN, items)
    requires var file := ArchiveOf(PLAIN, items);
             (|file| <= 512 || |file| == 1024) && Located(file, PLAIN, TAIL_HEADER, loc)
    ensures loc == Some(TailLoc(PLAIN, items))
  {
    hide ArchiveOf, TailLoc, FitsWords, Bounded, Continuing, StartsTail, Occurs, TailText;
    PlainLaws();
    var file, at := ArchiveOf(PLAIN, items), TailLoc(PLAIN, items);
    var a, b := PlainEnd(items);
    WordTail(a, b);
    TailTextHeader(a, b);
    var base := |file| - |LastBlock(file)|;
    forall j: nat | base + j > at
      ensures !Occurs(SearchedBlock(file), TAIL_HEADER, j)
    {
      PlainOccurs(a, b, base + j - at);
      OccursBehind(file, TAIL_HEADER, at, j);
    }
    LocatesTail(PLAIN, items, TAIL_HEADER, loc);
  }

  lemma OccursBehind(file: bytes, magic: bytes, at: nat, j: nat)
    requires |file| <= 512 || |file| == 1024
    requires var base := |file| - |LastBlock(file)|; base <= at <= |file| && base + j >= at
    ensures Occurs(SearchedBlock(file), magic, j) <==>
            Occurs(file[at..], magic, |file| - |LastBlock(file)| + j - at)
  {
    var base := |file| - |LastBlock(file)|;
    assert SearchedBlock(file) == file[base..];
    if base + j + |magic| <= |file| {
      assert file[base..][j..j + |magic|] == file[base + j..base + j + |magic|];
      assert file[at..][base + j - at..base + j - at + |magic|] == file[base + j..base + j + |magic|];
    }
  }

  lemma OccursAt(file: bytes, magic: bytes, at: nat)
    requires |file| <= 512 || |file| == 1024
    requires |file| - |LastBlock(file)| <= at <= |file| && magic <= file[at..]
    ensures Occurs(SearchedBlock(file), magic, at - (|file| - |LastBlock(file)|))
  {
    var base := |file| - |LastBlock(file)|;
    assert SearchedBlock(file) == file[base..];
    assert file[base..][at - base..] == file[at..];
    assert file[at..][..|magic|] == magic;
  }
}
