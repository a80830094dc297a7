/** The text of the SCAR-INDEX, SCAR-CHECKPOINTS and SCAR-TAIL sections, as the Rust implementation
    prints and reads it (scar-rs/scar/src/write.rs, scar-rs/scar/src/read.rs). */
module Sections {
  import opened Bytes
  import opened Decimal
  import opened PaxRecords
  import opened PaxHeader

  const INDEX_HEADER: bytes := [83, 67, 65, 82, 45, 73, 78, 68, 69, 88, 10]
  const CHECKPOINTS_HEADER: bytes := [83, 67, 65, 82, 45, 67, 72, 69, 67, 75, 80, 79, 73, 78, 84, 83, 10]
  const TAIL_HEADER: bytes := [83, 67, 65, 82, 45, 84, 65, 73, 76, 10]

  // ---------------------------------------------------------------- index entries

  datatype IndexEntry = IndexEntry(rawLoc: nat, typeflag: byte, data: bytes)

  /** The length `write_entry` prints. */
  function DeclaredLength(e: IndexEntry): nat {
    SelfLength(3 + |Digits(e.rawLoc)| + 1 + |e.data| + 1)
  }

  function EntryTail(e: IndexEntry): bytes {
    [SPACE, e.typeflag, SPACE] + Digits(e.rawLoc) + [SPACE] + e.data +
    if e.typeflag == PAX_GLOBAL then [] else [LINE_FEED]
  }

  function EntryText(e: IndexEntry): bytes {
    Digits(DeclaredLength(e)) + EntryTail(e)
  }

  /** The printed length is the length of the entry, except for `g` entries: it is one too large. */
  lemma DeclaredLengthExact(e: IndexEntry)
    ensures DeclaredLength(e) == |EntryText(e)| + if e.typeflag == PAX_GLOBAL then 1 else 0
  {
    SelfLengthExact(3 + |Digits(e.rawLoc)| + 1 + |e.data| + 1);
  }

  datatype IndexItem = IndexItem(path: bytes, typeflag: FileType, offset: nat, globalMeta: PaxMeta)

  datatype ItemResult =
    | NoMore
    | Refused
    | GlobalEntry
    | Item(item: IndexItem, rest: bytes)

  const MAX_ENTRY: nat := 16 * 1024

  /** One step of the index iterator. */
  function NextItem(s: bytes): (r: ItemResult)
    ensures r.Item? ==> |r.rest| < |s|
  {
    if s == [] || CHECKPOINTS_HEADER <= s then NoMore
    else if ReadNum(s) > MAX_ENTRY then Refused
    else ItemBody(ReadNum(s), DigitRun(s), s[DigitRun(s)..])
  }

  /** The part of an entry after its length, which was printed with `lengthDigits` digits. */
  function ItemBody(length: nat, lengthDigits: nat, t: bytes): (r: ItemResult)
    ensures r.Item? ==> |r.rest| < |t|
  {
    if |t| < 3 || t[0] != SPACE || t[2] != SPACE then Refused
    else ItemPath(t[1], length, lengthDigits, t[3..])
  }

  function ItemPath(typeflag: byte, length: nat, lengthDigits: nat, u: bytes): (r: ItemResult)
    ensures r.Item? ==> |r.rest| < |u|
  {
    var n := DigitRun(u);
    if n == |u| || u[n] != SPACE then Refused
    else if typeflag == PAX_GLOBAL then GlobalEntry
    else if length < lengthDigits + 3 + n + 2 then Refused
    else
      var c := length - (lengthDigits + 3 + n + 2);
      var w := u[n + 1..];
      if |w| <= c || w[c] != LINE_FEED then Refused
      else Item(IndexItem(w[..c], TypeOf(typeflag), ReadNum(u), EMPTY), w[c + 1..])
  }

  function ItemOf(e: IndexEntry): IndexItem {
    IndexItem(e.data, TypeOf(e.typeflag), e.rawLoc, EMPTY)
  }

  lemma ItemPathText(e: IndexEntry, lengthDigits: nat, rest: bytes)
    requires e.typeflag != PAX_GLOBAL && e.rawLoc < TWO_TO_64
    ensures ItemPath(e.typeflag, lengthDigits + 3 + |Digits(e.rawLoc)| + 1 + |e.data| + 1, lengthDigits,
                     Digits(e.rawLoc) + [SPACE] + e.data + [LINE_FEED] + rest) == Item(ItemOf(e), rest)
  {
    hide Digits, DigitRun, Accumulate, TypeOf, ReadNum;
    var d := Digits(e.rawLoc);
    var w := e.data + [LINE_FEED] + rest;
    var tail := [SPACE] + w;
    var u := d + tail;
    assert d + [SPACE] + e.data + [LINE_FEED] + rest == u;
    ReadNumDigits(e.rawLoc, tail);
    DataThenFeed(e.data, rest);
    SpaceThen(d, w);
  }

  lemma DataThenFeed(data: bytes, rest: bytes)
    ensures var w := data + [LINE_FEED] + rest; var n := |data|;
            w[n] == LINE_FEED && w[..n] == data && w[n + 1..] == rest
  {
  }

  lemma SpaceThen(d: bytes, w: bytes)
    ensures var u := d + ([SPACE] + w); u[|d|] == SPACE && u[|d| + 1..] == w
  {
  }

  lemma EntryShape(e: IndexEntry, rest: bytes) returns (u: bytes)
    requires e.typeflag != PAX_GLOBAL
    ensures u == Digits(e.rawLoc) + [SPACE] + e.data + [LINE_FEED] + rest
    ensures EntryText(e) + rest == Digits(DeclaredLength(e)) + ([SPACE, e.typeflag, SPACE] + u)
  {
    hide Digits, DeclaredLength;
    u := Digits(e.rawLoc) + [SPACE] + e.data + [LINE_FEED] + rest;
    assert EntryTail(e) + rest == [SPACE, e.typeflag, SPACE] + u;
  }

  lemma NotAHeader(n: nat, t: bytes)
    ensures !(CHECKPOINTS_HEADER <= Digits(n) + t)
  {
    assert (Digits(n) + t)[0] == Digits(n)[0];
  }

  /** A non-`g` entry reads back as itself, unless it is longer than 16384 bytes. */
  lemma NextItemText(e: IndexEntry, rest: bytes)
    requires e.typeflag != PAX_GLOBAL && e.rawLoc < TWO_TO_64 && |EntryText(e)| < TWO_TO_64
    ensures NextItem(EntryText(e) + rest) ==
            if |EntryText(e)| <= MAX_ENTRY then Item(ItemOf(e), rest) else Refused
  {
    hide Digits, DigitRun, ItemPath, ReadNum, EntryText, ItemOf;
    var length := DeclaredLength(e);
    var u := EntryShape(e, rest);
    var t := [SPACE, e.typeflag, SPACE] + u;
    DeclaredLengthExact(e);
    ReadNumDigits(length, t);
    NotAHeader(length, t);
    assert (Digits(length) + t)[|Digits(length)|..] == t;
    assert t[3..] == u;
    ItemPathText(e, |Digits(length)|, rest);
    SelfLengthExact(3 + |Digits(e.rawLoc)| + 1 + |e.data| + 1);
  }

  function EntriesText(entries: seq<IndexEntry>): bytes {
    if entries == [] then [] else EntryText(entries[0]) + EntriesText(entries[1..])
  }

  function ReadItems(s: bytes): Option<seq<IndexItem>>
    decreases |s|
  {
    match NextItem(s)
    case NoMore => Some([])
    case Refused => None
    case GlobalEntry => None
    case Item(item, rest) =>
      match ReadItems(rest)
      case Some(items) => Some([item] + items)
      case None => None
  }

  /** The whole section: the header line, then entries until the input ends or the next section starts. */
  function ReadIndex(s: bytes): Option<seq<IndexItem>> {
    if FirstLine(s) != INDEX_HEADER then None else ReadItems(s[|INDEX_HEADER|..])
  }

  /** What remains where the index iterator stops. */
  function IndexRest(s: bytes): (r: bytes)
    ensures |r| <= |s|
    ensures !NextItem(r).Item?
    decreases |s|
  {
    match NextItem(s)
    case Item(_, rest) => IndexRest(rest)
    case _ => s
  }

  /** The header of the next section is there, but the test for it sees only the `held` bytes that are buffered. */
  predicate Missed(header: bytes, rest: bytes, held: nat) {
    header <= rest && held < |header|
  }

  /** What the reader makes of the index section, when `held` bytes are buffered as it tests for its end. With less
      than the whole header it takes it for an entry, which fails. */
  function SeenIndex(s: bytes, held: nat): Option<seq<IndexItem>> {
    if FirstLine(s) == INDEX_HEADER && Missed(CHECKPOINTS_HEADER, IndexRest(s[|INDEX_HEADER|..]), held) then None
    else ReadIndex(s)
  }

  function ItemsOf(entries: seq<IndexEntry>): (items: seq<IndexItem>)
    ensures |items| == |entries|
    ensures forall i | 0 <= i < |entries| :: items[i] == ItemOf(entries[i])
  {
    seq(|entries|, i requires 0 <= i < |entries| => ItemOf(entries[i]))
  }

  predicate Readable(e: IndexEntry) {
    |EntryText(e)| <= MAX_ENTRY
  }

  predicate PlainEntry(e: IndexEntry) {
    e.typeflag != PAX_GLOBAL && e.rawLoc < TWO_TO_64 && |EntryText(e)| < TWO_TO_64
  }

  /** Where a section ends: at the end of the input, or where the next section starts. */
  predicate EndsAt(header: bytes, rest: bytes) {
    rest == [] || header <= rest
  }

  lemma {:induction false} ReadItemsText(entries: seq<IndexEntry>, rest: bytes)
    requires forall e | e in entries :: PlainEntry(e)
    requires EndsAt(CHECKPOINTS_HEADER, rest)
    ensures ReadItems(EntriesText(entries) + rest) ==
            if forall e | e in entries :: Readable(e) then Some(ItemsOf(entries)) else None
  {
    hide EntryText, NextItem, ItemOf, ItemsOf;
    if entries == [] {
      assert EntriesText(entries) + rest == rest;
      NextItemAtEnd(rest);
      assert ItemsOf(entries) == [];
    } else {
      var e, others := entries[0], entries[1..];
      assert PlainEntry(e);
      assert EntriesText(entries) + rest == EntryText(e) + (EntriesText(others) + rest);
      NextItemText(e, EntriesText(others) + rest);
      ReadItemsText(others, rest);
      FirstReadable(e, others);
      assert entries == [e] + others;
    }
  }

  lemma {:induction false} IndexRestText(entries: seq<IndexEntry>, rest: bytes)
    requires forall e | e in entries :: PlainEntry(e) && Readable(e)
    requires EndsAt(CHECKPOINTS_HEADER, rest)
    ensures IndexRest(EntriesText(entries) + rest) == rest
  {
    hide EntryText, NextItem, ItemOf;
    if entries == [] {
      assert EntriesText(entries) + rest == rest;
      NextItemAtEnd(rest);
    } else {
      var e, others := entries[0], entries[1..];
      assert e in entries;
      assert EntriesText(entries) + rest == EntryText(e) + (EntriesText(others) + rest);
      NextItemText(e, EntriesText(others) + rest);
      IndexRestText(others, rest);
    }
  }

  lemma FirstReadable(e: IndexEntry, others: seq<IndexEntry>)
    ensures ItemsOf([e] + others) == [ItemOf(e)] + ItemsOf(others)
    ensures (forall x | x in [e] + others :: Readable(x)) <==> Readable(e) && forall x | x in others :: Readable(x)
  {
    hide ItemOf, Readable;
  }

  lemma NextItemAtEnd(rest: bytes)
    requires EndsAt(CHECKPOINTS_HEADER, rest)
    ensures NextItem(rest) == NoMore
  {
  }

  lemma HeaderLine(header: bytes, n: nat, rest: bytes)
    requires |header| == n + 1 && header[n] == LINE_FEED && LINE_FEED !in header[..n]
    ensures FirstLine(header + rest) == header && (header + rest)[n + 1..] == rest
  {
    var s := header + rest;
    assert s[n] == LINE_FEED;
    assert forall i | 0 <= i < n :: s[i] == header[..n][i];
    LineEndUnique(s, n);
    assert s[..n + 1] == header;
  }

  /** The index section round trip: every list of non-`g` entries is recovered, whatever bytes the paths
      hold, exactly when no entry is longer than 16384 bytes. */
  lemma ReadIndexText(entries: seq<IndexEntry>, rest: bytes)
    requires forall e | e in entries :: PlainEntry(e)
    requires EndsAt(CHECKPOINTS_HEADER, rest)
    ensures ReadIndex(INDEX_HEADER + (EntriesText(entries) + rest)) ==
            if forall e | e in entries :: Readable(e) then Some(ItemsOf(entries)) else None
  {
    hide ReadItems, EntriesText, FirstLine, PlainEntry, EndsAt, Readable, ItemsOf;
    HeaderLine(INDEX_HEADER, 10, EntriesText(entries) + rest);
    ReadItemsText(entries, rest);
  }

  // ---------------------------------------------------------------- checkpoints

  datatype Checkpoint = Checkpoint(compressedLoc: nat, rawLoc: nat)

  function CheckpointText(c: Checkpoint): bytes {
    Digits(c.compressedLoc) + [SPACE] + Digits(c.rawLoc) + [LINE_FEED]
  }

  function CheckpointsText(cs: seq<Checkpoint>): bytes {
    if cs == [] then [] else CheckpointText(cs[0]) + CheckpointsText(cs[1..])
  }

  function ReadCheckpoint(s: bytes): (r: Option<(Checkpoint, bytes)>)
    ensures r.Some? ==> |r.value.1| < |s|
  {
    var n := DigitRun(s);
    if n == |s| || s[n] != SPACE then None
    else ReadRawLoc(ReadNum(s), s[n + 1..])
  }

  function ReadRawLoc(compressedLoc: nat, t: bytes): (r: Option<(Checkpoint, bytes)>)
    ensures r.Some? ==> |r.value.1| < |t|
  {
    var n := DigitRun(t);
    if n == |t| || t[n] != LINE_FEED then None
    else Some((Checkpoint(compressedLoc, ReadNum(t)), t[n + 1..]))
  }

  function ReadCheckpointList(s: bytes): Option<seq<Checkpoint>>
    decreases |s|
  {
    if s == [] || TAIL_HEADER <= s then Some([])
    else match ReadCheckpoint(s)
      case None => None
      case Some((c, rest)) =>
        match ReadCheckpointList(rest)
        case Some(cs) => Some([c] + cs)
        case None => None
  }

  function ReadCheckpoints(s: bytes): Option<seq<Checkpoint>> {
    if FirstLine(s) != CHECKPOINTS_HEADER then None else ReadCheckpointList(s[|CHECKPOINTS_HEADER|..])
  }

  /** What remains where the checkpoint table ends, or cannot be read. */
  function TableRest(s: bytes): (r: bytes)
    ensures |r| <= |s|
    decreases |s|
  {
    if s == [] || TAIL_HEADER <= s then s
    else match ReadCheckpoint(s)
      case None => s
      case Some((_, rest)) => TableRest(rest)
  }

  /** What the reader makes of the checkpoint section, when `held` bytes are buffered as it tests for its end. */
  function SeenCheckpoints(s: bytes, held: nat): Option<seq<Checkpoint>> {
    if FirstLine(s) == CHECKPOINTS_HEADER && Missed(TAIL_HEADER, TableRest(s[|CHECKPOINTS_HEADER|..]), held) then None
    else ReadCheckpoints(s)
  }

  predicate InRange(c: Checkpoint) {
    c.compressedLoc < TWO_TO_64 && c.rawLoc < TWO_TO_64
  }

  lemma ReadRawLocText(compressedLoc: nat, rawLoc: u64, rest: bytes)
    ensures ReadRawLoc(compressedLoc, Digits(rawLoc) + ([LINE_FEED] + rest)) ==
            Some((Checkpoint(compressedLoc, rawLoc), rest))
  {
    hide Digits, DigitRun, ReadNum;
    var t := Digits(rawLoc) + ([LINE_FEED] + rest);
    ReadNumDigits(rawLoc, [LINE_FEED] + rest);
    assert t[|Digits(rawLoc)| + 1..] == rest;
  }

  lemma ReadCheckpointText(c: Checkpoint, rest: bytes)
    requires InRange(c)
    ensures ReadCheckpoint(CheckpointText(c) + rest) == Some((c, rest))
  {
    hide Digits, DigitRun, ReadNum, ReadRawLoc;
    var t := Digits(c.rawLoc) + ([LINE_FEED] + rest);
    var s := Digits(c.compressedLoc) + ([SPACE] + t);
    assert CheckpointText(c) + rest == s;
    ReadNumDigits(c.compressedLoc, [SPACE] + t);
    assert s[|Digits(c.compressedLoc)| + 1..] == t;
    ReadRawLocText(c.compressedLoc, c.rawLoc, rest);
  }

  lemma StartsWithDigit(n: nat, rest: bytes)
    ensures var s := Digits(n) + rest; s != [] && IsDigit(s[0]) && !(TAIL_HEADER <= s)
  {
    var s := Digits(n) + rest;
    assert s[0] == Digits(n)[0];
  }

  lemma {:induction false} ReadCheckpointListText(cs: seq<Checkpoint>, after: bytes)
    requires forall c | c in cs :: InRange(c)
    requires EndsAt(TAIL_HEADER, after)
    ensures ReadCheckpointList(CheckpointsText(cs) + after) == Some(cs)
  {
    hide ReadCheckpoint, Digits;
    if cs == [] {
      assert CheckpointsText(cs) + after == after;
    } else {
      var c, rest := cs[0], CheckpointsText(cs[1..]) + after;
      assert CheckpointsText(cs) + after == CheckpointText(c) + rest;
      ReadCheckpointText(c, rest);
      var more := [SPACE] + Digits(c.rawLoc) + [LINE_FEED] + rest;
      assert CheckpointText(c) + rest == Digits(c.compressedLoc) + more;
      StartsWithDigit(c.compressedLoc, more);
      ReadCheckpointListText(cs[1..], after);
      assert cs == [c] + cs[1..];
    }
  }

  lemma {:induction false} TableRestText(cs: seq<Checkpoint>, after: bytes)
    requires forall c | c in cs :: InRange(c)
    requires EndsAt(TAIL_HEADER, after)
    ensures TableRest(CheckpointsText(cs) + after) == after
  {
    hide ReadCheckpoint, Digits;
    if cs == [] {
      assert CheckpointsText(cs) + after == after;
    } else {
      var c, rest := cs[0], CheckpointsText(cs[1..]) + after;
      assert CheckpointsText(cs) + after == CheckpointText(c) + rest;
      ReadCheckpointText(c, rest);
      var more := [SPACE] + Digits(c.rawLoc) + [LINE_FEED] + rest;
      assert CheckpointText(c) + rest == Digits(c.compressedLoc) + more;
      StartsWithDigit(c.compressedLoc, more);
      TableRestText(cs[1..], after);
    }
  }

  /** The checkpoint section round trip, for every table. */
  lemma ReadCheckpointsText(cs: seq<Checkpoint>, after: bytes)
    requires forall c | c in cs :: InRange(c)
    requires EndsAt(TAIL_HEADER, after)
    ensures ReadCheckpoints(CHECKPOINTS_HEADER + (CheckpointsText(cs) + after)) == Some(cs)
  {
    hide ReadCheckpointList, CheckpointsText, FirstLine, EndsAt;
    HeaderLine(CHECKPOINTS_HEADER, 16, CheckpointsText(cs) + after);
    ReadCheckpointListText(cs, after);
  }

  // ---------------------------------------------------------------- tail

  function TailText(indexLoc: nat, checkpointsLoc: nat): bytes {
    TAIL_HEADER + Digits(indexLoc) + [LINE_FEED] + Digits(checkpointsLoc) + [LINE_FEED]
  }

  /** A line holding one number. */
  function ReadNumberLine(s: bytes): Option<(u64, bytes)> {
    var line := FirstLine(s);
    if line == [] then None
    else match ParseU64(line[..|line| - 1])
      case Some(n) => Some((n, s[|line|..]))
      case None => None
  }

  function ReadTail(s: bytes): Option<(u64, u64)> {
    if FirstLine(s) != TAIL_HEADER then None
    else match ReadNumberLine(s[|TAIL_HEADER|..])
      case None => None
      case Some((indexLoc, rest)) =>
        match ReadNumberLine(rest)
        case None => None
        case Some((checkpointsLoc, _)) => Some((indexLoc, checkpointsLoc))
  }

  lemma ReadNumberLineText(n: u64, rest: bytes)
    ensures ReadNumberLine(Digits(n) + [LINE_FEED] + rest) == Some((n, rest))
  {
    hide ParseU64, FirstLine;
    var line := Digits(n) + [LINE_FEED];
    assert line[..|Digits(n)|] == Digits(n);
    HeaderLine(line, |Digits(n)|, rest);
    ParseU64Digits(n);
  }

  /** The tail names the two section offsets. */
  lemma ReadTailText(indexLoc: u64, checkpointsLoc: u64, rest: bytes)
    ensures ReadTail(TailText(indexLoc, checkpointsLoc) + rest) == Some((indexLoc, checkpointsLoc))
  {
    hide ReadNumberLine, FirstLine, Digits;
    var b := Digits(checkpointsLoc) + [LINE_FEED] + rest;
    var a := Digits(indexLoc) + [LINE_FEED] + b;
    assert TailText(indexLoc, checkpointsLoc) + rest == TAIL_HEADER + a;
    HeaderLine(TAIL_HEADER, 9, a);
    ReadNumberLineText(indexLoc, b);
    ReadNumberLineText(checkpointsLoc, rest);
  }

  lemma TailTextHeader(a: nat, b: nat)
    ensures TAIL_HEADER <= TailText(a, b) && |TailText(a, b)| >= |TAIL_HEADER|
  {
  }

  /** The tail text contains its header only at its start. */
  lemma HeaderOnlyFirst(a: nat, b: nat, i: nat)
    requires 0 < i < |TailText(a, b)|
    ensures TailText(a, b)[i] != TAIL_HEADER[0]
  {
    var s := TailText(a, b);
    var d := Digits(a) + [LINE_FEED] + Digits(b) + [LINE_FEED];
    assert s == TAIL_HEADER + d;
    if i >= |TAIL_HEADER| {
      assert s[i] == d[i - |TAIL_HEADER|];
    }
  }
}
