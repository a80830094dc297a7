/** `convert`: turning any readable tar stream into an archive (scar-rs/scar-bin/src/main.rs). */
module Convert {
  import opened Bytes
  import opened PaxRecords
  import opened PaxHeader
  import opened PaxIO
  import opened Codec
  import opened Cursor
  import opened Sections
  import opened Archive
  import opened RandomAccess
  import opened Writer

  /** The bytes of content blocks that follow a header: only regular files have any, and the size is
      cast to a signed 64-bit number. */
  function ContentLength(meta: Metadata): nat {
    if meta.typeflag.File? && WrapSigned(meta.size) > 0 then PaddedLength(meta.size) else 0
  }

  /** What a tar stream means: every entry with its resolved metadata and its content blocks. */
  function DecodeTar(global: PaxMeta, s: bytes): Result<seq<Item>>
    decreases |s|
  {
    match NextHeader(global, s)
    case Failed => Err
    case EndOfArchive(_, _) => Ok([])
    case Header(meta, global', rest) =>
      var n := ContentLength(meta);
      if |rest| < n then Err
      else match DecodeTar(global', rest[n..])
        case Err => Err
        case Ok(items) => Ok([RawItem.Item(meta, rest[..n])] + items)
  }

  // ---------------------------------------------------------------- the meaning of the converted body

  /** Entries as `DecodeTar` yields them. */
  predicate Copied(items: seq<Item>) {
    forall i | 0 <= i < |items| :: |items[i].blocks| == ContentLength(items[i].meta)
  }

  lemma {:induction false} DecodedIsCopied(global: PaxMeta, s: bytes)
    ensures DecodeTar(global, s).Ok? ==> Copied(DecodeTar(global, s).value)
    decreases |s|
  {
    hide NextHeader, ContentLength;
    match NextHeader(global, s)
    case Failed =>
    case EndOfArchive(_, _) =>
    case Header(meta, global', rest) =>
      var n := ContentLength(meta);
      if |rest| >= n {
        DecodedIsCopied(global', rest[n..]);
      }
  }

  function ReadbackItem(item: Item): Item {
    RawItem.Item(Readback(item.meta), item.blocks)
  }

  function ReadbackAll(items: seq<Item>): (r: seq<Item>)
    ensures |r| == |items|
    ensures forall i | 0 <= i < |items| :: r[i] == ReadbackItem(items[i])
  {
    seq(|items|, i requires 0 <= i < |items| => ReadbackItem(items[i]))
  }

  predicate ValuesFit(item: Item) {
    AllFit(Records(Extended(item.meta)))
  }

  lemma {:induction false} BodyFront(items: seq<Item>)
    requires items != []
    ensures BodyOf(items) == EntryBytes(items[0]) + BodyOf(items[1..])
  {
    hide EntryBytes;
    var n := |items| - 1;
    if n == 0 {
      assert items[..0] == [] && items[1..] == [];
    } else {
      BodyFront(items[..n]);
      assert items[..n][1..] == items[1..][..n - 1];
      assert items[1..][n - 1] == items[n];
    }
  }

  /** Whatever follows the end marker is left alone. */
  lemma EndMarker(global: PaxMeta, rest: bytes)
    ensures NextHeader(global, Zeros(2 * BLOCK_SIZE) + rest) == EndOfArchive(global, rest)
  {
    hide Resolve, ReadContent;
    var z := Zeros(BLOCK_SIZE);
    var s := Zeros(2 * BLOCK_SIZE) + rest;
    assert s[..BLOCK_SIZE] == z && s[BLOCK_SIZE..] == z + rest;
    assert (z + rest)[..BLOCK_SIZE] == z && (z + rest)[BLOCK_SIZE..] == rest;
    assert AllZero(z);
  }

  lemma ReadbackKeepsLength(meta: Metadata)
    ensures ContentLength(Readback(meta)) == ContentLength(meta)
  {
  }

  predicate AllValuesFit(items: seq<Item>) {
    forall i | 0 <= i < |items| :: ValuesFit(items[i])
  }

  predicate AllShort(items: seq<Item>) {
    forall i | 0 <= i < |items| :: ShortHeader(items[i].meta)
  }

  lemma Uncons(item: Item, others: seq<Item>)
    ensures var items := [item] + others;
            && (Copied(items) <==> |item.blocks| == ContentLength(item.meta) && Copied(others))
            && (AllShort(items) <==> ShortHeader(item.meta) && AllShort(others))
            && (AllValuesFit(items) <==> ValuesFit(item) && AllValuesFit(others))
            && ReadbackAll(items) == [ReadbackItem(item)] + ReadbackAll(others)
  {
    hide ContentLength, ShortHeader, ValuesFit, ReadbackItem, ReadbackAll, AllShort, AllValuesFit, Copied;
    UnconsCopied(item, others);
    UnconsPredicates(item, others);
    UnconsReadback(item, others);
  }

  lemma UnconsReadback(item: Item, others: seq<Item>)
    ensures ReadbackAll([item] + others) == [ReadbackItem(item)] + ReadbackAll(others)
  {
    hide ReadbackItem;
  }

  lemma UnconsCopied(item: Item, others: seq<Item>)
    ensures Copied([item] + others) <==> |item.blocks| == ContentLength(item.meta) && Copied(others)
  {
    hide ContentLength;
    var items := [item] + others;
    assert items[0] == item;
    assert forall i | 0 <= i < |others| :: others[i] == items[i + 1];
  }

  lemma UnconsPredicates(item: Item, others: seq<Item>)
    ensures AllShort([item] + others) <==> ShortHeader(item.meta) && AllShort(others)
    ensures AllValuesFit([item] + others) <==> ValuesFit(item) && AllValuesFit(others)
  {
    hide ShortHeader, ValuesFit;
    var items := [item] + others;
    assert items[0] == item;
    assert forall i | 0 <= i < |others| :: others[i] == items[i + 1];
  }

  /** Entries in front of what is decoded behind them. */
  function Prefixed(done: seq<Item>, more: Result<seq<Item>>): Result<seq<Item>> {
    match more
    case Ok(items) => Ok(done + items)
    case Err => Err
  }

  /** Decoding written entries, whatever follows them. */
  lemma {:induction false} DecodeEntries(items: seq<Item>, tail: bytes)
    requires Copied(items) && AllShort(items)
    ensures DecodeTar(EMPTY, BodyOf(items) + tail) ==
            if AllValuesFit(items) then Prefixed(ReadbackAll(items), DecodeTar(EMPTY, tail)) else Err
    decreases |items|
  {
    hide NextHeader, ContentLength, ReadbackItem, ReadbackAll, ValuesFit, AllValuesFit, AllShort, Copied;
    hide ShortHeader, BodyOf, DecodeTar;
    if items == [] {
      DecodeNothing(tail);
    } else {
      var item, others := items[0], items[1..];
      assert items == [item] + others;
      Uncons(item, others);
      DecodeEntries(others, tail);
      DecodeFirst(item, others, tail);
      PrefixedTwice(ReadbackItem(item), ReadbackAll(others), DecodeTar(EMPTY, tail));
    }
  }

  lemma PrefixedTwice(first: Item, others: seq<Item>, more: Result<seq<Item>>)
    ensures Prefixed([first], Prefixed(others, more)) == Prefixed([first] + others, more)
  {
    if more.Ok? {
      assert [first] + (others + more.value) == [first] + others + more.value;
    }
  }

  lemma DecodeNothing(tail: bytes)
    ensures BodyOf([]) + tail == tail && ReadbackAll([]) == [] && AllValuesFit([])
    ensures Prefixed(ReadbackAll([]), DecodeTar(EMPTY, tail)) == DecodeTar(EMPTY, tail)
  {
    hide NextHeader, DecodeTar;
    assert [] + tail == tail;
    PrefixedNone(DecodeTar(EMPTY, tail));
  }

  lemma DecodeFirst(item: Item, others: seq<Item>, tail: bytes)
    requires ShortHeader(item.meta) && |item.blocks| == ContentLength(item.meta)
    ensures DecodeTar(EMPTY, BodyOf([item] + others) + tail) ==
            if !ValuesFit(item) then Err else Prefixed([ReadbackItem(item)], DecodeTar(EMPTY, BodyOf(others) + tail))
  {
    hide NextHeader, ContentLength, ValuesFit, ShortHeader, EntryBytes, BodyOf, Readback;
    var items := [item] + others;
    var rest := BodyOf(others) + tail;
    BodyFront(items);
    assert items[1..] == others;
    assert BodyOf(items) + tail == EntryBytes(item) + rest;
    NextOfEntry(item, rest);
    ReadbackKeepsLength(item.meta);
    var s := item.blocks + rest;
    assert s[..|item.blocks|] == item.blocks && s[|item.blocks|..] == rest;
    DecodeTarStep(EMPTY, BodyOf(items) + tail);
  }

  /** Decoding the body that was written for `items`, computed; what follows the body does not matter. */
  lemma DecodeBody(items: seq<Item>, behind: bytes)
    requires Copied(items) && AllShort(items)
    ensures DecodeTar(EMPTY, TarBody(items) + behind) == if AllValuesFit(items) then Ok(ReadbackAll(items)) else Err
  {
    hide NextHeader, ReadbackAll, AllValuesFit, AllShort, Copied, BodyOf, DecodeTar;
    var tail := Zeros(2 * BLOCK_SIZE) + behind;
    assert TarBody(items) + behind == BodyOf(items) + tail;
    DecodeEntries(items, tail);
    EndMarker(EMPTY, behind);
    DecodeTarStep(EMPTY, tail);
    NothingMore(ReadbackAll(items));
  }

  lemma NothingMore(items: seq<Item>)
    ensures Prefixed(items, Ok([])) == Ok(items) && Prefixed(items, Err) == Err
  {
    assert items + [] == items;
  }

  /** Written entries without the whole end marker behind them are refused. */
  lemma CutBody(items: seq<Item>, n: nat)
    requires Copied(items) && AllShort(items) && n < 1024
    ensures DecodeTar(EMPTY, BodyOf(items) + Zeros(n)) == Err
  {
    hide NextHeader, ReadbackAll, AllValuesFit, AllShort, Copied, BodyOf, DecodeTar;
    DecodeEntries(items, Zeros(n));
    CutMarker(EMPTY, n);
    DecodeTarStep(EMPTY, Zeros(n));
    NothingMore(ReadbackAll(items));
  }

  lemma CutMarker(global: PaxMeta, n: nat)
    requires n < 1024
    ensures NextHeader(global, Zeros(n)) == Failed
  {
    hide Resolve, ReadContent;
    if n >= 512 {
      var z := Zeros(n);
      assert z[..BLOCK_SIZE][156] == z[156];
      assert AllZero(z[..BLOCK_SIZE]);
    }
  }

  lemma NextOfEntry(item: Item, rest: bytes)
    requires ShortHeader(item.meta)
    ensures NextHeader(EMPTY, EntryBytes(item) + rest) ==
            if ValuesFit(item) then Header(Readback(item.meta), EMPTY, item.blocks + rest) else Failed
  {
    hide NextHeader, WriteHeader, Readback, Stringify, Extended, Records;
    assert EntryBytes(item) + rest == WriteHeader(item.meta) + (item.blocks + rest);
    ReadWrittenHeader(item.meta, item.blocks + rest);
  }

  lemma SameItems(items: seq<Item>)
    ensures AllValuesFit(items) && ReadbackAll(items) == items <==>
            forall i | 0 <= i < |items| :: Representable(items[i].meta)
  {
    hide Readback, Representable, Extended, Records;
    forall i | 0 <= i < |items|
      ensures Representable(items[i].meta) <==> ValuesFit(items[i]) && ReadbackItem(items[i]) == items[i]
    {
      ReadbackExact(items[i].meta);
    }
    if ReadbackAll(items) == items {
      forall i | 0 <= i < |items|
        ensures ReadbackItem(items[i]) == items[i]
      {
        assert ReadbackAll(items)[i] == items[i];
      }
    }
  }

  predicate AllRepresentable(items: seq<Item>) {
    forall i | 0 <= i < |items| :: Representable(items[i].meta)
  }

  /** A written body means the entries it was written for exactly when their metadata is representable;
      other metadata does not come back, unless an extended header is too long for its own size field. */
  lemma BodyKeepsMeaning(items: seq<Item>, behind: bytes)
    requires Copied(items)
    ensures AllRepresentable(items) ==> DecodeTar(EMPTY, TarBody(items) + behind) == Ok(items)
    ensures AllShort(items) && !AllRepresentable(items) ==> DecodeTar(EMPTY, TarBody(items) + behind) != Ok(items)
  {
    hide DecodeTar, TarBody, ReadbackAll, Representable, ShortHeader, AllValuesFit, Copied;
    if AllRepresentable(items) {
      forall i | 0 <= i < |items|
        ensures ShortHeader(items[i].meta)
      {
        RepresentableIsShort(items[i].meta);
      }
    }
    if AllShort(items) {
      DecodeBody(items, behind);
      SameItems(items);
    }
  }

  // ---------------------------------------------------------------- the body of a finished file

  /** What decoding at each of these positions yields, one after the other. */
  function DecodedFrom(c: Codec, file: bytes, starts: seq<nat>): bytes {
    if starts == [] then []
    else DecodedFrom(c, file, starts[..|starts| - 1]) + DecodeAt(c, file, starts[|starts| - 1])
  }

  /** Where the first members start: at the front, and at the first checkpoints. */
  function MemberStarts(table: seq<Checkpoint>): (starts: seq<nat>)
    ensures |starts| == |table| + 1
    ensures forall k | 0 <= k < |starts| :: starts[k] == if k == 0 then 0 else table[k - 1].compressedLoc
  {
    seq(|table| + 1, k requires 0 <= k <= |table| => if k == 0 then 0 else table[k - 1].compressedLoc)
  }

  lemma {:induction false} DecodedMembers(c: Codec, items: seq<Item>, k: nat)
    requires Bounded(c) && k <= |BodyMembers(c, items)|
    ensures k <= |TableOf(c, items)| && k <= |AllMembers(c, items)|
    ensures DecodedFrom(c, ArchiveOf(c, items), MemberStarts(TableOf(c, items))[..k]) ==
            RawOf(AllMembers(c, items)[..k])
  {
    hide Raw, Encoded, AllMembers, BodyMembers, ArchiveOf, TableOf, TarBody, EntriesText, CheckpointsText;
    hide Bounded, Archive.IndexOf, TailText, DecodeAt, TailLoc;
    Layout(c, items);
    var m, table := AllMembers(c, items), TableOf(c, items);
    var starts := MemberStarts(table);
    if k > 0 {
      DecodedMembers(c, items, k - 1);
      BoundedIsFaithful(c);
      DecodeMember(c, items, k - 1);
      assert starts[..k][..k - 1] == starts[..k - 1] && m[..k][..k - 1] == m[..k - 1];
      assert starts[k - 1] == |Encoded(c, m[..k - 1])| by {
        StartAt(c, items, k - 1);
      }
    }
  }

  lemma StartAt(c: Codec, items: seq<Item>, k: nat)
    requires k < |BodyMembers(c, items)|
    ensures k <= |TableOf(c, items)| && k < |AllMembers(c, items)|
    ensures MemberStarts(TableOf(c, items))[k] == |Encoded(c, AllMembers(c, items)[..k])|
  {
    hide Raw, RawOf, AllMembers, BodyMembers, ArchiveOf, TableOf, TarBody, EntriesText, CheckpointsText;
    hide Archive.IndexOf, TailText, TailLoc;
    Layout(c, items);
    var m, n := AllMembers(c, items), |BodyMembers(c, items)|;
    if k > 0 {
      assert m[..n + 1][..k] == m[..k];
    }
  }

  /** The tar body of a finished file, as a reader finds it: the members up to the index one after the other,
      or, with a decoder that goes on by itself, everything from the front. */
  ghost function BodyIn(c: Codec, items: seq<Item>): bytes {
    var file, n := ArchiveOf(c, items), |BodyMembers(c, items)|;
    var starts := MemberStarts(TableOf(c, items));
    if Bounded(c) && n <= |starts| then DecodedFrom(c, file, starts[..n]) else DecodeAt(c, file, 0)
  }

  lemma BodyInFile(c: Codec, items: seq<Item>) returns (behind: bytes)
    requires Bounded(c) || Continuing(c)
    ensures BodyIn(c, items) == TarBody(items) + behind
  {
    hide Raw, RawOf, Encoded, AllMembers, BodyMembers, ArchiveOf, TableOf, TarBody, EntriesText;
    hide CheckpointsText;
    hide Bounded, Continuing, Archive.IndexOf, TailText, DecodeAt, TailLoc, DecodedFrom;
    Layout(c, items);
    var m, n := AllMembers(c, items), |BodyMembers(c, items)|;
    if Bounded(c) {
      DecodedMembers(c, items, n);
      behind := [];
      assert TarBody(items) + behind == TarBody(items);
    } else {
      BodyBehind(c, items, m, n, 0);
      NothingEncodedRaw(m);
      assert m[..0] == [];
      NothingEncoded(c);
      behind := DecodeAt(c, ArchiveOf(c, items), 0)[|TarBody(items)|..];
    }
  }

  /** Converting preserves meaning: for every tar stream the reader accepts with representable metadata,
      decoding the tar body of the file that is written for it gives the same entries, with every `g`, `x`, `L`
      and `K` record flattened into them. With any other metadata it does not, unless an extended header is too
      long for its own size field. */
  lemma ConvertPreservesMeaning(c: Codec, input: bytes)
    requires Bounded(c) || Continuing(c)
    requires DecodeTar(EMPTY, input).Ok?
    ensures var items := DecodeTar(EMPTY, input).value;
            && (AllRepresentable(items) ==> DecodeTar(EMPTY, BodyIn(c, items)) == Ok(items))
            && (AllShort(items) && !AllRepresentable(items) ==> DecodeTar(EMPTY, BodyIn(c, items)) != Ok(items))
  {
    hide DecodeTar, TarBody, BodyIn, AllRepresentable, AllShort, Copied, Bounded, Continuing;
    var items := DecodeTar(EMPTY, input).value;
    DecodedIsCopied(EMPTY, input);
    var behind := BodyInFile(c, items);
    BodyKeepsMeaning(items, behind);
  }

  // ---------------------------------------------------------------- the command

  lemma PrefixedNone(more: Result<seq<Item>>)
    ensures Prefixed([], more) == more
  {
    if more.Ok? {
      assert [] + more.value == more.value;
    }
  }

  lemma PrefixedPush(done: seq<Item>, item: Item, more: Result<seq<Item>>)
    ensures Prefixed(done, match more case Ok(items) => Ok([item] + items) case Err => Err) ==
            Prefixed(done + [item], more)
  {
    if more.Ok? {
      assert done + ([item] + more.value) == done + [item] + more.value;
    }
  }

  lemma RunPush(c: Codec, done: seq<Item>, item: Item)
    ensures Run(c, done + [item]) == AddItem(c, Run(c, done), item)
  {
    assert (done + [item])[..|done|] == done;
  }

  lemma DecodeTarStep(global: PaxMeta, s: bytes)
    ensures DecodeTar(global, s) == match NextHeader(global, s)
      case Failed => Err
      case EndOfArchive(_, _) => Ok([])
      case Header(meta, global', rest) =>
        (if |rest| < ContentLength(meta) then Err
         else match DecodeTar(global', rest[ContentLength(meta)..])
           case Err => Err
           case Ok(items) => Ok([RawItem.Item(meta, rest[..ContentLength(meta)])] + items))
  {
    hide NextHeader, ContentLength;
  }

  /** Behind the header of a regular file stand as many whole blocks as its size needs, and the stream is refused
      when they are not all there. Behind any other header, whatever its size says, the next one follows. */
  lemma OnlyFilesHaveContent(global: PaxMeta, s: bytes, n: nat)
    requires NextHeader(global, s).Header?
    ensures var h := NextHeader(global, s);
            && (h.meta.typeflag != FileType.File ==>
                  DecodeTar(global, s) == Prefixed([RawItem.Item(h.meta, [])], DecodeTar(h.global, h.rest)))
            && (h.meta.typeflag == FileType.File && HoldsSize(n, h.meta.size) ==>
                  DecodeTar(global, s) ==
                  if |h.rest| < n then Err
                  else Prefixed([RawItem.Item(h.meta, h.rest[..n])], DecodeTar(h.global, h.rest[n..])))
  {
    hide NextHeader, ContentLength, DecodeTar, HoldsSize;
    var h := NextHeader(global, s);
    DecodeTarStep(global, s);
    ContentOf(h.meta, n);
    assert h.rest[..0] == [] && h.rest[0..] == h.rest;
  }

  /** `n` is the least whole number of blocks that hold `size` bytes, and the size is not negative as a signed
      64-bit number. */
  predicate HoldsSize(n: nat, size: u64) {
    size < 0x8000_0000_0000_0000 && n % 512 == 0 && n - 512 < size <= n
  }

  lemma ContentOf(meta: Metadata, n: nat)
    ensures meta.typeflag != FileType.File ==> ContentLength(meta) == 0
    ensures meta.typeflag == FileType.File && HoldsSize(n, meta.size) ==> ContentLength(meta) == n
  {
    hide PaddedLength;
    if HoldsSize(n, meta.size) {
      SameBlocks(n, PaddedLength(meta.size));
    }
  }

  lemma SameBlocks(a: int, b: int)
    requires a % 512 == 0 && b % 512 == 0 && a - 512 < b < a + 512
    ensures a == b
  {
  }

  /** Copies the content blocks of one entry from the reader to the writer. */
  method CopyBlocks(reader: PaxReader, writer: ScarWriter, header: Metadata) returns (ok: bool)
    requires reader.r.Valid() && reader.r.InSync() && writer.Valid()
    modifies reader.r, reader.r.file, writer
    ensures reader.r.Valid() && reader.r.InSync() && writer.Valid()
    ensures ok <==> ContentLength(header) <= |old(reader.r.Remaining())|
    ensures ok ==> reader.r.Remaining() == old(reader.r.Remaining())[ContentLength(header)..]
    ensures ok ==> ContentLength(header) % BLOCK_SIZE == 0 &&
                   writer.Now() == PutBlocks(old(writer.Now()), old(reader.r.Remaining())[..ContentLength(header)])
  {
    hide Decoder.Valid, Decoder.InSync, Decoder.Remaining, ScarWriter.Valid, PutBlocks, PaddedLength;
    ghost var s, was := reader.r.Remaining(), writer.Now();
    ghost var copied: bytes := [];
    PutNoBlocks(was);
    if header.typeflag == FileType.File {
      var size: int := WrapSigned(header.size);
      ghost var total := ContentLength(header);
      ContentLengthBound(header);
      while size > 0
        invariant reader.r.Valid() && reader.r.InSync() && writer.Valid()
        invariant |copied| <= |s| && copied == s[..|copied|] && reader.r.Remaining() == s[|copied|..]
        invariant |copied| % BLOCK_SIZE == 0 && writer.Now() == PutBlocks(was, copied)
        invariant size > 0 ==> |copied| + BLOCK_SIZE <= total && size == WrapSigned(header.size) - |copied|
        invariant size <= 0 ==> |copied| == total
      {
        var block := reader.r.ReadExact(BLOCK_SIZE);
        if block.None? {
          return false;
        }
        PutBlocksPush(was, copied, block.value);
        writer.WriteBlock(block.value);
        TakeMore(s, |copied|, BLOCK_SIZE);
        copied := copied + block.value;
        size := size - BLOCK_SIZE;
        MoreBlocks(header, |copied|);
      }
    }
    return true;
  }

  lemma ContentLengthBound(meta: Metadata)
    requires meta.typeflag.File?
    ensures WrapSigned(meta.size) > 0 ==> ContentLength(meta) >= BLOCK_SIZE && WrapSigned(meta.size) == meta.size
    ensures WrapSigned(meta.size) <= 0 ==> ContentLength(meta) == 0
  {
  }

  lemma MoreBlocks(meta: Metadata, copied: nat)
    requires meta.typeflag.File? && WrapSigned(meta.size) > 0
    requires BLOCK_SIZE <= copied <= ContentLength(meta) && copied % BLOCK_SIZE == 0
    requires copied < WrapSigned(meta.size) + BLOCK_SIZE
    ensures WrapSigned(meta.size) - copied > 0 ==> copied + BLOCK_SIZE <= ContentLength(meta)
    ensures WrapSigned(meta.size) - copied <= 0 ==> copied == ContentLength(meta)
  {
    ContentLengthBound(meta);
  }

  /** `cmd_convert`: the finished archive holds exactly the entries the input means. */
  method CmdConvert(input: Decoder, cf: Codec) returns (res: Result<bytes>)
    requires input.Valid() && input.InSync() && Appends(cf)
    modifies input, input.file
    ensures res == match DecodeTar(EMPTY, old(input.Remaining()))
                   case Ok(items) => Ok(ArchiveOf(cf, items))
                   case Err => Err
  {
    hide Decoder.Valid, Decoder.InSync, Decoder.Remaining, ScarWriter.Valid, PutBlocks, NextHeader;
    hide ContentLength, DecodeTar, Run, AddEntry, FinishedFile, Appends;
    var reader := new PaxReader(input);
    var writer := new ScarWriter(cf);
    ghost var s := input.Remaining();
    ghost var done: seq<Item> := [];
    PrefixedNone(DecodeTar(EMPTY, s));
    RunNothing(cf);
    while true
      invariant input.Valid() && input.InSync() && writer.Valid()
      invariant fresh(reader) && fresh(writer) && reader.r == input && writer.codec == cf
      invariant writer.Now() == Run(cf, done)
      invariant Prefixed(done, DecodeTar(reader.globalMeta, input.Remaining())) == DecodeTar(EMPTY, s)
      decreases |input.Remaining()|
    {
      ghost var before, global := input.Remaining(), reader.globalMeta;
      DecodeTarStep(global, before);
      var header := reader.NextHeader();
      if header.Err? {
        return Err;
      }
      if header.value.None? {
        assert done + [] == done;
        break;
      }
      var meta := header.value.value;
      ghost var rest := input.Remaining();
      writer.AddEntry(meta);
      var ok := CopyBlocks(reader, writer, meta);
      if !ok {
        return Err;
      }
      ghost var item: Item := RawItem.Item(meta, rest[..ContentLength(meta)]);
      RunPush(cf, done, item);
      PrefixedPush(done, item, DecodeTar(reader.globalMeta, input.Remaining()));
      done := done + [item];
    }
    var file := writer.Finish();
    return Ok(file);
  }

  lemma RunNothing(c: Codec)
    ensures Run(c, []) == INITIAL
  {
  }
}
