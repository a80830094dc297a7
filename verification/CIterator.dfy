/** Opening an archive and iterating over its index with the C implementation and the `plain` format, whose
    readers share one cursor (scar-c/src/scar-reader.c). */
module CIterator {
  import opened Bytes
  import opened Decimal
  import opened PaxHeader
  import opened Sections
  import opened CStream
  import opened CPaxSyntax
  import opened CArchive
  import opened CReader

  // ---------------------------------------------------------------- one entry

  /** The digits of a number; fails at any other byte before the space. */
  method ReadDigits(br: BlockReader) returns (ok: bool, num: int, len: nat)
    requires br.Valid()
    modifies br.Repr
    ensures br.Valid() && (br.Exact() ==> old(br.Exact())) && (old(br.Failed()) ==> br.Failed())
    ensures |br.Stream()| <= |old(br.Stream())| && -TWO_TO_63 <= num < TWO_TO_63
    ensures br.Exact() ==>
      var s, n := old(br.Stream()), DigitRun(old(br.Stream()));
      && (ok <==> n < |s| && s[n] == SPACE)
      && (ok ==> len == n && Computed(num, Value(s[..n])) && br.Stream() == s[n + 1..])
  {
    hide BlockReader.Valid, BlockReader.Stream, BlockReader.Exact, Value, DigitRun, Drop;
    ghost var s := br.Stream();
    num, len := 0, 0;
    ValueNothing();
    while br.next != SPACE as int
      invariant br.Valid() && (br.Exact() ==> old(br.Exact())) && (old(br.Failed()) ==> br.Failed())
      invariant |br.Stream()| <= |s| && -TWO_TO_63 <= num < TWO_TO_63
      invariant br.Exact() ==> len <= |s| && br.Stream() == s[len..]
      invariant br.Exact() ==> forall i | 0 <= i < len :: IsDigit(s[i])
      invariant br.Exact() ==> Computed(num, Value(s[..len]))
      decreases |br.Stream()|
    {
      if br.next < 48 || br.next > 57 {
        if br.Exact() {
          DigitRunIs(s, len);
        }
        return false, num, len;
      }
      OneMore([], br.Stream());
      if br.Exact() {
        assert br.Stream()[0] == s[len];
        ValuePush(s, len);
        DropOne(s, len);
      }
      num := Offset(num * 10);
      num := Offset(num + (br.next - 48));
      len := len + 1;
      br.Consume();
    }
    OneMore([], br.Stream());
    if br.Exact() {
      assert br.Stream()[0] == s[len];
      DigitRunIs(s, len);
      DropOne(s, len);
    }
    br.Consume();
    ok := true;
  }

  /** What `scar_index_iterator_next` does with an entry: 1 with an item, -1, or 2 when a `g` entry has been
      taken into `meta` and the code goes back to its start. */
  ghost predicate Follows(res: Step, br: BlockReader, ret: int, item: Option<Listed>, meta: CMeta, meta': CMeta)
    requires br.Valid()
    reads br, br.Repr
  {
    match res
    case Stop => false
    case Failure => ret == -1
    case Global(records, rest) =>
      (match CParse(meta, records)
       case None => ret == -1
       case Some(m) => ret == 2 && meta' == m && br.Stream() == rest)
    case Yield(i, rest) => ret == 1 && item == Some(i) && meta' == meta && br.Stream() == rest
  }

  /** `scar_index_iterator_next` behind its first test and its seek. */
  method IteratorEntry(br: BlockReader, meta: CMeta) returns (ret: int, item: Option<Listed>, meta': CMeta)
    requires br.Valid() && 48 <= br.next <= 57
    modifies br.Repr
    ensures br.Valid() && (old(br.Failed()) ==> br.Failed())
    ensures ret == -1 || ret == 1 || ret == 2
    ensures ret == 1 ==> item.Some? && |br.Stream()| < |old(br.Stream())|
    ensures br.Exact() ==>
              && old(br.Exact())
              && (NextFits(old(br.Stream())) ==>
                    Follows(Next(old(br.Stream())), br, ret, item, meta, meta'))
  {
    hide BlockReader.Valid, BlockReader.Stream, BlockReader.Exact, Value, DigitRun, NextBody, CParse;
    item, meta' := None, meta;
    StartsWithNumber(br.Stream());
    var ok, fieldSize, fieldSizeLen := ReadDigits(br);
    if !ok {
      return -1, None, meta;
    }
    var remaining: int := fieldSize;
    remaining := remaining - fieldSizeLen - 1;
    if remaining < 0 {
      return -1, None, meta;
    }
    ret, item, meta' := IteratorBody(br, remaining, meta);
  }

  lemma StartsWithNumber(s: bytes)
    requires s != [] && IsDigit(s[0])
    ensures DigitRun(s) > 0
  {
  }

  method IteratorBody(br: BlockReader, remaining: nat, meta: CMeta)
    returns (ret: int, item: Option<Listed>, meta': CMeta)
    requires br.Valid() && remaining < TWO_TO_63
    modifies br.Repr
    ensures br.Valid() && (old(br.Failed()) ==> br.Failed())
    ensures ret == -1 || ret == 1 || ret == 2
    ensures ret == 1 ==> item.Some? && |br.Stream()| < |old(br.Stream())|
    ensures br.Exact() ==>
              && old(br.Exact())
              && (BodyFits(old(br.Stream())) ==>
                    Follows(NextBody(remaining, old(br.Stream())), br, ret, item, meta, meta'))
  {
    hide BlockReader.Valid, BlockReader.Stream, BlockReader.Exact, NextName, CParse;
    ghost var t := br.Stream();
    var ft: byte := if br.next == EOF then 255 else br.next as byte;
    br.Consume();
    if br.next != SPACE as int {
      assert br.Exact() && |t| >= 2 ==> br.Stream()[0] == t[1];
      return -1, None, meta;
    }
    assert br.Exact() ==> br.Stream()[0] == t[1];
    br.Consume();
    assert br.Exact() ==> br.Stream() == t[2..];
    ret, item, meta' := IteratorName(br, ft, remaining - 2, meta);
  }

  method IteratorName(br: BlockReader, ft: byte, remaining: int, meta: CMeta)
    returns (ret: int, item: Option<Listed>, meta': CMeta)
    requires br.Valid() && remaining < TWO_TO_63
    modifies br.Repr
    ensures br.Valid() && (old(br.Failed()) ==> br.Failed())
    ensures ret == -1 || ret == 1 || ret == 2
    ensures ret == 1 ==> item.Some? && |br.Stream()| < |old(br.Stream())|
    ensures br.Exact() ==>
              && old(br.Exact())
              && (NameFits(old(br.Stream())) ==>
                    Follows(NextName(ft, remaining, old(br.Stream())), br, ret, item, meta, meta'))
  {
    hide BlockReader.Valid, BlockReader.Stream, BlockReader.Exact, Value, DigitRun, TypeOf, CParse, Taken, Drop;
    ghost var u := br.Stream();
    if br.next == SPACE as int {
      if br.Exact() {
        DigitRunIs(u, 0);
      }
      return -1, None, meta;
    }
    NotASpace(u);
    var ok, offset, n := ReadDigits(br);
    if !ok {
      return -1, None, meta;
    }
    var left := remaining - n - 1;
    if left <= 1 {
      return -1, None, meta;
    }
    if ft == PAX_GLOBAL {
      ret, meta' := ParseGlobal(br, left, meta);
      return ret, None, meta';
    }
    var name;
    ok, name := ReadPath(br, left);
    if !ok {
      return -1, None, meta;
    }
    return 1, Some(Listed(TypeOf(ft), offset, name)), meta;
  }

  /** The path of an entry, and its line feed. */
  method ReadPath(br: BlockReader, left: nat) returns (ok: bool, name: bytes)
    requires br.Valid() && left > 1
    modifies br.Repr
    ensures br.Valid() && (old(br.Failed()) ==> br.Failed()) && (br.Exact() ==> old(br.Exact()))
    ensures |br.Stream()| <= |old(br.Stream())| && (ok ==> |br.Stream()| < |old(br.Stream())|)
    ensures br.Exact() ==>
      var w := old(br.Stream());
      && (ok <==> left <= |w| && w[left - 1] == LINE_FEED)
      && (ok ==> name == w[..left - 1] && br.Stream() == w[left..])
  {
    hide BlockReader.Valid, BlockReader.Stream, BlockReader.Exact, Drop;
    ghost var w := br.Stream();
    name := br.Read(left - 1);
    if |name| < left - 1 {
      return false, name;
    }
    ReadSplit(w, name, br.Stream(), left);
    if br.next != EOF {
      OneMore([], br.Stream());
    }
    if br.next != LINE_FEED as int {
      return false, name;
    }
    br.Consume();
    ok := true;
  }

  lemma ReadSplit(w: bytes, name: bytes, rest: bytes, left: nat)
    requires left > 1 && |name| == left - 1
    ensures w == name + rest ==>
            && name == w[..left - 1] && (rest == [] <==> |w| < left)
            && (rest != [] ==> rest[0] == w[left - 1] && Drop(rest, 1) == w[left..])
  {
  }

  /** The records of a `g` entry, which are parsed through the block reader of the iterator. */
  method ParseGlobal(br: BlockReader, left: nat, meta: CMeta) returns (ret: int, meta': CMeta)
    requires br.Valid() && left < TWO_TO_63
    modifies br.Repr
    ensures br.Valid() && (old(br.Failed()) ==> br.Failed()) && (ret == -1 || ret == 2)
    ensures br.Exact() ==>
      && old(br.Exact())
      && match CParse(meta, Taken(old(br.Stream()), left))
         case None => ret == -1
         case Some(m) => ret == 2 && meta' == m && br.Stream() == Drop(old(br.Stream()), left)
  {
    hide CParse, Taken, Remains, BlockReader.Exact, BlockReader.Stream;
    var r := new Reader.Embedded(br);
    var res := PaxParse(meta, r, left);
    EmbeddedIs(r, br);
    if res.None? {
      return -1, meta;
    }
    return 2, res.value;
  }

  lemma EmbeddedIs(r: Reader, br: BlockReader)
    requires r.Valid() && r.kind == Buffered(br)
    ensures br.Valid() && r.Stream() == br.Stream() && r.Trusted() == br.Exact() && !r.loud
    ensures r.Failed() == br.Failed()
  {
  }

  /** A number that does not start with a space and is followed by one is not empty. */
  lemma NotASpace(u: bytes)
    ensures u != [] && u[0] != SPACE && DigitRun(u) < |u| && u[DigitRun(u)] == SPACE ==> DigitRun(u) > 0
  {
  }

  // ---------------------------------------------------------------- the iterator

  lemma SourceOf(br: BlockReader, src: Source)
    requires br.Valid() && br.r.kind == Kind.FromSource(src)
    ensures src.Valid() && br.r.source == src && br.r.loud
    ensures (br.Exact() <==> br.error == 0) && (br.error != 0 ==> src.failed)
  {
    assert br.r.Valid();
  }

  /** `struct scar_index_iterator`. Its block reader reads through the cursor that everything else over the
      archive moves too, so it keeps the position from which its next block is to be read. */
  class IndexIterator {
    const src: Source
    const br: BlockReader
    var nextOffset: nat
    var global: CMeta

    /** Everything about the block reader that does not depend on where the cursor is. */
    ghost predicate Valid()
      reads this, src, br, br.r, br.block
    {
      && src.Valid()
      && br.r.kind == Kind.FromSource(src) && br.r.source == src && br.r.loud && br.r.Repr == {br.r, src}
      && br.Repr == {br, br.block, br.r, src} && br.r.depth < br.depth
      && br.block.Length == BLOCK_SIZE && br.index <= br.bufcap <= BLOCK_SIZE
      && -1 <= br.error <= 0 && (br.next == EOF || (0 <= br.next < 256 && br.error == 0))
      && (br.error != 0 ==> src.failed)
      && nextOffset <= |src.data| && (br.next == EOF && br.error == 0 ==> nextOffset == |src.data|)
    }

    /** What is still to be iterated over. */
    ghost function Pending(): bytes
      requires Valid()
      reads this, src, br, br.r, br.block
    {
      if br.next == EOF then []
      else [br.next as byte] + br.block[br.index..br.bufcap] + src.data[nextOffset..]
    }

    /** With the cursor back at the kept position, the block reader is as it was left. */
    method Resume()
      requires Valid()
      modifies src
      ensures br.Valid() && br.Stream() == old(Pending()) && (br.Exact() <==> br.error == 0)
      ensures src.failed == old(src.failed) && src.cut == old(src.cut)
    {
      src.Seek(nextOffset);
      assert br.r.Valid();
    }

    lemma LeftOff()
      requires br.Valid() && nextOffset == src.pos
      requires br.r.kind == Kind.FromSource(src) && br.r.loud && br.r.Repr == {br.r, src}
      requires br.Repr == {br, br.block, br.r, src}
      ensures Valid() && Pending() == br.Stream() && (br.Exact() <==> br.error == 0)
    {
      assert br.r.Valid() && src.Valid();
    }

    constructor (src: Source, br: BlockReader)
      requires br.Valid() && src.Valid()
      requires br.r.kind == Kind.FromSource(src) && br.r.loud && br.r.Repr == {br.r, src}
      requires br.Repr == {br, br.block, br.r, src}
      ensures Valid() && this.src == src && this.br == br && Pending() == br.Stream() && global == map[]
    {
      this.src, this.br, nextOffset, global := src, br, src.pos, map[];
      new;
      LeftOff();
    }

    /** `scar_index_iterator_next`: 1 with an item, 0 at the end, -1 for failure. What it yields depends only on
        what is pending, not on where the cursor has been moved since; after an item it is ready again. At a
        `g` entry it returns 2. */
    method Next() returns (ret: int, item: Option<Listed>)
      requires Valid()
      modifies this, src, br, br.r, br.block
      ensures src.Valid()
      ensures ret == 1 ==> Valid() && item.Some? && |Pending()| < |old(Pending())|
      ensures old(src.failed) ==> src.failed
      ensures br.error != 0 ==> src.failed
      ensures br.error == 0 ==>
        && old(br.error) == 0
        && (NextFits(old(Pending())) ==>
              match CReader.Next(old(Pending()))
              case Stop => ret == 0
              case Failure => ret == -1
              case Global(records, _) =>
                (match CParse(old(global), records) case None => ret == -1 case Some(m) => ret == 2 && global == m)
              case Yield(i, rest) => ret == 1 && item == Some(i) && Pending() == rest && global == old(global))
    {
      hide BlockReader.Valid, BlockReader.Stream, BlockReader.Exact, CReader.Next, CParse, IndexIterator.Valid,
        IndexIterator.Pending;
      ghost var s := Pending();
      PendingFirst();
      if br.next < 48 || br.next > 57 {
        StopsAt(s);
        return 0, None;
      }
      Resume();
      ret, item, global := IteratorEntry(br, global);
      SourceOf(br, src);
      if ret == 1 {
        nextOffset := src.pos;
        LeftOff();
      }
    }

    /** What any other reader may do over the same cursor between two items. */
    method Elsewhere()
      requires Valid()
      modifies src
      ensures Valid() && Pending() == old(Pending())
      ensures (old(src.failed) ==> src.failed) && (old(src.cut) ==> src.cut)
    {
      var to: nat := *;
      var n: nat := *;
      src.Seek(to);
      var _, _ := src.Read(n);
    }

    lemma PendingFirst()
      requires Valid()
      ensures src.Valid() && nextOffset <= |src.data|
      ensures br.r.kind == Kind.FromSource(src) && br.r.loud && br.r.Repr == {br.r, src}
      ensures br.Repr == {br, br.block, br.r, src} && (br.error != 0 ==> br.next == EOF && src.failed)
      ensures Pending() == [] <==> br.next == EOF
      ensures Pending() != [] ==> Pending()[0] as int == br.next
      ensures br.next == EOF || 0 <= br.next < 256
    {
    }
  }

  // ---------------------------------------------------------------- opening and listing

  lemma ItemsStep(s: bytes)
    ensures Items(s) ==
            match CReader.Next(s)
            case Stop => Some([])
            case Failure => None
            case Global(_, _) => None
            case Yield(item, rest) => Prepended([item], Items(rest))
  {
  }

  /** `scar_reader_create`: the two section offsets. It fails when its one read is cut short. */
  method Create(src: Source) returns (r: Option<(int, int)>, ghost short: bool)
    requires src.Valid()
    modifies src
    ensures src.Valid() && (old(src.failed) ==> src.failed)
    ensures short ==> r == None && src.cut
    ensures !short ==> ComputedPair(r, Open(src.data))
  {
    hide ScanForTail;
    short := false;
    var fileLen := |src.data|;
    var endBlockLen: nat := 512;
    if endBlockLen > fileLen {
      endBlockLen := fileLen;
    }
    src.Seek(fileLen - endBlockLen);
    var count, endBlock := src.Read(endBlockLen);
    if count < endBlockLen {
      return None, true;
    }
    assert endBlock == EndBlock(src.data);
    if |endBlock| < |EOF_MARKER| || endBlock[|endBlock| - |EOF_MARKER|..] != EOF_MARKER {
      return None, false;
    }
    r := FindTail(endBlock[..|endBlock| - |EOF_MARKER|]);
  }

  /** `scar_reader_iterate` */
  method StartIteration(src: Source, indexOffset: int) returns (it: Option<IndexIterator>)
    requires src.Valid()
    modifies src
    ensures src.Valid() && (old(src.failed) ==> src.failed)
    ensures it.Some? ==> indexOffset >= 0 && var i := it.value;
              && fresh(i) && i.Valid() && i.src == src && fresh(i.br) && fresh(i.br.r) && fresh(i.br.block)
              && (i.br.error == 0 ==>
                    INDEX_HEADER <= Drop(src.data, indexOffset) &&
                    i.Pending() == Drop(src.data, indexOffset)[|INDEX_HEADER|..])
              && (i.br.error != 0 ==> src.failed)
    ensures !src.failed ==> (it.Some? <==> indexOffset >= 0 && INDEX_HEADER <= Drop(src.data, indexOffset))
  {
    hide BlockReader.Valid, BlockReader.Stream, BlockReader.Exact, Reader.Valid, Reader.Stream, Reader.Trusted;
    hide IndexIterator.Pending;
    if indexOffset < 0 {
      return None;
    }
    src.Seek(indexOffset);
    ghost var s := Drop(src.data, indexOffset);
    assert src.data[src.pos..] == s;
    var r := new Reader.Direct(src);
    var br := new BlockReader(r);
    var head := br.Read(|INDEX_HEADER|);
    SourceOf(br, src);
    if |head| < |INDEX_HEADER| {
      return None;
    }
    if head != INDEX_HEADER {
      assert br.Exact() ==> s[..|head|] == head;
      assert INDEX_HEADER <= s ==> s[..|INDEX_HEADER|] == INDEX_HEADER;
      return None;
    }
    assert br.Exact() ==> s == INDEX_HEADER + br.Stream();
    assert br.r == r && r.kind == Kind.FromSource(src);
    assert r.Repr == {r, src};
    assert br.Repr == {br, br.block, r, src};
    var i := new IndexIterator(src, br);
    it := Some(i);
  }

  /** Open and list a whole archive, with the cursor moved anywhere, or read from, between any two items: the
      items are those of an uninterrupted iteration. It goes wrong only when a read fails or the one read of the
      tail block is cut short, or for numbers that are out of range. */
  method ListAll(src: Source) returns (r: Option<seq<Listed>>, ghost short: bool)
    requires src.Valid()
    modifies src
    ensures short ==> r == None
    ensures ListFits(src.data) && !short && !src.failed ==> r == List(src.data)
    ensures ListFits(src.data) && r.Some? ==> src.failed || r == List(src.data)
  {
    hide Items, Open, IndexIterator.Valid, IndexIterator.Pending, CReader.Next, NextFits;
    var offsets;
    offsets, short := Create(src);
    if offsets.None? {
      return None, short;
    }
    var start := StartIteration(src, offsets.value.0);
    if start.None? {
      return None, short;
    }
    var it := start.value;
    ghost var s := it.Pending();
    ghost var sound := it.br.error == 0;
    ghost var fits := ListFits(src.data);
    var listed := [];
    PrependedNothing(Items(s));
    while true
      invariant it.Valid() && it.src == src && fresh(it) && fresh(it.br) && fresh(it.br.r) && fresh(it.br.block)
      invariant src.Valid() && (it.br.error != 0 ==> src.failed)
      invariant it.br.error == 0 && fits ==> sound && ItemsFit(it.Pending())
      invariant it.br.error == 0 && fits ==> Items(s) == Prepended(listed, Items(it.Pending()))
      decreases |it.Pending()|
    {
      ghost var pending := it.Pending();
      ItemsStep(pending);
      var ret, item := it.Next();
      if ret == 1 {
        PrependedTwice(listed, [item.value], Items(it.Pending()));
        listed := listed + [item.value];
      } else {
        if ret == 0 {
          NothingBehind(listed);
          return Some(listed), short;
        }
        return None, short;
      }
      it.Elsewhere();
    }
  }
}
