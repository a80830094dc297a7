/** `ScarReader` and `IndexIter`: reading through one shared cursor, proved against the functions of
    `Sections` and `RandomAccess` (scar-rs/scar/src/read.rs). */
module Reader {
  import opened Bytes
  import opened Decimal
  import opened PaxRecords
  import opened PaxHeader
  import opened PaxIO
  import opened Codec
  import opened Cursor
  import opened Sections
  import opened Archive
  import opened RandomAccess
  import opened Scan

  /** The first byte of both section headers. */
  const UPPER_S: byte := 83

  /** The bytes of `br`'s buffer start with `header`. */
  method BufferStartsWith(br: Decoder, header: bytes) returns (b: bool)
    requires br.Valid()
    ensures b <==> header <= br.buf
  {
    b := |header| <= |br.buf| && br.buf[..|header|] == header;
  }

  /** Whether `n` bytes from position `at` on lie in one fill of the buffer. */
  predicate LiesWhole(at: int, n: nat) {
    at % CAPACITY + n <= CAPACITY
  }

  // ---------------------------------------------------------------- the index iterator

  datatype Step = Done | Failure | Global | Yield(item: IndexItem)

  class IndexIter {
    const r: SharedFile
    const br: Decoder
    var seekPos: nat
    var globalMeta: PaxMeta

    /** Nothing is said about where the shared cursor is: `seekPos` remembers where to put it. */
    ghost predicate Valid()
      reads this, br
    {
      && br.Valid() && br.file == r
      && seekPos == br.start + |br.fed| && globalMeta == EMPTY
    }

    constructor (br: Decoder)
      requires br.Valid() && br.InSync()
      ensures Valid() && this.br == br
    {
      this.r := br.file;
      this.br := br;
      seekPos := br.file.pos;
      globalMeta := EMPTY;
    }

    /** `next`. The test for the end of the section sees only what is buffered: with less than the whole header of
        the next section it fails. `g` entries are reported and not followed up. */
    method Next() returns (res: Step, ghost held: nat)
      requires Valid()
      modifies this, br, r
      ensures res.Yield? ==> Valid()
      ensures br.steady ==> old(br.steady)
      ensures var s := old(br.Remaining());
              if Missed(CHECKPOINTS_HEADER, s, held) then res == Failure
              else match NextItem(s)
                case NoMore => res == Done
                case Refused => res == Failure
                case GlobalEntry => res == Global
                case Item(item, rest) => res == Yield(item) && br.Remaining() == rest
      ensures br.steady && CHECKPOINTS_HEADER <= old(br.Remaining()) ==>
                (held >= |CHECKPOINTS_HEADER| <==>
                 LiesWhole(|br.Whole()| - |old(br.Remaining())|, |CHECKPOINTS_HEADER|))
    {
      hide Decoder.Valid, Decoder.Remaining, ReadNum, DigitRun, TypeOf, Decoder.Whole;
      r.Seek(seekPos);
      ghost var s := br.Remaining();
      br.FillBuf();
      held := |br.buf|;
      if br.steady && CHECKPOINTS_HEADER <= s {
        br.HeldIs(|CHECKPOINTS_HEADER|);
      }
      if br.buf == [] {
        return Done, held;
      }
      var ends := BufferStartsWith(br, CHECKPOINTS_HEADER);
      if ends {
        return Done, held;
      }
      LetterRefused(s);
      res := NextField();
      if res.Yield? {
        seekPos := r.pos;
      }
    }

    method NextField() returns (res: Step)
      requires br.Valid() && br.file == r && br.InSync()
      requires br.Remaining() != [] && globalMeta == EMPTY
      modifies br, r
      ensures br.Valid() && br.InSync() && (br.steady ==> old(br.steady))
      ensures var s := old(br.Remaining());
              if s[0] == UPPER_S then res == Failure
              else match NextItem(s)
                case NoMore => false
                case Refused => res == Failure
                case GlobalEntry => res == Global
                case Item(item, rest) => res == Yield(item) && br.Remaining() == rest
    {
      hide Decoder.Valid, Decoder.InSync, Decoder.Remaining, Accumulate, TypeOf, ItemPath;
      ghost var s := br.Remaining();
      LetterIsNoNumber(s);
      var length, lengthDigits := br.ReadNumber();
      if length > MAX_ENTRY {
        return Failure;
      }
      var chs := br.ReadExact(1);
      if chs.None? || chs.value[0] != SPACE {
        return Failure;
      }
      chs := br.ReadExact(1);
      if chs.None? {
        return Failure;
      }
      var typeflag := chs.value[0];
      chs := br.ReadExact(1);
      if chs.None? || chs.value[0] != SPACE {
        return Failure;
      }
      ghost var t := s[lengthDigits..];
      assert br.Remaining() == t[3..];
      res := NextPath(typeflag, length, lengthDigits);
    }

    method NextPath(typeflag: byte, length: nat, lengthDigits: nat) returns (res: Step)
      requires br.Valid() && br.file == r && br.InSync() && globalMeta == EMPTY
      modifies br, r
      ensures br.Valid() && br.InSync() && (br.steady ==> old(br.steady))
      ensures match ItemPath(typeflag, length, lengthDigits, old(br.Remaining()))
              case NoMore => false
              case Refused => res == Failure
              case GlobalEntry => res == Global
              case Item(item, rest) => res == Yield(item) && br.Remaining() == rest
    {
      hide Decoder.Valid, Decoder.InSync, Decoder.Remaining, ReadNum, DigitRun, TypeOf;
      ghost var u := br.Remaining();
      var offset, offsetDigits := br.ReadNumber();
      var chs := br.ReadExact(1);
      if chs.None? || chs.value[0] != SPACE {
        return Failure;
      }
      if typeflag == PAX_GLOBAL {
        return Global;
      }
      var nonContentLength := lengthDigits + 3 + offsetDigits + 2;
      if length < nonContentLength {
        return Failure;
      }
      ghost var w := br.Remaining();
      assert w == u[offsetDigits + 1..];
      var content := br.ReadExact(length - nonContentLength);
      if content.None? {
        return Failure;
      }
      chs := br.ReadExact(1);
      if chs.None? || chs.value[0] != LINE_FEED {
        return Failure;
      }
      return Yield(IndexItem(content.value, TypeOf(typeflag), offset, globalMeta));
    }
  }

  lemma LetterIsNoNumber(s: bytes)
    requires s != []
    ensures s[0] == UPPER_S ==> DigitRun(s) == 0 && ReadNum(s) == 0 && s[DigitRun(s)..] == s
    ensures s[0] != UPPER_S ==> !(CHECKPOINTS_HEADER <= s) && !(TAIL_HEADER <= s)
    ensures DigitRun(s) <= |s|
  {
    hide Accumulate;
    AccumulateNothing(0);
    assert s[..0] == [];
  }

  /** An entry cannot start with a letter. */
  lemma LetterRefused(s: bytes)
    ensures s != [] && s[0] == UPPER_S && !(CHECKPOINTS_HEADER <= s) ==> NextItem(s) == Refused
    ensures CHECKPOINTS_HEADER <= s ==> s[0] == UPPER_S && NextItem(s) == NoMore
  {
    hide ReadNum;
    if s != [] {
      LetterIsNoNumber(s);
    }
  }

  // ---------------------------------------------------------------- the reader

  class ScarReader {
    const r: SharedFile
    const df: Codec
    const compressedIndexLoc: nat
    const checkpoints: seq<Checkpoint>

    constructor (r: SharedFile, df: Codec, compressedIndexLoc: nat, checkpoints: seq<Checkpoint>)
      ensures this.r == r && this.df == df
      ensures this.compressedIndexLoc == compressedIndexLoc && this.checkpoints == checkpoints
    {
      this.r := r;
      this.df := df;
      this.compressedIndexLoc := compressedIndexLoc;
      this.checkpoints := checkpoints;
    }

    /** The part of `create` that follows once the tail member has been located: the two section
        offsets, then the checkpoint table. */
    static method OpenAt(r: SharedFile, df: Codec, tailLoc: nat)
      returns (reader: Option<ScarReader>, ghost held: nat, ghost steady: bool)
      requires Incremental(df)
      modifies r
      ensures match ReadTail(DecodeAt(df, r.data, tailLoc))
              case None => reader == None
              case Some((indexLoc, checkpointsLoc)) =>
                var s := DecodeAt(df, r.data, checkpointsLoc);
                && SteadyTable(s, held, steady)
                && match SeenCheckpoints(s, held)
                   case None => reader == None
                   case Some(table) =>
                     reader.Some? && reader.value.r == r && reader.value.df == df &&
                     reader.value.compressedIndexLoc == indexLoc && reader.value.checkpoints == table
    {
      hide Decoder.Valid, Decoder.InSync, Decoder.Remaining, FirstLine, ParseU64, SeenCheckpoints, SteadyTable;
      held, steady := 0, true;
      r.Seek(tailLoc);
      var br := new Decoder(r, df);
      var line := br.ReadLine();
      if line != TAIL_HEADER {
        return None, held, steady;
      }
      ghost var s := br.Remaining();
      line := br.ReadLine();
      if line == [] {
        return None, held, steady;
      }
      var indexLoc := ParseU64(line[..|line| - 1]);
      if indexLoc.None? {
        return None, held, steady;
      }
      assert ReadNumberLine(s) == Some((indexLoc.value, br.Remaining()));
      line := br.ReadLine();
      if line == [] {
        return None, held, steady;
      }
      var checkpointsLoc := ParseU64(line[..|line| - 1]);
      if checkpointsLoc.None? {
        return None, held, steady;
      }
      var table;
      table, held, steady := ReadCheckpointSection(r, df, checkpointsLoc.value);
      if table.None? {
        return None, held, steady;
      }
      var scarReader := new ScarReader(r, df, indexLoc.value, table.value);
      return Some(scarReader), held, steady;
    }

    /** `index`: an iterator over the index section. */
    method Index() returns (it: Option<IndexIter>)
      requires Incremental(df)
      modifies r
      ensures var s := DecodeAt(df, r.data, compressedIndexLoc);
              if FirstLine(s) != INDEX_HEADER then it == None
              else it.Some? && fresh(it.value) && fresh(it.value.br) && it.value.Valid() && it.value.r == r &&
                   it.value.br.Remaining() == s[|INDEX_HEADER|..] && it.value.br.Whole() == s
    {
      hide Decoder.Valid, Decoder.Remaining, FirstLine;
      r.Seek(compressedIndexLoc);
      var br := new Decoder(r, df);
      var line := br.ReadLine();
      if line != INDEX_HEADER {
        return None;
      }
      var iter := new IndexIter(br);
      return Some(iter);
    }

    /** `seek_to_raw_loc` */
    method SeekToRawLoc(rawLoc: nat) returns (dc: Option<Decoder>)
      requires Incremental(df)
      modifies r
      ensures match Seek(df, r.data, checkpoints, rawLoc)
              case None => dc == None
              case Some(s) => dc.Some? && fresh(dc.value) && dc.value.file == r &&
                              dc.value.Valid() && dc.value.InSync() && dc.value.Remaining() == s
    {
      hide Decoder.Valid, Decoder.InSync, Decoder.Remaining, Reached;
      var checkpoint := Checkpoint(0, 0);
      var i := 0;
      while i < |checkpoints|
        invariant i <= |checkpoints|
        invariant forall j | 0 <= j < i :: checkpoints[j].rawLoc <= rawLoc
        invariant checkpoint == if i == 0 then Checkpoint(0, 0) else checkpoints[i - 1]
      {
        if checkpoints[i].rawLoc <= rawLoc {
          checkpoint := checkpoints[i];
        } else {
          break;
        }
        i := i + 1;
      }
      ReachedIs(RawLocs(checkpoints), rawLoc, i);
      r.Seek(checkpoint.compressedLoc);
      var decoder := new Decoder(r, df);
      var diff: nat := rawLoc - checkpoint.rawLoc;
      ghost var s := decoder.Remaining();
      ghost var total := diff;
      while diff >= 1024
        invariant decoder.Valid() && decoder.InSync() && fresh(decoder) && decoder.file == r
        invariant diff <= total && total - diff <= |s| && decoder.Remaining() == s[total - diff..]
      {
        var skipped := decoder.ReadExact(1024);
        if skipped.None? {
          return None;
        }
        diff := diff - 1024;
      }
      if diff > 0 {
        var skipped := decoder.ReadExact(diff);
        if skipped.None? {
          return None;
        }
      }
      return Some(decoder);
    }

    /** `read_item` */
    method ReadItem(item: IndexItem) returns (pr: Option<PaxReader>)
      requires Incremental(df)
      modifies r
      ensures match Seek(df, r.data, checkpoints, item.offset)
              case None => pr == None
              case Some(s) => pr.Some? && fresh(pr.value) && fresh(pr.value.r) && pr.value.r.file == r &&
                              pr.value.globalMeta == item.globalMeta &&
                              pr.value.r.Valid() && pr.value.r.InSync() && pr.value.r.Remaining() == s
    {
      hide Decoder.Valid, Decoder.InSync, Decoder.Remaining, Seek;
      var dc := SeekToRawLoc(item.offset);
      if dc.None? {
        return None;
      }
      var reader := new PaxReader(dc.value);
      reader.globalMeta := item.globalMeta;
      return Some(reader);
    }

    /** Header and content of one entry, by way of `read_item`, `next_header` and `read_content`. */
    method ReadItemWhole(item: IndexItem) returns (res: Option<(Metadata, bytes)>)
      requires Incremental(df)
      modifies r
      ensures res == ReadEntry(df, r.data, checkpoints, item)
    {
      hide Decoder.Valid, Decoder.InSync, Decoder.Remaining, Seek, PaxHeader.NextHeader, ReadContent;
      var pr := ReadItem(item);
      if pr.None? {
        return None;
      }
      var header := pr.value.NextHeader();
      if header.Err? || header.value.None? {
        return None;
      }
      var meta := header.value.value;
      var content := ReadContentFrom(pr.value.r, meta.size);
      if content.None? {
        return None;
      }
      return Some((meta, content.value));
    }

    /** Iterating over the whole index while reading every entry through the same cursor: the items
        are those of an undisturbed iteration, and every entry is what a lone read returns. */
    method ReadAll()
      returns (all: Option<seq<(IndexItem, Option<(Metadata, bytes)>)>>, ghost held: nat, ghost steady: bool)
      requires Incremental(df)
      modifies r
      ensures var s := DecodeAt(df, r.data, compressedIndexLoc);
              && SteadyIndex(s, held, steady)
              && all == match SeenIndex(s, held)
                        case None => None
                        case Some(items) => Some(WithEntries(df, r.data, checkpoints, items))
    {
      hide Decoder.Valid, Decoder.Remaining, FirstLine, NextItem, ReadEntry, DecodeAt, Missed, LiesWhole;
      hide ReadItems, IndexRest, Listed;
      held, steady := 0, true;
      var got := Index();
      if got.None? {
        return None, held, steady;
      }
      var it := got.value;
      ghost var s := it.br.Remaining();
      ghost var whole := it.br.Whole();
      var list: seq<(IndexItem, Option<(Metadata, bytes)>)> := [];
      while true
        invariant it.Valid() && fresh(it) && fresh(it.br) && it.r == r
        invariant it.br.Whole() == whole && IndexRest(it.br.Remaining()) == IndexRest(s)
        invariant Listed(df, r.data, checkpoints, list, ReadItems(it.br.Remaining())) ==
                  Listed(df, r.data, checkpoints, [], ReadItems(s))
        decreases |it.br.Remaining()|
      {
        ghost var before := it.br.Remaining();
        ReadItemsStep(before);
        var step;
        step, held := it.Next();
        steady := it.br.steady;
        NothingMissed(before, held);
        if step == Done {
          ListedNone(df, r.data, checkpoints, list, ReadItems(s));
          return Some(list), held, steady;
        }
        if step == Failure || step == Global {
          ListedNone(df, r.data, checkpoints, list, ReadItems(s));
          return None, held, steady;
        }
        StepShrinks(before);
        var entry := ReadItemWhole(step.item);
        ListedPush(df, r.data, checkpoints, list, step.item, ReadItems(it.br.Remaining()));
        list := list + [(step.item, entry)];
      }
    }

    /** One line of the checkpoint section. */
    static method ReadOneCheckpoint(br: Decoder) returns (c: Option<Checkpoint>)
      requires br.Valid() && br.InSync()
      modifies br, br.file
      ensures br.Valid() && br.InSync() && (br.steady ==> old(br.steady))
      ensures match ReadCheckpoint(old(br.Remaining()))
              case None => c == None
              case Some((cp, rest)) => c == Some(cp) && br.Remaining() == rest
    {
      hide Decoder.Valid, Decoder.InSync, Decoder.Remaining, ReadNum, DigitRun, ReadRawLoc;
      ghost var s := br.Remaining();
      var compressedLoc, n := br.ReadNumber();
      ghost var t := br.Remaining();
      var chs := br.ReadExact(1);
      Behind(s, n, t);
      if chs.None? || chs.value[0] != SPACE {
        return None;
      }
      c := ReadSecondLoc(br, compressedLoc);
    }

    static method ReadSecondLoc(br: Decoder, compressedLoc: nat) returns (c: Option<Checkpoint>)
      requires br.Valid() && br.InSync()
      modifies br, br.file
      ensures br.Valid() && br.InSync() && (br.steady ==> old(br.steady))
      ensures match ReadRawLoc(compressedLoc, old(br.Remaining()))
              case None => c == None
              case Some((cp, rest)) => c == Some(cp) && br.Remaining() == rest
    {
      hide Decoder.Valid, Decoder.InSync, Decoder.Remaining, ReadNum, DigitRun;
      ghost var s := br.Remaining();
      var rawLoc, n := br.ReadNumber();
      ghost var t := br.Remaining();
      var chs := br.ReadExact(1);
      Behind(s, n, t);
      if chs.None? || chs.value[0] != LINE_FEED {
        return None;
      }
      return Some(Checkpoint(compressedLoc, rawLoc));
    }

    /** `read_checkpoints`; the test for the end of the section sees only what is buffered. */
    static method ReadCheckpointSection(r: SharedFile, df: Codec, loc: nat)
      returns (res: Option<seq<Checkpoint>>, ghost held: nat, ghost steady: bool)
      requires Incremental(df)
      modifies r
      ensures var s := DecodeAt(df, r.data, loc); SteadyTable(s, held, steady) && res == SeenCheckpoints(s, held)
    {
      hide Decoder.Valid, Decoder.InSync, Decoder.Remaining, FirstLine, ReadCheckpoint, Decoder.Whole;
      hide ReadCheckpointList, TableRest, Missed;
      held, steady := 0, true;
      r.Seek(loc);
      var br := new Decoder(r, df);
      ghost var whole := br.Whole();
      WholeIs(br);
      var line := br.ReadLine();
      if line != CHECKPOINTS_HEADER {
        return None, held, steady;
      }
      ghost var s := br.Remaining();
      var checkpoints: seq<Checkpoint> := [];
      PrependedNothing(ReadCheckpointList(s));
      while true
        invariant br.Valid() && br.InSync() && fresh(br) && br.file == r && br.Whole() == whole
        invariant TableRest(br.Remaining()) == TableRest(s)
        invariant Prepended(checkpoints, ReadCheckpointList(br.Remaining())) == ReadCheckpointList(s)
        decreases |br.Remaining()|
      {
        ghost var before := br.Remaining();
        br.FillBuf();
        held, steady := |br.buf|, br.steady;
        TableTest(before, br.buf);
        if br.steady && TAIL_HEADER <= before {
          br.HeldIs(|TAIL_HEADER|);
        }
        if br.buf == [] {
          NothingBehind(checkpoints);
          return Some(checkpoints), held, steady;
        }
        var ends := BufferStartsWith(br, TAIL_HEADER);
        if ends {
          NothingBehind(checkpoints);
          return Some(checkpoints), held, steady;
        }
        var c := ReadOneCheckpoint(br);
        if c.None? {
          return None, held, steady;
        }
        PrependedTwice(checkpoints, [c.value], ReadCheckpointList(br.Remaining()));
        checkpoints := checkpoints + [c.value];
      }
    }
  }

  lemma WholeIs(br: Decoder)
    ensures br.Whole() == br.codec.decoded(Drop(br.file.data, br.start))
  {
  }

  /** What the test for the end of the table sees in the buffer, and what follows from it. */
  lemma TableTest(s: bytes, buf: bytes)
    requires buf <= s && (buf == [] <==> s == [])
    ensures buf == [] || TAIL_HEADER <= buf ==>
              ReadCheckpointList(s) == Some([]) && TableRest(s) == s && !Missed(TAIL_HEADER, s, |buf|)
    ensures buf != [] && !(TAIL_HEADER <= buf) ==>
              match ReadCheckpoint(s)
              case None => TableRest(s) == s && (Missed(TAIL_HEADER, s, |buf|) || ReadCheckpointList(s) == None)
              case Some((c, rest)) =>
                && !(TAIL_HEADER <= s) && TableRest(s) == TableRest(rest)
                && ReadCheckpointList(s) == Prepended([c], ReadCheckpointList(rest))
  {
    hide ReadNum, DigitRun, ReadRawLoc;
    if s != [] {
      LetterIsNoNumber(s);
      assert TAIL_HEADER <= s && |buf| >= |TAIL_HEADER| ==> buf[..|TAIL_HEADER|] == s[..|TAIL_HEADER|];
    }
  }

  /** The byte behind the first `n`, and what follows it. */
  lemma Behind(s: bytes, n: nat, t: bytes)
    requires n <= |s| && t == s[n..]
    ensures t == [] <==> n == |s|
    ensures t != [] ==> t[..1] == [s[n]] && t[1..] == s[n + 1..]
  {
  }

  /** With steady fills, where the index ends decides how much of the next header is buffered. */
  ghost predicate SteadyIndex(s: bytes, held: nat, steady: bool) {
    steady && FirstLine(s) == INDEX_HEADER && CHECKPOINTS_HEADER <= IndexRest(s[|INDEX_HEADER|..]) ==>
      (held >= |CHECKPOINTS_HEADER| <==>
       LiesWhole(|s| - |IndexRest(s[|INDEX_HEADER|..])|, |CHECKPOINTS_HEADER|))
  }

  ghost predicate SteadyTable(s: bytes, held: nat, steady: bool) {
    steady && FirstLine(s) == CHECKPOINTS_HEADER && TAIL_HEADER <= TableRest(s[|CHECKPOINTS_HEADER|..]) ==>
      (held >= |TAIL_HEADER| <==> LiesWhole(|s| - |TableRest(s[|CHECKPOINTS_HEADER|..])|, |TAIL_HEADER|))
  }

  /** Where the iterator stops, that is what remains. */
  lemma NothingMissed(s: bytes, held: nat)
    ensures NextItem(s).Item? ==> IndexRest(s) == IndexRest(NextItem(s).rest)
    ensures !NextItem(s).Item? ==> IndexRest(s) == s
    ensures Missed(CHECKPOINTS_HEADER, s, held) ==> NextItem(s) == NoMore
  {
    hide ReadNum;
  }

  /** Every item together with what reading it returns. */
  function WithEntries(c: Codec, file: bytes, table: seq<Checkpoint>, items: seq<IndexItem>):
    (r: seq<(IndexItem, Option<(Metadata, bytes)>)>)
    ensures |r| == |items|
    ensures forall i | 0 <= i < |items| :: r[i] == (items[i], ReadEntry(c, file, table, items[i]))
  {
    seq(|items|, i requires 0 <= i < |items| => (items[i], ReadEntry(c, file, table, items[i])))
  }

  function Listed(c: Codec, file: bytes, table: seq<Checkpoint>, done: seq<(IndexItem, Option<(Metadata, bytes)>)>,
                  more: Option<seq<IndexItem>>): Option<seq<(IndexItem, Option<(Metadata, bytes)>)>> {
    if more.Some? then Some(done + WithEntries(c, file, table, more.value)) else None
  }

  lemma ListedPush(c: Codec, file: bytes, table: seq<Checkpoint>, done: seq<(IndexItem, Option<(Metadata, bytes)>)>,
                   item: IndexItem, more: Option<seq<IndexItem>>)
    ensures Listed(c, file, table, done, if more.Some? then Some([item] + more.value) else None) ==
            Listed(c, file, table, done + [(item, ReadEntry(c, file, table, item))], more)
  {
    hide ReadEntry;
    if more.Some? {
      var one := [(item, ReadEntry(c, file, table, item))];
      assert WithEntries(c, file, table, [item] + more.value) == one + WithEntries(c, file, table, more.value);
      assert done + (one + WithEntries(c, file, table, more.value)) ==
             done + one + WithEntries(c, file, table, more.value);
    }
  }

  lemma ListedNone(c: Codec, file: bytes, table: seq<Checkpoint>, done: seq<(IndexItem, Option<(Metadata, bytes)>)>,
                   more: Option<seq<IndexItem>>)
    ensures Listed(c, file, table, done, Some([])) == Some(done) && Listed(c, file, table, done, None) == None
    ensures Listed(c, file, table, [], more) ==
            if more.Some? then Some(WithEntries(c, file, table, more.value)) else None
  {
    hide ReadEntry;
    assert WithEntries(c, file, table, []) == [];
    assert done + [] == done;
    if more.Some? {
      assert [] + WithEntries(c, file, table, more.value) == WithEntries(c, file, table, more.value);
    }
  }

  lemma ReadItemsStep(s: bytes)
    ensures ReadItems(s) == match NextItem(s)
            case NoMore => Some([])
            case Refused => None
            case GlobalEntry => None
            case Item(item, rest) => (if ReadItems(rest).Some? then Some([item] + ReadItems(rest).value) else None)
    ensures s == [] ==> NextItem(s) == NoMore
  {
    hide NextItem;
    NextItemAtEnd([]);
  }

  lemma StepShrinks(s: bytes)
    ensures NextItem(s).Item? ==> |NextItem(s).rest| < |s|
    ensures s != [] && s[0] == UPPER_S ==> !NextItem(s).Item?
  {
    hide ItemPath;
    if s != [] {
      LetterIsNoNumber(s);
    }
  }

  // ---------------------------------------------------------------- reading back a finished archive

  /** What the sections of a finished archive end with, and how long they are. */
  lemma FinishedSections(c: Codec, items: seq<Item>, held: Held)
    requires (Bounded(c) || Continuing(c)) && FitsWords(c, items)
    requires forall e | e in Archive.IndexOf(items) :: Readable(e)
    ensures var tail := ReadTail(DecodeAt(c, ArchiveOf(c, items), TailLoc(c, items)));
            && tail.Some?
            && (SteadyTable(DecodeAt(c, ArchiveOf(c, items), tail.value.1), held.table, true) && !Bounded(c) ==>
                  (held.table >= |TAIL_HEADER| <==> LiesWhole(TableLength(c, items), |TAIL_HEADER|)))
            && (SteadyIndex(DecodeAt(c, ArchiveOf(c, items), tail.value.0), held.index, true) && !Bounded(c) ==>
                  (held.index >= |CHECKPOINTS_HEADER| <==> LiesWhole(IndexLength(items), |CHECKPOINTS_HEADER|)))
  {
    hide Encoded, AllMembers, BodyMembers, ArchiveOf, TableOf, TailLoc, EntriesText, CheckpointsText;
    hide Bounded, Continuing, ReadTail, SeenCheckpoints, SeenIndex, DecodeAt, Archive.IndexOf, ItemsOf;
    hide Readable, PlainEntry, FitsWords, FirstLine, IndexRest, TableRest, InRange, LiesWhole;
    var behindIndex, behindTable := SectionsOf(c, items);
    TableInRange(c, items);
    IndexPlain(c, items);
    SeenTable(TableOf(c, items), behindTable, held.table);
    SeenEntries(Archive.IndexOf(items), behindIndex, held.index);
  }

  function IndexLength(items: seq<Item>): nat {
    |INDEX_HEADER + EntriesText(Archive.IndexOf(items))|
  }

  function TableLength(c: Codec, items: seq<Item>): nat {
    |CHECKPOINTS_HEADER + CheckpointsText(TableOf(c, items))|
  }

  /** An index with one path of 8169 bytes has 8190 bytes: with steady fills, the next header is split. */
  lemma SplitByOnePath(e: IndexEntry)
    requires e.rawLoc == 0 && |e.data| == 8169 && e.typeflag != PAX_GLOBAL
    ensures |INDEX_HEADER + EntriesText([e])| == 8190 && !LiesWhole(8190, |CHECKPOINTS_HEADER|)
    ensures Readable(e)
  {
    hide EntryText;
    DeclaredLengthExact(e);
    assert Digits(0) == [DIGIT_0];
    assert Pow10(4) == 10000 && Pow10(3) == 1000;
    DigitsBound(8175, 4);
    DigitsBound(8175, 3);
    DigitsBound(8179, 4);
    DigitsBound(8179, 3);
    assert [e][1..] == [];
    assert EntryText(e) + [] == EntryText(e);
  }

  /** Opening an archive that the writer finished, and reading it all through one cursor. Every item comes back with
      the metadata and content that were added if and only if the format marks where members end, or both section
      headers lay whole in the buffer; with steady fills the lengths of the sections decide that. */
  method ReadBack(r: SharedFile, c: Codec, tailLoc: nat, ghost items: seq<Item>)
    returns (all: Option<seq<(IndexItem, Option<(Metadata, bytes)>)>>, ghost held: Held, ghost steady: bool)
    requires (Bounded(c) || Continuing(c)) && Incremental(c) && FitsWords(c, items)
    requires r.data == ArchiveOf(c, items) && tailLoc == TailLoc(c, items)
    requires forall e | e in Archive.IndexOf(items) :: Readable(e)
    requires forall i | 0 <= i < |items| :: Recoverable(items[i])
    modifies r
    ensures all.Some? <==> Bounded(c) || Whole(held)
    ensures all.Some? ==>
      && |all.value| == |items|
      && forall i | 0 <= i < |items| ::
           all.value[i] == (ItemOf(Archive.IndexOf(items)[i]), Some((items[i].meta, ContentOf(items[i]))))
    ensures steady && !Bounded(c) ==>
      (all.Some? <==> LiesWhole(TableLength(c, items), |TAIL_HEADER|) &&
                      LiesWhole(IndexLength(items), |CHECKPOINTS_HEADER|))
  {
    hide ArchiveOf, TailLoc, TableOf, Bounded, Continuing, FitsWords, ReadEntry, Readable, ReadTail, SeenIndex;
    hide SeenCheckpoints, DecodeAt, Archive.IndexOf, Recoverable, ContentOf, Incremental, Faithful;
    hide SteadyIndex, SteadyTable, IndexLength, TableLength, LiesWhole;
    BoundedOrContinuing(c);
    var reader;
    ghost var heldTable, steadyTable;
    reader, heldTable, steadyTable := ScarReader.OpenAt(r, c, tailLoc);
    held, steady := Held(heldTable, 0), steadyTable;
    if reader.None? {
      OpenFinished(c, items, held);
      FinishedSections(c, items, held);
      OpenFinished(c, items, Held(heldTable, |CHECKPOINTS_HEADER|));
      return None, held, steady;
    }
    ghost var heldIndex, steadyIndex;
    all, heldIndex, steadyIndex := reader.value.ReadAll();
    held, steady := Held(heldTable, heldIndex), steadyTable && steadyIndex;
    OpenFinished(c, items, held);
    FinishedSections(c, items, held);
    if all.Some? {
      forall i | 0 <= i < |items|
        ensures all.value[i] == (ItemOf(Archive.IndexOf(items)[i]), Some((items[i].meta, ContentOf(items[i]))))
      {
        assert Recoverable(items[i]);
        ReadAddedEntry(c, items, i);
      }
    }
  }

  lemma BoundedOrContinuing(c: Codec)
    requires Bounded(c) || Continuing(c)
    ensures Faithful(c)
  {
    hide Bounded, Continuing, Faithful;
    if Bounded(c) {
      BoundedIsFaithful(c);
    } else {
      ContinuingIsFaithful(c);
    }
  }
}
