/** Opening and listing an archive with the C implementation and the `plain` format
    (scar-c/src/scar-reader.c, scar-c/src/compression/common.c). */
module CReader {
  import opened Bytes
  import opened Decimal
  import opened PaxHeader
  import opened Sections
  import opened CStream
  import opened TailScan
  import opened CArchive

  // ---------------------------------------------------------------- locating the tail

  /** A number that ends with a line feed. */
  function TailNumber(t: bytes): Option<(nat, bytes)> {
    var k := LineEnd(t);
    if k < |t| && DigitRun(t) == k then Some((Value(t[..k]), t[k + 1..])) else None
  }

  /** `parse_tail`: at most 512 bytes are looked at. */
  function ParseTailOf(tail: bytes): Option<(nat, nat)> {
    var plain := Clip(tail, 512);
    if !(TAIL_HEADER <= plain) then None
    else match TailNumber(plain[|TAIL_HEADER|..])
      case None => None
      case Some((indexOffset, rest)) =>
        match TailNumber(rest)
        case None => None
        case Some((checkpointsOffset, _)) => Some((indexOffset, checkpointsOffset))
  }

  predicate IsTail(block: bytes, i: nat) {
    Occurs(block, TAIL_HEADER, i) && ParseTailOf(block[i..]).Some?
  }

  /** What the backward scan finds below position `n`. */
  function TailBelow(block: bytes, n: nat): Option<(nat, nat)> {
    if n == 0 then None
    else if IsTail(block, n - 1) then ParseTailOf(block[n - 1..])
    else TailBelow(block, n - 1)
  }

  function ScanForTail(block: bytes): Option<(nat, nat)> {
    TailBelow(block, if |block| < |TAIL_HEADER| then 0 else |block| - |TAIL_HEADER| + 1)
  }

  /** The last 512 bytes, or the whole file. */
  function EndBlock(file: bytes): bytes {
    if |file| <= 512 then file else file[|file| - 512..]
  }

  /** `scar_reader_create`, for a file whose end marker is that of the `plain` format. */
  function Open(file: bytes): Option<(nat, nat)> {
    var block := EndBlock(file);
    if |block| < |EOF_MARKER| || block[|block| - |EOF_MARKER|..] != EOF_MARKER then None
    else ScanForTail(block[..|block| - |EOF_MARKER|])
  }

  // ---------------------------------------------------------------- iterating over the index

  datatype Listed = Listed(ft: FileType, offset: int, name: bytes)

  /** A `g` entry carries records for the entries behind it; an item is what the iterator yields. */
  datatype Step = Stop | Failure | Global(records: bytes, rest: bytes) | Yield(item: Listed, rest: bytes)

  /** `scar_index_iterator_next`. An entry without a path is refused. */
  function Next(s: bytes): (r: Step)
    ensures r.Yield? ==> |r.rest| < |s|
  {
    var n := DigitRun(s);
    if n == 0 then Stop
    else if n == |s| || s[n] != SPACE || Value(s[..n]) < n + 1 then Failure
    else NextBody(Value(s[..n]) - n - 1, s[n + 1..])
  }

  function NextBody(remaining: nat, t: bytes): (r: Step)
    ensures r.Yield? ==> |r.rest| < |t|
  {
    if |t| < 2 || t[1] != SPACE then Failure else NextName(t[0], remaining - 2, t[2..])
  }

  function NextName(ft: byte, remaining: int, u: bytes): (r: Step)
    ensures r.Yield? ==> |r.rest| < |u|
  {
    var n := DigitRun(u);
    var left := remaining - n - 1;
    if n == 0 || n == |u| || u[n] != SPACE || left <= 1 then Failure
    else
      var w := u[n + 1..];
      if ft == PAX_GLOBAL then Global(Taken(w, left), Drop(w, left))
      else if |w| < left || w[left - 1] != LINE_FEED then Failure
      else Yield(Listed(TypeOf(ft), Value(u[..n]), w[..left - 1]), w[left..])
  }

  function Items(s: bytes): Option<seq<Listed>>
    decreases |s|
  {
    match Next(s)
    case Stop => Some([])
    case Failure => None
    case Global(_, _) => None
    case Yield(item, rest) =>
      match Items(rest)
      case None => None
      case Some(items) => Some([item] + items)
  }

  /** The numbers that the iterator meets stay in range of a signed 64-bit variable; of one that does not, the
      code computes nothing that is defined. */
  predicate NextFits(s: bytes) {
    var n := DigitRun(s);
    0 < n < |s| && s[n] == SPACE ==> Value(s[..n]) < TWO_TO_63 && BodyFits(s[n + 1..])
  }

  predicate BodyFits(t: bytes) {
    |t| >= 2 ==> NameFits(t[2..])
  }

  predicate NameFits(u: bytes) {
    Value(u[..DigitRun(u)]) < TWO_TO_63
  }

  predicate ItemsFit(s: bytes)
    decreases |s|
  {
    NextFits(s) && (Next(s).Yield? ==> ItemsFit(Next(s).rest))
  }

  /** `scar_reader_iterate` and every following item. */
  function Iterate(s: bytes): Option<seq<Listed>> {
    if !(INDEX_HEADER <= s) then None else Items(s[|INDEX_HEADER|..])
  }

  /** Opening a file and listing its index. */
  function List(file: bytes): Option<seq<Listed>> {
    match Open(file)
    case None => None
    case Some((indexOffset, _)) => Iterate(Drop(file, indexOffset))
  }

  /** All numbers that opening and listing a file meets stay in range. */
  predicate ListFits(file: bytes) {
    match Open(file)
    case None => true
    case Some((indexOffset, checkpointsOffset)) =>
      && indexOffset < TWO_TO_63 && checkpointsOffset < TWO_TO_63
      && (INDEX_HEADER <= Drop(file, indexOffset) ==> ItemsFit(Drop(file, indexOffset)[|INDEX_HEADER|..]))
  }

  // ---------------------------------------------------------------- the tail is found

  lemma Pow10Nineteen()
    ensures Pow10(19) > TWO_TO_63
  {
    assert Pow10(4) == 10000;
    assert Pow10(8) == 10000 * Pow10(4);
    assert Pow10(12) == 10000 * Pow10(8);
    assert Pow10(16) == 10000 * Pow10(12);
    assert Pow10(19) == 1000 * Pow10(16);
  }

  lemma TailTextShort(a: nat, b: nat)
    requires a < TWO_TO_63 && b < TWO_TO_63
    ensures |TailText(a, b)| <= 50
  {
    hide Digits, Pow10;
    Pow10Nineteen();
    DigitsBound(a, 19);
    DigitsBound(b, 19);
  }

  lemma TailNumberText(n: nat, rest: bytes)
    ensures TailNumber(Digits(n) + [LINE_FEED] + rest) == Some((n, rest))
  {
    hide Digits, DigitRun, Value, LineEnd;
    var d := Digits(n);
    var tail := [LINE_FEED] + rest;
    var t := d + tail;
    assert d + [LINE_FEED] + rest == t;
    DigitRunPrefix(d, tail);
    assert LineEnd(t) == |d| by {
      assert t[|d|] == LINE_FEED;
      assert forall i | 0 <= i < |d| :: t[i] == d[i];
      LineEndUnique(t, |d|);
    }
    assert t[..|d|] == d && t[|d| + 1..] == rest;
    ValueDigits(n);
  }

  lemma ParseTailText(a: nat, b: nat)
    requires |TailText(a, b)| <= 512
    ensures ParseTailOf(TailText(a, b)) == Some((a, b))
  {
    hide Digits, TailNumber;
    var second := Digits(b) + [LINE_FEED] + [];
    var first := Digits(a) + [LINE_FEED] + second;
    assert TailText(a, b) == TAIL_HEADER + first;
    TailNumberText(a, second);
    TailNumberText(b, []);
  }

  lemma OccursFirst(block: bytes, needle: bytes, i: nat)
    requires needle != []
    ensures Occurs(block, needle, i) ==> block[i] == needle[0]
  {
  }

  lemma {:induction false} ScanDown(p: bytes, a: nat, b: nat, n: nat)
    requires |TailText(a, b)| <= 512 && |p| < n <= |p| + |TailText(a, b)|
    ensures TailBelow(p + TailText(a, b), n) == Some((a, b))
    decreases n
  {
    hide TailText, ParseTailOf;
    var t := TailText(a, b);
    var block := p + t;
    var i := n - 1;
    if i == |p| {
      ParseTailText(a, b);
      assert block[i..] == t;
      TailTextHeader(a, b);
      assert block[i..i + |TAIL_HEADER|] == t[..|TAIL_HEADER|];
    } else {
      HeaderOnlyFirst(a, b, i - |p|);
      assert block[i] == t[i - |p|];
      OccursFirst(block, TAIL_HEADER, i);
      ScanDown(p, a, b, n - 1);
    }
  }

  /** The backward scan recovers the two offsets that the writer computed, whatever the entries and
      their paths contain. */
  lemma OpenFinished(s: CState)
    requires |FinishedFile(s)| < TWO_TO_63
    ensures Open(FinishedFile(s)) == Some((IndexOffset(s), CheckpointsOffset(s)))
  {
    hide TailBelow, TailText, Body, IndexSection, CheckpointSection;
    var a, b := IndexOffset(s), CheckpointsOffset(s);
    var t := TailText(a, b);
    var front := Body(s) + IndexSection(s) + CheckpointSection(s);
    var file := FinishedFile(s);
    assert file == front + t + EOF_MARKER;
    TailTextShort(a, b);
    TailTextHeader(a, b);
    var block := EndBlock(file);
    var n := |t| + |EOF_MARKER|;
    var p := if |file| <= 512 then front else front[|file| - 512..];
    assert block == p + t + EOF_MARKER;
    assert block[..|block| - |EOF_MARKER|] == p + t;
    assert block[|block| - |EOF_MARKER|..] == EOF_MARKER;
    ScanDown(p, a, b, |p + t| - |TAIL_HEADER| + 1);
  }

  // ---------------------------------------------------------------- the index is listed

  function ListedOf(e: IndexEntry): Listed {
    Listed(TypeOf(e.typeflag), e.rawLoc, e.data)
  }

  lemma NumberThenSpaceValue(n: nat, t: bytes)
    ensures var s := Digits(n) + [SPACE] + t; var k := |Digits(n)|;
            DigitRun(s) == k && s[k] == SPACE && Value(s[..k]) == n && s[k + 1..] == t
  {
    hide Digits, DigitRun, Value, ReadNum;
    NumberThenSpace(Digits(n), t);
    ValueDigits(n);
  }

  lemma NextNameText(e: IndexEntry, rest: bytes)
    requires e.typeflag != PAX_GLOBAL
    ensures NextName(e.typeflag, |Digits(e.rawLoc)| + 1 + |e.data| + 1,
                     Digits(e.rawLoc) + [SPACE] + (e.data + [LINE_FEED] + rest)) ==
            if e.data == [] then Failure else Yield(ListedOf(e), rest)
  {
    hide Digits, DigitRun, Value, TypeOf;
    var w := e.data + [LINE_FEED] + rest;
    NumberThenSpaceValue(e.rawLoc, w);
    assert w[|e.data|] == LINE_FEED && w[..|e.data|] == e.data && w[|e.data| + 1..] == rest;
  }

  /** An entry is listed exactly when its path is not empty. */
  lemma NextText(e: IndexEntry, rest: bytes)
    requires e.typeflag != PAX_GLOBAL
    ensures Next(EntryText(e) + rest) == if e.data == [] then Failure else Yield(ListedOf(e), rest)
  {
    hide Digits, DigitRun, Value, NextName, EntryText, ListedOf;
    var length := DeclaredLength(e);
    var u := Digits(e.rawLoc) + [SPACE] + (e.data + [LINE_FEED] + rest);
    var t := [e.typeflag, SPACE] + u;
    var u' := EntryShape(e, rest);
    assert u' == u;
    assert Digits(length) + ([SPACE, e.typeflag, SPACE] + u) == Digits(length) + [SPACE] + t;
    NumberThenSpaceValue(length, t);
    SelfLengthExact(3 + |Digits(e.rawLoc)| + 1 + |e.data| + 1);
    assert t[2..] == u;
    NextNameText(e, rest);
  }

  predicate NamedAll(entries: seq<IndexEntry>) {
    forall e | e in entries :: e.data != []
  }

  function ListedAll(entries: seq<IndexEntry>): (r: seq<Listed>)
    ensures |r| == |entries|
    ensures forall i | 0 <= i < |entries| :: r[i] == ListedOf(entries[i])
  {
    seq(|entries|, i requires 0 <= i < |entries| => ListedOf(entries[i]))
  }

  lemma StopsAt(rest: bytes)
    requires rest == [] || !IsDigit(rest[0])
    ensures Next(rest) == Stop
  {
  }

  /** Printed entries are listed in front of whatever follows, unless one of them has no path. */
  lemma {:induction false} ItemsText(entries: seq<IndexEntry>, rest: bytes)
    requires forall e | e in entries :: e.typeflag != PAX_GLOBAL
    ensures Items(EntriesText(entries) + rest) ==
            if NamedAll(entries) then Prepended(ListedAll(entries), Items(rest)) else None
    decreases entries
  {
    hide EntryText, Next, ListedOf, NamedAll;
    if entries == [] {
      assert EntriesText(entries) + rest == rest;
      assert ListedAll(entries) == [];
      AllFirst(entries);
      PrependedNothing(Items(rest));
    } else {
      var e, others := entries[0], entries[1..];
      var more := EntriesText(others) + rest;
      assert EntriesText(entries) + rest == EntryText(e) + more;
      NextText(e, more);
      ItemsText(others, rest);
      AllFirst(entries);
      PrependedTwice([ListedOf(e)], ListedAll(others), Items(rest));
    }
  }

  lemma NextNameFits(e: IndexEntry, rest: bytes)
    requires e.rawLoc < TWO_TO_63
    ensures NameFits(Digits(e.rawLoc) + [SPACE] + (e.data + [LINE_FEED] + rest))
  {
    hide Digits, DigitRun, Value;
    NumberThenSpaceValue(e.rawLoc, e.data + [LINE_FEED] + rest);
  }

  lemma NextFitsText(e: IndexEntry, rest: bytes)
    requires e.typeflag != PAX_GLOBAL && e.rawLoc < TWO_TO_63 && |EntryText(e)| < TWO_TO_63
    ensures NextFits(EntryText(e) + rest)
  {
    hide Digits, DigitRun, Value, NameFits, EntryText;
    var length := DeclaredLength(e);
    DeclaredLengthExact(e);
    var u := Digits(e.rawLoc) + [SPACE] + (e.data + [LINE_FEED] + rest);
    var t := [e.typeflag, SPACE] + u;
    var u' := EntryShape(e, rest);
    assert u' == u;
    assert Digits(length) + ([SPACE, e.typeflag, SPACE] + u) == Digits(length) + [SPACE] + t;
    NumberThenSpaceValue(length, t);
    assert t[2..] == u;
    NextNameFits(e, rest);
  }

  lemma {:induction false} ItemsFitText(entries: seq<IndexEntry>, rest: bytes)
    requires forall e | e in entries :: e.typeflag != PAX_GLOBAL && e.rawLoc < TWO_TO_63 && |EntryText(e)| < TWO_TO_63
    requires ItemsFit(rest)
    ensures ItemsFit(EntriesText(entries) + rest)
    decreases entries
  {
    hide EntryText, Next, NextFits;
    if entries == [] {
      assert EntriesText(entries) + rest == rest;
    } else {
      var e, others := entries[0], entries[1..];
      var more := EntriesText(others) + rest;
      assert EntriesText(entries) + rest == EntryText(e) + more;
      assert e in entries;
      NextText(e, more);
      NextFitsText(e, more);
      ItemsFitText(others, rest);
    }
  }

  lemma AllFirst(entries: seq<IndexEntry>)
    ensures NamedAll(entries) <==>
            (entries == [] || (entries[0].data != [] && NamedAll(entries[1..])))
    ensures entries != [] ==> ListedAll(entries) == [ListedOf(entries[0])] + ListedAll(entries[1..])
  {
    hide ListedOf;
    if entries != [] {
      assert entries == [entries[0]] + entries[1..];
    }
  }

  // ---------------------------------------------------------------- every run

  /** What the index of a run is to say: type, offset into the tar body, and path. */
  function ExpectedIndex(entries: seq<Entry>): (r: seq<IndexEntry>)
    ensures |r| == |entries|
    ensures forall i | 0 <= i < |entries| ::
              r[i] == IndexEntry(|TarOf(entries[..i])|, TypeChar(entries[i].ft), entries[i].path)
  {
    seq(|entries|, i requires 0 <= i < |entries| =>
      IndexEntry(|TarOf(entries[..i])|, TypeChar(entries[i].ft), entries[i].path))
  }

  /** The checkpoint table of a `plain` archive: equal offsets, in order, none past `last`. */
  ghost predicate PlainTable(s: CState) {
    && (forall i | 0 <= i < |s.table| :: s.table[i].compressedLoc == s.table[i].rawLoc <= s.last)
    && (forall i, j | 0 <= i <= j < |s.table| :: s.table[i].rawLoc <= s.table[j].rawLoc)
    && s.last <= |s.body|
  }

  lemma ExpectedIndexGrows(entries: seq<Entry>)
    requires entries != []
    ensures var n := |entries| - 1;
            ExpectedIndex(entries) == ExpectedIndex(entries[..n]) +
              [IndexEntry(|TarOf(entries[..n])|, TypeChar(entries[n].ft), entries[n].path)]
  {
    hide TarOf, TypeChar;
    var before := entries[..|entries| - 1];
    forall i | 0 <= i < |before|
      ensures entries[..i] == before[..i]
    {
    }
  }

  /** The printed lines of a run. */
  function IndexText(entries: seq<Entry>): bytes {
    if entries == [] then []
    else IndexText(entries[..|entries| - 1]) + Framed(entries[|entries| - 1].printed)
  }

  /** Every run keeps the body, the index and the checkpoint table exact. */
  lemma {:induction false} RunInvariant(entries: seq<Entry>)
    ensures var s := Run(entries);
            s.body == TarOf(entries) && s.index == IndexText(entries) && PlainTable(s)
  {
    hide Framed, PlainTable;
    if entries == [] {
      EmptyRun();
    } else {
      var n := |entries| - 1;
      RunInvariant(entries[..n]);
      TableGrows(Run(entries[..n]), entries[n]);
    }
  }

  lemma PossibleBefore(entries: seq<Entry>)
    requires Possible(entries) && entries != []
    ensures var n := |entries| - 1;
            && Possible(entries[..n]) && (ShortLines(entries) ==> ShortLines(entries[..n]))
            && PrintedAs(LineAt(entries, n), entries[n].printed)
  {
    hide Line, TarOf;
    var before := entries[..|entries| - 1];
    forall i | 0 <= i < |before|
      ensures LineAt(before, i) == LineAt(entries, i)
    {
      assert entries[..i] == before[..i];
    }
  }

  /** With short lines, the printed index is the text of the expected one. */
  lemma {:induction false} IndexTextIs(entries: seq<Entry>)
    requires Possible(entries) && ShortLines(entries)
    ensures IndexText(entries) == EntriesText(ExpectedIndex(entries))
  {
    hide Framed, Line, TarOf, EntryText, TypeChar, ExpectedIndex, Possible, ShortLines;
    if entries == [] {
      assert ExpectedIndex(entries) == [];
    } else {
      var n := |entries| - 1;
      var e := entries[n];
      PossibleBefore(entries);
      IndexTextIs(entries[..n]);
      ExpectedIndexGrows(entries);
      ShortAt(entries, n);
      SameEntryText(e.ft, e.path, |TarOf(entries[..n])|);
      EntriesTextPush(ExpectedIndex(entries[..n]), IndexEntry(|TarOf(entries[..n])|, TypeChar(e.ft), e.path));
    }
  }

  lemma ShortAt(entries: seq<Entry>, i: nat)
    requires i < |entries| && ShortLines(entries)
    ensures |LineAt(entries, i)| <= MAX_PRINTED
  {
  }

  lemma EntriesTextPush(entries: seq<IndexEntry>, e: IndexEntry)
    ensures EntriesText(entries + [e]) == EntriesText(entries) + EntryText(e)
  {
    hide EntryText;
    if entries == [] {
      assert [e][1..] == [];
      assert entries + [e] == [e];
      assert EntryText(e) + [] == EntryText(e);
    } else {
      assert (entries + [e])[1..] == entries[1..] + [e];
      EntriesTextPush(entries[1..], e);
    }
  }

  lemma EmptyRun()
    ensures PlainTable(Run([]))
  {
  }

  lemma TableGrows(s: CState, e: Entry)
    requires PlainTable(s)
    ensures PlainTable(Added(s, e))
  {
    hide Framed;
  }

  lemma IndexTypes(entries: seq<Entry>)
    ensures forall e | e in ExpectedIndex(entries) :: e.typeflag != PAX_GLOBAL
  {
    hide TarOf;
    var index := ExpectedIndex(entries);
    forall e | e in index
      ensures e.typeflag != PAX_GLOBAL
    {
      var i :| 0 <= i < |index| && index[i] == e;
      TypeRoundTrip(entries[i].ft);
    }
  }

  /** What the reader iterates over: the printed lines, and then something that is no entry. */
  lemma ListIs(entries: seq<Entry>) returns (after: bytes)
    requires |FinishedFile(Run(entries))| < TWO_TO_63
    ensures List(FinishedFile(Run(entries))) == Items(IndexText(entries) + after)
    ensures ItemsFit(IndexText(entries) + after) ==> ListFits(FinishedFile(Run(entries)))
    ensures Items(after) == Some([]) && ItemsFit(after)
  {
    hide Open, Items, CheckpointsText, TailText, Body, Run, IndexText;
    var s := Run(entries);
    var file := FinishedFile(s);
    OpenFinished(s);
    RunInvariant(entries);
    after := CheckpointSection(s) + TailText(IndexOffset(s), CheckpointsOffset(s)) + EOF_MARKER;
    assert file == Body(s) + (IndexSection(s) + after);
    assert Drop(file, IndexOffset(s)) == IndexSection(s) + after;
    assert IndexSection(s) + after == INDEX_HEADER + (s.index + after);
    assert (INDEX_HEADER + (s.index + after))[|INDEX_HEADER|..] == s.index + after;
    assert after[0] == CHECKPOINTS_HEADER[0];
    NothingListed(after);
  }

  lemma NothingListed(after: bytes)
    requires after == [] || !IsDigit(after[0])
    ensures Items(after) == Some([]) && ItemsFit(after)
  {
    StopsAt(after);
  }

  /** Open and list: for every run of `scar_writer_write_entry` and `scar_writer_finish` whose index lines are
      short, opening the file and iterating yields exactly the written list of types, offsets and paths,
      provided that no path is empty; with an empty path the listing fails. */
  lemma ListFinished(entries: seq<Entry>)
    requires |FinishedFile(Run(entries))| < TWO_TO_63
    requires Possible(entries) && ShortLines(entries)
    ensures List(FinishedFile(Run(entries))) ==
            if forall e | e in entries :: e.path != [] then Some(ListedAll(ExpectedIndex(entries))) else None
  {
    hide List, Items, EntriesText, ListedOf, TarOf, Run, IndexText, Possible, ShortLines, ExpectedIndex;
    var after := ListIs(entries);
    IndexTextIs(entries);
    IndexTypes(entries);
    ItemsText(ExpectedIndex(entries), after);
    SameNames(entries);
    NothingBehind(ListedAll(ExpectedIndex(entries)));
  }

  lemma PrefixTar(entries: seq<Entry>, i: nat)
    requires i <= |entries|
    ensures |TarOf(entries[..i])| <= |TarOf(entries)|
  {
    if i < |entries| {
      var before := entries[..|entries| - 1];
      assert before[..i] == entries[..i];
      PrefixTar(before, i);
    } else {
      assert entries[..i] == entries;
    }
  }

  lemma ShortEntry(entries: seq<Entry>, i: nat)
    requires ShortLines(entries) && i < |entries|
    ensures |EntryText(ExpectedIndex(entries)[i])| < 1000
  {
    hide Digits, Line, TarOf, EntryText;
    var e := entries[i];
    var line := Line(e.ft, e.path, |TarOf(entries[..i])|);
    SameEntryText(e.ft, e.path, |TarOf(entries[..i])|);
    assert Pow10(3) == 1000;
    DigitsBound(1 + |line|, 3);
    ShortAt(entries, i);
    SelfLengthExact(1 + |line|);
  }

  /** Every number in a file of less than 2^63 bytes whose index lines are short stays in range. */
  lemma FinishedFits(entries: seq<Entry>)
    requires |FinishedFile(Run(entries))| < TWO_TO_63
    requires Possible(entries) && ShortLines(entries)
    ensures ListFits(FinishedFile(Run(entries)))
  {
    hide ListFits, ItemsFit, EntriesText, EntryText, TarOf, Run, IndexText, Possible, ShortLines;
    hide IndexSection, CheckpointSection, TailText;
    var after := ListIs(entries);
    IndexTextIs(entries);
    IndexTypes(entries);
    RunInvariant(entries);
    var index := ExpectedIndex(entries);
    forall e | e in index
      ensures e.rawLoc < TWO_TO_63 && |EntryText(e)| < TWO_TO_63
    {
      var i :| 0 <= i < |index| && index[i] == e;
      PrefixTar(entries, i);
      ShortEntry(entries, i);
    }
    ItemsFitText(index, after);
  }

  // ---------------------------------------------------------------- lines that are too long

  /** The same run, with nothing printed for a line that is too long. */
  function Blanked(entries: seq<Entry>): (r: seq<Entry>)
    ensures |r| == |entries|
    ensures forall i | 0 <= i < |entries| :: r[i] == entries[i].(printed := Outcome(LineAt(entries, i)))
  {
    seq(|entries|, i requires 0 <= i < |entries| => entries[i].(printed := Outcome(LineAt(entries, i))))
  }

  function Outcome(line: bytes): bytes {
    if |line| <= MAX_PRINTED then line else []
  }

  /** Two runs that differ at most in what was printed. */
  predicate SameRequests(a: seq<Entry>, b: seq<Entry>) {
    && |a| == |b|
    && forall i | 0 <= i < |a| :: a[i].ft == b[i].ft && a[i].path == b[i].path && a[i].tar == b[i].tar
  }

  lemma {:induction false} SameTar(a: seq<Entry>, b: seq<Entry>)
    requires SameRequests(a, b)
    ensures TarOf(a) == TarOf(b)
  {
    if a != [] {
      SameTar(a[..|a| - 1], b[..|b| - 1]);
    }
  }

  lemma SameLines(a: seq<Entry>, b: seq<Entry>)
    requires SameRequests(a, b)
    ensures forall i | 0 <= i < |a| :: LineAt(a, i) == LineAt(b, i)
    ensures ExpectedIndex(a) == ExpectedIndex(b)
  {
    hide TarOf, Line, TypeChar;
    forall i | 0 <= i < |a|
      ensures TarOf(a[..i]) == TarOf(b[..i])
    {
      SameTar(a[..i], b[..i]);
    }
  }

  lemma BlankedIsPossible(entries: seq<Entry>)
    ensures SameRequests(entries, Blanked(entries)) && Possible(Blanked(entries))
  {
    hide TarOf, LineAt;
    SameLines(entries, Blanked(entries));
  }

  /** An empty line makes the iterator fail. */
  lemma BlankFails(rest: bytes)
    ensures Items(Framed([]) + rest) == None
  {
    hide NextBody;
    assert Digits(1) == [49] && Digits(2) == [50];
    assert Framed([]) == [50, SPACE];
    var s := [50, SPACE] + rest;
    NumberThenSpaceValue(2, rest);
    assert Digits(2) + [SPACE] + rest == s;
    NoRoom(rest);
  }

  lemma NoRoom(t: bytes)
    ensures NextBody(0, t) == Failure
  {
  }

  /** With an empty line behind entries that are printed as they should be, the listing fails. */
  lemma {:induction false} BlankLineFails(entries: seq<Entry>, rest: bytes)
    requires Possible(entries) && !ShortLines(entries)
    requires forall i | 0 <= i < |entries| :: entries[i].printed == Outcome(LineAt(entries, i))
    ensures Items(IndexText(entries) + rest) == None
  {
    hide Framed, Line, TarOf, LineAt, Items, EntriesText, ExpectedIndex, IndexText;
    if entries != [] {
      var n := |entries| - 1;
      var before := entries[..n];
      var last := Framed(entries[n].printed);
      PossibleBefore(entries);
      IndexTextLast(entries);
      assert IndexText(entries) + rest == IndexText(before) + (last + rest);
      LinesBefore(entries);
      if ShortLines(before) {
        ShortExceptLast(entries);
        IndexTextIs(before);
        IndexTypes(before);
        ItemsText(ExpectedIndex(before), last + rest);
        BlankFails(rest);
      } else {
        BlankLineFails(before, last + rest);
      }
    }
  }

  lemma IndexTextLast(entries: seq<Entry>)
    requires entries != []
    ensures IndexText(entries) == IndexText(entries[..|entries| - 1]) + Framed(entries[|entries| - 1].printed)
  {
  }

  lemma LinesBefore(entries: seq<Entry>)
    requires entries != []
    ensures forall i | 0 <= i < |entries| - 1 :: LineAt(entries[..|entries| - 1], i) == LineAt(entries, i)
  {
    hide Line, TarOf;
    var before := entries[..|entries| - 1];
    forall i | 0 <= i < |before|
      ensures LineAt(before, i) == LineAt(entries, i)
    {
      assert entries[..i] == before[..i];
    }
  }

  lemma ShortExceptLast(entries: seq<Entry>)
    requires entries != [] && !ShortLines(entries) && ShortLines(entries[..|entries| - 1])
    ensures |LineAt(entries, |entries| - 1)| > MAX_PRINTED
  {
    hide LineAt;
    LinesBefore(entries);
  }

  /** The listing can be relied on: whatever is printed for these requests, it is the written list. */
  ghost predicate ListsForCertain(entries: seq<Entry>) {
    forall run: seq<Entry> | SameRequests(entries, run) && Possible(run) && |FinishedFile(Run(run))| < TWO_TO_63 ::
      List(FinishedFile(Run(run))) == Some(ListedAll(ExpectedIndex(entries)))
  }

  /** Exactly the requests with short lines are listed for certain. */
  lemma ListsExactly(entries: seq<Entry>)
    requires forall e | e in entries :: e.path != []
    requires |FinishedFile(Run(Blanked(entries)))| < TWO_TO_63
    ensures ListsForCertain(entries) <==> ShortLines(entries)
  {
    hide List, Items, Run, FinishedFile, TarOf, LineAt, ListedAll, IndexText;
    if ShortLines(entries) {
      forall run: seq<Entry> | SameRequests(entries, run) && Possible(run) && |FinishedFile(Run(run))| < TWO_TO_63
        ensures List(FinishedFile(Run(run))) == Some(ListedAll(ExpectedIndex(entries)))
      {
        SameLines(entries, run);
        assert forall e | e in run :: e.path != [];
        ListFinished(run);
      }
    } else {
      var run := Blanked(entries);
      BlankedIsPossible(entries);
      SameLines(entries, run);
      var after := ListIs(run);
      BlankLineFails(run, after);
    }
  }

  lemma SameNames(entries: seq<Entry>)
    ensures NamedAll(ExpectedIndex(entries)) <==> forall e | e in entries :: e.path != []
  {
    hide TarOf, TypeChar;
    var index := ExpectedIndex(entries);
    if forall e | e in entries :: e.path != [] {
      forall e | e in index
        ensures e.data != []
      {
        var i :| 0 <= i < |index| && index[i] == e;
        assert entries[i] in entries;
      }
    }
    if NamedAll(index) {
      forall e | e in entries
        ensures e.path != []
      {
        var i :| 0 <= i < |entries| && entries[i] == e;
        assert index[i] in index;
      }
    }
  }

  // ---------------------------------------------------------------- the loops

  /** A signed 64-bit operation, whose result is undefined when it overflows. */
  method Offset(x: int) returns (y: int)
    ensures -TWO_TO_63 <= y < TWO_TO_63
    ensures -TWO_TO_63 <= x < TWO_TO_63 ==> y == x
  {
    if -TWO_TO_63 <= x < TWO_TO_63 {
      return x;
    }
    y :| -TWO_TO_63 <= y < TWO_TO_63;
  }

  /** What is computed for a number: the number, if it is in range. */
  predicate Computed(y: int, x: nat) {
    x < TWO_TO_63 ==> y == x
  }

  /** One number of `parse_tail`, and its line feed. */
  method ParseTailNumber(t: bytes) returns (r: Option<(int, bytes)>)
    ensures match TailNumber(t)
            case None => r == None
            case Some((x, rest)) => r.Some? && Computed(r.value.0, x) && r.value.1 == rest
  {
    hide LineEnd, DigitRun, Value;
    if t == [] {
      return None;
    }
    var n: int := 0;
    var i := 0;
    ValueNothing();
    while |t| - i > 1 && t[i] != LINE_FEED
      invariant i < |t|
      invariant forall j | 0 <= j < i :: IsDigit(t[j]) && t[j] != LINE_FEED
      invariant Computed(n, Value(t[..i]))
    {
      if t[i] < DIGIT_0 || t[i] > DIGIT_9 {
        NotANumber(t, i);
        return None;
      }
      ValuePush(t, i);
      n := Offset(n * 10);
      n := Offset(n + DigitValue(t[i]));
      i := i + 1;
    }
    if t[i] != LINE_FEED {
      NotANumber(t, i);
      return None;
    }
    LineEndUnique(t, i);
    DigitRunIs(t, i);
    return Some((n, t[i + 1..]));
  }

  lemma ValueNothing()
    ensures Value([]) == 0
  {
  }

  lemma ValuePush(t: bytes, i: nat)
    requires i < |t| && forall j | 0 <= j <= i :: IsDigit(t[j])
    ensures Value(t[..i + 1]) == Value(t[..i]) * 10 + DigitValue(t[i])
  {
    assert t[..i + 1][..i] == t[..i];
  }

  lemma LineEndPast(t: bytes, i: nat)
    requires i < |t| && forall j | 0 <= j <= i :: t[j] != LINE_FEED
    ensures LineEnd(t) > i
  {
  }

  /** Either a byte that is no digit comes before the line feed, or the text ends without one. */
  lemma NotANumber(t: bytes, i: nat)
    requires i < |t| && (forall j | 0 <= j < i :: IsDigit(t[j])) && t[i] != LINE_FEED
    requires !IsDigit(t[i]) || i + 1 == |t|
    ensures TailNumber(t) == None
  {
    hide LineEnd, DigitRun, Value;
    LineEndPast(t, i);
  }

  predicate ComputedPair(r: Option<(int, int)>, spec: Option<(nat, nat)>) {
    match spec
    case None => r == None
    case Some((a, b)) => r.Some? && Computed(r.value.0, a) && Computed(r.value.1, b)
  }

  /** `parse_tail` */
  method ParseTail(tail: bytes) returns (r: Option<(int, int)>)
    ensures ComputedPair(r, ParseTailOf(tail))
  {
    hide TailNumber;
    var plain := Clip(tail, 512);
    if |plain| < 10 {
      return None;
    }
    if plain[..10] != TAIL_HEADER {
      return None;
    }
    var first := ParseTailNumber(plain[10..]);
    if first.None? {
      return None;
    }
    var second := ParseTailNumber(first.value.1);
    if second.None? {
      return None;
    }
    return Some((first.value.0, second.value.0));
  }

  /** `find_tail` */
  method FindTail(block: bytes) returns (r: Option<(int, int)>)
    ensures ComputedPair(r, ScanForTail(block))
  {
    hide ParseTailOf, TailBelow;
    var ptr := |block| - |TAIL_HEADER|;
    if ptr < 0 {
      TailBelowStep(block, 0);
      return None;
    }
    while ptr >= 0
      invariant -1 <= ptr <= |block| - |TAIL_HEADER|
      invariant TailBelow(block, ptr + 1) == ScanForTail(block)
    {
      TailBelowStep(block, ptr + 1);
      if block[ptr..ptr + |TAIL_HEADER|] == TAIL_HEADER {
        var ret := ParseTail(block[ptr..]);
        if ret.Some? {
          return ret;
        }
      }
      ptr := ptr - 1;
    }
    TailBelowStep(block, 0);
    return None;
  }

  lemma TailBelowStep(block: bytes, n: nat)
    ensures TailBelow(block, n) ==
            if n == 0 then None
            else if IsTail(block, n - 1) then ParseTailOf(block[n - 1..])
            else TailBelow(block, n - 1)
  {
  }
}
