/** Seeking through the checkpoint table with the C implementation and the `plain` format, and entry content
    (scar-c/src/scar-reader.c, scar-c/src/ioutil.c, scar-c/src/pax.c). */
module CSeek {
  import opened Bytes
  import opened Decimal
  import opened PaxHeader
  import opened Sections
  import opened CStream
  import opened CArchive
  import opened CReader
  import opened Scan

  // ---------------------------------------------------------------- lines

  predicate EndsLine(b: byte) {
    b == LINE_FEED || b == CARRIAGE_RETURN
  }

  const CARRIAGE_RETURN: byte := 13

  /** The length of the line that `s` starts with, as far as it is read. */
  function LineRun(s: bytes, most: nat): (n: nat)
    ensures n <= |s|
  {
    if most == 0 || s == [] || EndsLine(s[0]) then 0 else 1 + LineRun(s[1..], most - 1)
  }

  function SkipLineEnds(s: bytes): (r: bytes)
    ensures |r| <= |s|
  {
    if s == [] || !EndsLine(s[0]) then s else SkipLineEnds(s[1..])
  }

  /** What `scar_block_reader_read_line` delivers for a buffer of `n` bytes, and what it leaves. Empty lines
      are skipped together with the end of the line before them. */
  function LineOf(s: bytes, n: nat): (r: (bytes, bytes))
    ensures |r.0| + |r.1| <= |s|
  {
    var k := LineRun(s, n + 1);
    (s[..k], SkipLineEnds(s[k..]))
  }

  lemma {:induction false} LineRunAt(line: bytes, rest: bytes, most: nat)
    requires |line| <= most && rest != [] && EndsLine(rest[0])
    requires forall b | b in line :: !EndsLine(b)
    ensures LineRun(line + rest, most) == |line|
  {
    if line == [] {
      assert line + rest == rest;
    } else {
      assert (line + rest)[1..] == line[1..] + rest;
      assert line[0] in line;
      LineRunAt(line[1..], rest, most - 1);
    }
  }

  /** A short line that is followed by another one. */
  lemma LineOfText(line: bytes, rest: bytes, n: nat)
    requires |line| <= n && rest != [] && !EndsLine(rest[0])
    requires forall b | b in line :: !EndsLine(b)
    ensures LineOf(line + [LINE_FEED] + rest, n) == (line, rest)
  {
    hide LineRun;
    var tail := [LINE_FEED] + rest;
    LineRunAt(line, tail, n + 1);
    assert line + [LINE_FEED] + rest == line + tail;
    assert tail[1..] == rest;
    assert (line + tail)[..|line|] == line && (line + tail)[|line|..] == tail;
    assert SkipLineEnds(tail) == SkipLineEnds(rest) == rest;
  }

  /** `scar_block_reader_read_line`. Of the buffer it fills `stored` bytes, the line and in general a NUL; these
      lie inside exactly when the line is shorter than the buffer. */
  method ReadLine(br: BlockReader, n: nat) returns (line: bytes, ghost stored: nat)
    requires br.Valid()
    modifies br.Repr
    ensures br.Valid() && (br.Exact() ==> old(br.Exact()))
    ensures br.Exact() ==> (line, br.Stream()) == LineOf(old(br.Stream()), n)
    ensures |line| + |br.Stream()| <= |old(br.Stream())|
    ensures |line| <= stored <= |line| + 1
    ensures br.Exact() ==> (stored <= n <==> LineRun(old(br.Stream()), n + 1) < n)
  {
    hide BlockReader.Valid, BlockReader.Stream, BlockReader.Exact;
    ghost var s := br.Stream();
    line, stored := [], 0;
    while |line| - 1 < n
      invariant br.Valid() && (br.Exact() ==> old(br.Exact()))
      invariant stored == |line| <= n + 1 && |line| + |br.Stream()| <= |s|
      invariant br.Exact() ==> line == s[..|line|] && br.Stream() == s[|line|..]
      invariant br.Exact() ==> LineRun(s, n + 1) == |line| + LineRun(br.Stream(), n + 1 - |line|)
      decreases n + 1 - |line|
    {
      if br.next == EOF {
        stored := stored + 1;
        return;
      }
      if br.next == LINE_FEED as int || br.next == CARRIAGE_RETURN as int {
        stored := stored + 1;
        break;
      }
      if br.Exact() {
        ghost var was := br.Stream();
        assert was[0] == s[|line|];
        assert was[1..] == s[|line| + 1..];
      }
      line := line + [br.next as byte];
      stored := stored + 1;
      br.Consume();
    }
    SkipEnds(br);
  }

  method SkipEnds(br: BlockReader)
    requires br.Valid()
    modifies br.Repr
    ensures br.Valid() && (br.Exact() ==> old(br.Exact()))
    ensures br.Exact() ==> br.Stream() == SkipLineEnds(old(br.Stream()))
    ensures |br.Stream()| <= |old(br.Stream())|
  {
    hide BlockReader.Valid, BlockReader.Stream, BlockReader.Exact;
    ghost var s := br.Stream();
    while br.next == LINE_FEED as int || br.next == CARRIAGE_RETURN as int
      invariant br.Valid() && (br.Exact() ==> old(br.Exact()))
      invariant br.Exact() ==> SkipLineEnds(br.Stream()) == SkipLineEnds(s)
      invariant |br.Stream()| <= |s|
      decreases |br.Stream()|
    {
      br.Consume();
    }
  }

  // ---------------------------------------------------------------- the checkpoint table

  /** Signed 64-bit offsets, as `strtoll` delivers them. */
  datatype CCheckpoint = CCheckpoint(compressed: int, uncompressed: int)

  predicate IsBlank(b: byte) {
    b == SPACE || 9 <= b <= 13
  }

  function SkipBlanks(t: bytes): bytes {
    if t == [] || !IsBlank(t[0]) then t else SkipBlanks(t[1..])
  }

  function Saturated(x: int): int {
    if x >= TWO_TO_63 then TWO_TO_63 - 1 else if x < -TWO_TO_63 then -TWO_TO_63 else x
  }

  /** `strtoll(t, &endptr, 10)` followed by the test that `endptr` is at the end. */
  function StrToLL(t: bytes): Option<int> {
    var u := SkipBlanks(t);
    var signed := u != [] && (u[0] == MINUS || u[0] == PLUS);
    var d := if signed then u[1..] else u;
    if DigitRun(d) == 0 then (if t == [] then Some(0) else None)
    else if DigitRun(d) < |d| then None
    else
      var v: int := Value(d);
      Some(Saturated(if signed && u[0] == MINUS then 0 - v else v))
  }

  function SpaceAt(t: bytes): (n: nat)
    ensures n <= |t| && (n < |t| ==> t[n] == SPACE)
  {
    if t == [] || t[0] == SPACE then 0 else 1 + SpaceAt(t[1..])
  }

  /** A line of the table; C strings end at a NUL. */
  function ParseLine(line: bytes): Option<CCheckpoint> {
    var t := UpToNul(line);
    var sep := SpaceAt(t);
    if sep == |t| then None
    else match StrToLL(t[..sep])
      case None => None
      case Some(compressed) =>
        match StrToLL(t[sep + 1..])
        case None => None
        case Some(uncompressed) => Some(CCheckpoint(compressed, uncompressed))
  }

  const LINE_SIZE: nat := 64
  const CHECKPOINTS_LINE: bytes := [83, 67, 65, 82, 45, 67, 72, 69, 67, 75, 80, 79, 73, 78, 84, 83]
  const TAIL_LINE: bytes := [83, 67, 65, 82, 45, 84, 65, 73, 76]

  predicate PlainLine(line: bytes) {
    forall b | b in line :: !EndsLine(b) && b != NUL
  }

  lemma CheckpointsLinePlain()
    ensures CHECKPOINTS_HEADER == CHECKPOINTS_LINE + [LINE_FEED] && PlainLine(CHECKPOINTS_LINE)
  {
  }

  lemma TailLinePlain()
    ensures TAIL_HEADER == TAIL_LINE + [LINE_FEED] && PlainLine(TAIL_LINE)
  {
  }

  lemma PlainLineReads(line: bytes)
    requires PlainLine(line)
    ensures UpToNul(line) == line && forall b | b in line :: !EndsLine(b)
  {
    UpToNulWhole(line);
  }

  function LoadLines(s: bytes): Option<seq<CCheckpoint>>
    decreases |s|
  {
    var (line, rest) := LineOf(s, LINE_SIZE);
    if line == [] || UpToNul(line) == TAIL_LINE then Some([])
    else match ParseLine(line)
      case None => None
      case Some(c) => Prepended([c], LoadLines(rest))
  }

  lemma LoadNothing()
    ensures Load([]) == None
  {
  }

  /** The checkpoint table that starts at the beginning of `s`. */
  function Load(s: bytes): Option<seq<CCheckpoint>> {
    var (line, rest) := LineOf(s, LINE_SIZE);
    if line == [] || UpToNul(line) != CHECKPOINTS_LINE then None else LoadLines(rest)
  }

  /** The scan of `reader_find_checkpoint`: stops at the first checkpoint past the offset. */
  function Find(table: seq<CCheckpoint>, offset: int): CCheckpoint {
    var n := Reached(Positions(table), offset);
    if n == 0 then CCheckpoint(0, 0) else table[n - 1]
  }

  function Positions(table: seq<CCheckpoint>): (r: seq<int>)
    ensures |r| == |table| && forall i | 0 <= i < |table| :: r[i] == table[i].uncompressed
  {
    seq(|table|, i requires 0 <= i < |table| => table[i].uncompressed)
  }

  /** Where `reader_seek_to` leaves the decompressor, when it succeeds. */
  function SeekTarget(table: seq<CCheckpoint>, offset: int): int {
    var c := Find(table, offset);
    c.compressed + (if offset > c.uncompressed then offset - c.uncompressed else 0)
  }

  // ---------------------------------------------------------------- what the writer wrote loads

  lemma StrToLLDigits(n: nat)
    requires n < TWO_TO_63
    ensures StrToLL(Digits(n)) == Some(n)
  {
    hide Digits, Value, DigitRun;
    var d := Digits(n);
    assert IsDigit(d[0]);
    assert SkipBlanks(d) == d;
    DigitRunPrefix(d, []);
    assert d + [] == d;
    ValueDigits(n);
  }

  lemma {:induction false} SpaceAtFront(d: bytes, rest: bytes)
    requires forall i | 0 <= i < |d| :: IsDigit(d[i])
    ensures SpaceAt(d + [SPACE] + rest) == |d|
  {
    var t := d + [SPACE] + rest;
    if d == [] {
      assert t[0] == SPACE;
    } else {
      assert t[1..] == d[1..] + [SPACE] + rest;
      assert t[0] == d[0];
      SpaceAtFront(d[1..], rest);
    }
  }

  function LineText(c: Checkpoint): bytes {
    Digits(c.compressedLoc) + [SPACE] + Digits(c.rawLoc)
  }

  predicate Signed64(c: Checkpoint) {
    c.compressedLoc < TWO_TO_63 && c.rawLoc < TWO_TO_63
  }

  function Loaded(c: Checkpoint): CCheckpoint {
    CCheckpoint(c.compressedLoc, c.rawLoc)
  }

  lemma LineBytes(c: Checkpoint, i: nat)
    requires i < |LineText(c)|
    ensures IsDigit(LineText(c)[i]) || LineText(c)[i] == SPACE
    ensures IsDigit(LineText(c)[0])
  {
    hide Digits;
    var a, b := Digits(c.compressedLoc), Digits(c.rawLoc);
    if i > |a| {
      assert LineText(c)[i] == b[i - |a| - 1];
    }
  }

  lemma ParseLineText(c: Checkpoint)
    requires Signed64(c)
    ensures ParseLine(LineText(c)) == Some(Loaded(c))
  {
    hide Digits, StrToLL, SpaceAt, UpToNul;
    var a, b := Digits(c.compressedLoc), Digits(c.rawLoc);
    var t := LineText(c);
    assert NUL !in t by {
      if NUL in t {
        var i :| 0 <= i < |t| && t[i] == NUL;
        LineBytes(c, i);
      }
    }
    UpToNulWhole(t);
    SpaceAtFront(a, b);
    assert t[..|a|] == a && t[|a| + 1..] == b;
    StrToLLDigits(c.compressedLoc);
    StrToLLDigits(c.rawLoc);
  }

  /** A line of the table, as the line reader sees it. */
  lemma LineOfCheckpoint(c: Checkpoint, rest: bytes)
    requires Signed64(c) && rest != [] && !EndsLine(rest[0])
    ensures LineOf(CheckpointText(c) + rest, LINE_SIZE) == (LineText(c), rest)
    ensures 0 < |LineText(c)| < LINE_SIZE && IsDigit(LineText(c)[0])
  {
    hide Digits, LineOf, Pow10;
    Pow10Nineteen();
    DigitsBound(c.compressedLoc, 19);
    DigitsBound(c.rawLoc, 19);
    var t := LineText(c);
    forall b | b in t
      ensures !EndsLine(b)
    {
      var i :| 0 <= i < |t| && t[i] == b;
      LineBytes(c, i);
    }
    LineBytes(c, 0);
    LineOfText(t, rest, LINE_SIZE);
    assert CheckpointText(c) + rest == t + [LINE_FEED] + rest;
  }

  function LoadedAll(table: seq<Checkpoint>): (r: seq<CCheckpoint>)
    ensures |r| == |table| && forall i | 0 <= i < |table| :: r[i] == Loaded(table[i])
  {
    seq(|table|, i requires 0 <= i < |table| => Loaded(table[i]))
  }

  lemma TailLine(rest: bytes)
    requires rest != [] && !EndsLine(rest[0])
    ensures LoadLines(TAIL_HEADER + rest) == Some([])
  {
    hide LineOf, LoadLines, UpToNul, PlainLine;
    TailLinePlain();
    PlainLineReads(TAIL_LINE);
    LineOfText(TAIL_LINE, rest, LINE_SIZE);
    LoadLinesStep(TAIL_HEADER + rest);
  }

  lemma LoadLinesStep(s: bytes)
    ensures var (line, rest) := LineOf(s, LINE_SIZE);
            LoadLines(s) ==
            if line == [] || UpToNul(line) == TAIL_LINE then Some([])
            else match ParseLine(line)
              case None => None
              case Some(c) =>
                Prepended([c], LoadLines(rest))
  {
    hide LineOf, ParseLine;
  }

  lemma {:induction false} LoadLinesText(table: seq<Checkpoint>, rest: bytes)
    requires forall c | c in table :: Signed64(c)
    requires rest != [] && !EndsLine(rest[0])
    ensures LoadLines(CheckpointsText(table) + (TAIL_HEADER + rest)) == Some(LoadedAll(table))
  {
    hide CheckpointText, LoadLines, LineOf, ParseLine, LineText, UpToNul;
    var tail := TAIL_HEADER + rest;
    if table == [] {
      assert CheckpointsText(table) + tail == tail;
      TailLine(rest);
    } else {
      var c, others := table[0], table[1..];
      var more := CheckpointsText(others) + tail;
      var s := CheckpointsText(table) + tail;
      assert s == CheckpointText(c) + more;
      assert tail[0] == TAIL_HEADER[0];
      StartsPlainly(others, tail);
      LineOfCheckpoint(c, more);
      ParseLineText(c);
      DigitFirst(LineText(c));
      LoadLinesText(others, rest);
      LoadLinesStep(s);
      assert LoadedAll(table) == [Loaded(c)] + LoadedAll(others);
    }
  }

  lemma DigitFirst(line: bytes)
    requires line != [] && IsDigit(line[0])
    ensures UpToNul(line) != TAIL_LINE
  {
  }

  lemma StartsPlainly(table: seq<Checkpoint>, tail: bytes)
    requires tail != [] && !EndsLine(tail[0])
    ensures var s := CheckpointsText(table) + tail; s != [] && !EndsLine(s[0])
  {
    hide Digits;
    if table != [] {
      assert IsDigit(Digits(table[0].compressedLoc)[0]);
      assert CheckpointsText(table)[0] == CheckpointText(table[0])[0];
    }
  }

  /** The written table loads as it was, whatever follows the tail header. */
  lemma LoadText(table: seq<Checkpoint>, rest: bytes)
    requires forall c | c in table :: Signed64(c)
    requires rest != [] && !EndsLine(rest[0])
    ensures Load(CHECKPOINTS_HEADER + (CheckpointsText(table) + (TAIL_HEADER + rest))) == Some(LoadedAll(table))
  {
    hide CheckpointsText, LoadLines, LineOf, UpToNul, PlainLine;
    CheckpointsLinePlain();
    PlainLineReads(CHECKPOINTS_LINE);
    var more := CheckpointsText(table) + (TAIL_HEADER + rest);
    assert (TAIL_HEADER + rest)[0] == TAIL_HEADER[0];
    StartsPlainly(table, TAIL_HEADER + rest);
    LineOfText(CHECKPOINTS_LINE, more, LINE_SIZE);
    LoadLinesText(table, rest);
  }

  // ---------------------------------------------------------------- every run

  /** For every run, the table at the offset the tail names loads as the writer kept it, sorted, and seeking
      to any offset of the tar body ends exactly there. */
  lemma SeekFinished(entries: seq<Entry>, offset: nat)
    requires |FinishedFile(Run(entries))| < TWO_TO_63
    requires offset <= |Body(Run(entries))|
    ensures var s := Run(entries); var table := LoadedAll(s.table);
            && Load(Drop(FinishedFile(s), CheckpointsOffset(s))) == Some(table)
            && SeekTarget(table, offset) == offset
            && forall c | c in table && c.uncompressed <= offset :: c.uncompressed <= Find(table, offset).uncompressed
  {
    hide Load, Body, IndexSection, CheckpointsText, Run, Reached, ExpectedIndex, TarOf;
    var s := Run(entries);
    var table := LoadedAll(s.table);
    RunInvariant(entries);
    LoadFinished(s);
    forall c | c in table && c.uncompressed <= offset
      ensures c.uncompressed <= Find(table, offset).uncompressed
    {
      var i :| 0 <= i < |table| && table[i] == c;
      StopsLast(Positions(table), offset, i);
    }
  }

  lemma LoadFinished(s: CState)
    requires |FinishedFile(s)| < TWO_TO_63 && PlainTable(s)
    ensures Load(Drop(FinishedFile(s), CheckpointsOffset(s))) == Some(LoadedAll(s.table))
  {
    hide Load, IndexSection, CheckpointsText, Digits;
    var a, b := IndexOffset(s), CheckpointsOffset(s);
    var rest := Digits(a) + [LINE_FEED] + Digits(b) + [LINE_FEED] + EOF_MARKER;
    var file := FinishedFile(s);
    var section := CHECKPOINTS_HEADER + (CheckpointsText(s.table) + (TAIL_HEADER + rest));
    assert TailText(a, b) + EOF_MARKER == TAIL_HEADER + rest;
    assert file == Body(s) + IndexSection(s) + section;
    assert Drop(file, b) == section;
    assert rest[0] == Digits(a)[0];
    LoadText(s.table, rest);
  }

  // ---------------------------------------------------------------- random access

  lemma {:induction false} TarOfAt(entries: seq<Entry>, i: nat)
    requires i < |entries|
    ensures var start := |TarOf(entries[..i])|; var end := start + |entries[i].tar|;
            end <= |TarOf(entries)| && TarOf(entries)[start..end] == entries[i].tar
  {
    var n := |entries| - 1;
    var before := entries[..n];
    if i < n {
      assert before[..i] == entries[..i];
      TarOfAt(before, i);
    }
  }

  /** List, then seek: for every run of the writer with short index lines, each listed item carries its entry's
      type and path, and seeking to its offset puts the reader in front of exactly the tar bytes written for that
      entry. */
  lemma ListThenSeek(entries: seq<Entry>, i: nat)
    requires |FinishedFile(Run(entries))| < TWO_TO_63
    requires Possible(entries) && ShortLines(entries)
    requires i < |entries| && forall e | e in entries :: e.path != []
    ensures var s := Run(entries); var file := FinishedFile(s); var items := List(file);
            && items.Some? && |items.value| == |entries|
            && items.value[i].ft == entries[i].ft && items.value[i].name == entries[i].path
            && var at := SeekTarget(LoadedAll(s.table), items.value[i].offset);
               0 <= at <= |file| && entries[i].tar <= file[at..]
  {
    hide Run, List, SeekTarget, Possible, ShortLines, TypeChar, TypeOf, TarOf, ExpectedIndex, FinishedFile;
    hide LoadedAll;
    var s := Run(entries);
    var start := |TarOf(entries[..i])|;
    RunInvariant(entries);
    ListFinished(entries);
    TypeRoundTrip(entries[i].ft);
    assert List(FinishedFile(s)).value[i] == ListedOf(ExpectedIndex(entries)[i]);
    TarOfAt(entries, i);
    TarInFile(s, start, entries[i].tar);
    SeekFinished(entries, start);
  }

  lemma TarInFile(s: CState, start: nat, tar: bytes)
    requires start + |tar| <= |s.body| && s.body[start..start + |tar|] == tar
    ensures start <= |Body(s)| <= |FinishedFile(s)| && tar <= FinishedFile(s)[start..]
  {
    hide IndexSection, CheckpointSection, TailText;
    var file := FinishedFile(s);
    var behind := file[|s.body|..];
    assert file[..|s.body|] == s.body;
    assert file[start..][..|tar|] == s.body[start..start + |tar|];
  }

  // ---------------------------------------------------------------- the reader

  /** The parts of `struct scar_reader` that seeking uses. */
  class SeekingReader {
    const src: Source
    const checkpointsOffset: nat
    var hasCheckpoints: bool
    var checkpoints: seq<CCheckpoint>

    /** A table that counts as loaded is the one in the file. */
    ghost predicate Valid()
      reads this, src
    {
      && src.Valid()
      && (hasCheckpoints ==> Table() == Some(checkpoints))
      && (!hasCheckpoints ==> checkpoints == [])
    }

    /** The table in the file. */
    ghost function Table(): Option<seq<CCheckpoint>> {
      Load(Drop(src.data, checkpointsOffset))
    }

    /** Whether the table leads to a position for `offset` that can be reached. */
    ghost predicate Reachable(offset: int) {
      && Table().Some?
      && var c := Find(Table().value, offset);
         c.compressed >= 0 && (offset <= c.uncompressed || SeekTarget(Table().value, offset) <= |src.data|)
    }

    constructor (src: Source, checkpointsOffset: nat)
      requires src.Valid()
      ensures Valid() && this.src == src && this.checkpointsOffset == checkpointsOffset && !hasCheckpoints
    {
      this.src, this.checkpointsOffset, hasCheckpoints, checkpoints := src, checkpointsOffset, false, [];
    }

    /** The lines of `reader_ensure_checkpoint_section`. */
    method LoadTable(br: BlockReader) returns (ret: int, table: seq<CCheckpoint>)
      requires br.Valid() && br.r.loud
      modifies br.Repr
      ensures br.Valid() && -1 <= ret <= 0 && (br.Exact() ==> old(br.Exact()))
      ensures ret == 0 ==> Load(old(br.Stream())) == Some(table)
      ensures ret != 0 && br.Exact() ==> Load(old(br.Stream())) == None
    {
      hide BlockReader.Valid, BlockReader.Stream, LineOf, UpToNul, ParseLine, LoadLines;
      table := [];
      var line, stored := ReadLine(br, LINE_SIZE);
      if line == [] {
        return -1, [];
      }
      if UpToNul(line) != CHECKPOINTS_LINE {
        return -1, [];
      }
      ghost var start := br.Stream();
      PrependedNothing(LoadLines(start));
      ghost var sound := br.Exact();
      while true
        invariant br.Valid() && (br.Exact() ==> sound)
        invariant br.Exact() ==> (LoadLines(start) == Prepended(table, LoadLines(br.Stream())))
        decreases |br.Stream()|
      {
        LoadLinesStep(br.Stream());
        line, stored := ReadLine(br, LINE_SIZE);
        if br.error != 0 {
          return -1, [];
        }
        if line == [] || UpToNul(line) == TAIL_LINE {
          assert table + [] == table;
          return 0, table;
        }
        var c := ParseLine(line);
        if c.None? {
          return -1, [];
        }
        PrependedTwice(table, [c.value], LoadLines(br.Stream()));
        table := table + [c.value];
      }
    }

    /** `reader_ensure_checkpoint_section` */
    method EnsureCheckpointSection() returns (ret: int)
      requires Valid()
      modifies this, src
      ensures Valid() && -1 <= ret <= 0 && (ret == 0 ==> hasCheckpoints)
      ensures ret == -1 ==> src.cut || Table() == None
    {
      hide Load;
      if hasCheckpoints {
        return 0;
      }
      src.Seek(checkpointsOffset);
      var r := new Reader.Direct(src);
      var br := new BlockReader(r);
      LoadNothing();
      var table;
      ret, table := LoadTable(br);
      if ret == 0 {
        hasCheckpoints, checkpoints := true, table;
      }
    }

    /** `reader_find_checkpoint` */
    method FindCheckpoint(offset: int) returns (ret: int, c: CCheckpoint)
      requires Valid()
      modifies this, src
      ensures Valid() && -1 <= ret <= 0
      ensures ret == -1 ==> src.cut || Table() == None
      ensures ret == 0 ==> hasCheckpoints && c == Find(checkpoints, offset)
    {
      hide Load;
      ret := EnsureCheckpointSection();
      c := CCheckpoint(0, 0);
      if ret < 0 {
        return -1, c;
      }
      ret := 0;
      var i: nat := 0;
      while i < |checkpoints|
        invariant i <= |checkpoints|
        invariant c == if i == 0 then CCheckpoint(0, 0) else checkpoints[i - 1]
        invariant forall j | 0 <= j < i :: checkpoints[j].uncompressed <= offset
      {
        if checkpoints[i].uncompressed <= offset {
          c := checkpoints[i];
        } else {
          break;
        }
        i := i + 1;
      }
      ReachedIs(Positions(checkpoints), offset, i);
    }

    /** `reader_seek_to`: on success the reader is exactly where the table says. It fails when no such position
        can be reached, or when the source has cut a read short. */
    method SeekTo(offset: int) returns (ret: int)
      requires Valid()
      modifies this, src
      ensures Valid()
      ensures ret == -1 ==> src.cut || !Reachable(offset)
      ensures -1 <= ret <= 0
      ensures ret == 0 ==> hasCheckpoints && SeekTarget(checkpoints, offset) >= 0
      ensures ret == 0 ==> src.pos == ClippedTo(SeekTarget(checkpoints, offset), |src.data|)
    {
      hide Load;
      var c;
      ret, c := FindCheckpoint(offset);
      if ret < 0 {
        return -1;
      }
      if c.compressed < 0 {
        return -1;
      }
      src.Seek(c.compressed);
      var skip := offset - c.uncompressed;
      ghost var at := c.compressed;
      while skip > 0
        invariant Valid() && hasCheckpoints && c == Find(checkpoints, offset)
        invariant skip <= 0 ==> src.pos == ClippedTo(SeekTarget(checkpoints, offset), |src.data|)
        invariant skip > 0 ==> SeekTarget(checkpoints, offset) == skip + at
        invariant src.pos == ClippedTo(at, |src.data|) && at >= c.compressed
        decreases skip
      {
        var n := if skip > 512 then 512 else skip;
        var count, _ := src.Read(n);
        if count < n {
          return -1;
        }
        skip := skip - n;
        at := at + n;
      }
      return 0;
    }
  }

  /** A position that may lie past the end. */
  function ClippedTo(at: int, end: nat): int {
    if at <= end then at else end
  }

  // ---------------------------------------------------------------- entry content

  lemma Appended(base: bytes, d: bytes, a: nat, b: nat, c: nat)
    requires a <= b <= c <= |d|
    ensures base + d[a..b] + d[b..c] == base + d[a..c]
  {
    assert d[a..b] + d[b..c] == d[a..c];
  }

  /** The last block completes the padding. */
  lemma PaddedLast(base: bytes, whole: bytes, last: bytes)
    requires |whole| % 512 == 0 && 0 < |last| < 512
    ensures base + Padded(whole + last) == (base + whole) + (last + Zeros(512 - |last|))
  {
    assert Padded(whole + last) == whole + (last + Zeros(512 - |last|));
  }

  lemma WholeBlocks(n: nat)
    ensures (512 * n) % 512 == 0
  {
  }

  lemma PaddedWhole(whole: bytes)
    requires |whole| % 512 == 0
    ensures Padded(whole) == whole
  {
  }

  /** A turn of the loops that copy whole blocks. */
  method CopyBlock(r: Source, w: MemWriter) returns (ok: bool)
    requires r.Valid() && w.Valid()
    modifies r, w, w.buf
    ensures r.Valid() && w.Valid() && (w.buf == old(w.buf) || fresh(w.buf))
    ensures !ok ==> r.cut || old(r.pos) + 512 > |r.data|
    ensures ok ==> r.pos == old(r.pos) + 512 && w.Contents() == old(w.Contents()) + r.data[old(r.pos)..r.pos]
  {
    hide MemWriter.Contents;
    var count, block := r.Read(512);
    if count < 512 {
      return false;
    }
    w.Write(block);
    ok := true;
  }

  /** The block behind the loop of `scar_pax_write_content`. */
  method WriteLastBlock(r: Source, w: MemWriter, left: nat) returns (ret: int)
    requires r.Valid() && w.Valid() && 0 < left < 512
    modifies r, w, w.buf
    ensures r.Valid() && w.Valid() && (w.buf == old(w.buf) || fresh(w.buf)) && -1 <= ret <= 0
    ensures ret == -1 ==> r.cut || old(r.pos) + left > |r.data|
    ensures ret == 0 ==>
      && old(r.pos) + left <= |r.data|
      && w.Contents() == old(w.Contents()) + (r.data[old(r.pos)..old(r.pos) + left] + Zeros(512 - left))
  {
    hide MemWriter.Contents;
    var count, block := r.Read(512);
    if count < left {
      return -1;
    }
    assert block[..left] == r.data[old(r.pos)..old(r.pos) + left];
    w.Write(block[..left] + Zeros(512 - left));
    return 0;
  }

  /** `scar_pax_write_content`: the content and its padding. The last block may take more than the content
      from the reader. */
  method WriteContent(r: Source, w: MemWriter, size: nat) returns (ret: int)
    requires r.Valid() && w.Valid()
    modifies r, w, w.buf
    ensures r.Valid() && w.Valid() && (w.buf == old(w.buf) || fresh(w.buf)) && -1 <= ret <= 0
    ensures ret == -1 ==> r.cut || old(r.pos) + size > |r.data|
    ensures ret == 0 ==>
      && old(r.pos) + size <= |r.data|
      && w.Contents() == old(w.Contents()) + Padded(r.data[old(r.pos)..old(r.pos) + size])
  {
    hide Padded, MemWriter.Contents, Zeros;
    ghost var start, base := r.pos, w.Contents();
    var left: nat := size;
    ghost var blocks: nat := 0;
    while left >= 512
      invariant r.Valid() && w.Valid() && (w.buf == old(w.buf) || fresh(w.buf))
      invariant size == left + 512 * blocks
      invariant r.pos == start + 512 * blocks
      invariant w.Contents() == base + r.data[start..r.pos]
    {
      var ok := CopyBlock(r, w);
      if !ok {
        return -1;
      }
      Appended(base, r.data, start, r.pos - 512, r.pos);
      left := left - 512;
      blocks := blocks + 1;
    }
    ghost var whole := r.data[start..r.pos];
    WholeBlocks(blocks);
    if left == 0 {
      PaddedWhole(whole);
      return 0;
    }
    ghost var at := r.pos;
    ret := WriteLastBlock(r, w, left);
    if ret == 0 {
      PaddedLast(base, whole, r.data[at..at + left]);
      Cut(r.data, start, at, at + left);
    }
  }

  /** `left` bytes are left of `size` after some whole blocks, of which there are as many as the padding says. */
  predicate BlocksFit(size: nat, left: nat) {
    && left <= size && (size - left) % 512 == 0
    && (left == 0 ==> PaddedLength(size) == size)
    && (0 < left <= 512 ==> PaddedLength(size) == size - left + 512)
    && (left > 512 ==> PaddedLength(size) > size - left + 512)
  }

  lemma BlocksLeft(size: nat, left: nat)
    requires left <= size && (size - left) % 512 == 0
    ensures BlocksFit(size, left)
  {
  }

  /** `scar_pax_read_content`: takes whole blocks, delivers the content. */
  method ReadContent(r: Source, w: MemWriter, size: nat) returns (ret: int)
    requires r.Valid() && w.Valid()
    modifies r, w, w.buf
    ensures r.Valid() && w.Valid() && (w.buf == old(w.buf) || fresh(w.buf)) && -1 <= ret <= 0
    ensures ret == -1 ==> r.cut || old(r.pos) + PaddedLength(size) > |r.data|
    ensures ret == 0 ==>
      && r.pos == old(r.pos) + PaddedLength(size)
      && w.Contents() == old(w.Contents()) + r.data[old(r.pos)..old(r.pos) + size]
  {
    hide Padded, PaddedLength, MemWriter.Contents;
    ghost var start, base := r.pos, w.Contents();
    var left: nat := size;
    BlocksLeft(size, left);
    while left > 512
      invariant r.Valid() && w.Valid() && (w.buf == old(w.buf) || fresh(w.buf))
      invariant left <= size && BlocksFit(size, left)
      invariant r.pos == start + size - left
      invariant w.Contents() == base + r.data[start..r.pos]
    {
      var ok := CopyBlock(r, w);
      if !ok {
        return -1;
      }
      Appended(base, r.data, start, r.pos - 512, r.pos);
      left := left - 512;
      BlocksLeft(size, left);
    }
    ghost var whole := r.pos;
    if left == 0 {
      return 0;
    }
    var count, block := r.Read(512);
    if count < 512 {
      return -1;
    }
    assert block[..left] == r.data[whole..whole + left];
    w.Write(block[..left]);
    Appended(base, r.data, start, whole, whole + left);
    return 0;
  }
}
