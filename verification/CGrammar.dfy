/** Exactly which texts the C readers accept, written out character by character
    (scar-c/src/pax-syntax.c, scar-c/src/scar-reader.c, scar-c/src/ioutil.c). */
module CGrammar {
  import opened Bytes
  import opened Decimal
  import opened PaxRecords
  import opened PaxHeader
  import opened Sections
  import opened Resolution
  import opened Grammar
  import opened CPaxSyntax
  import opened CStream
  import opened CArchive
  import opened CReader
  import opened CSeek

  lemma CNames()
    ensures EOF_MARKER == Ascii("SCAR-EOF\n")
    ensures CHECKPOINTS_LINE == Ascii("SCAR-CHECKPOINTS") && TAIL_LINE == Ascii("SCAR-TAIL")
  {
  }

  // ---------------------------------------------------------------- pax records

  /** A text in the form of a record is read as one exactly when its length counts it whole, its name has at most
      62 bytes, and it has a value or has no name either. */
  lemma CReadsRecordExactly(s: bytes, d: bytes, name: bytes, value: bytes, rest: bytes)
    requires RecordForm(s, d, name, value, rest) && Value(d) < TWO_TO_63 && |s| < 0x8000_0000_0000_0000
    ensures CReadRecord(s) == CField(name, value, rest) <==>
            Value(d) == |s| - |rest| && |name| <= 62 && (name == [] || value != [])
  {
    hide CReadRecord, CReadName, Value, Wrap;
    FormLength(s, d, name, value, rest);
    var v := value + [LINE_FEED] + rest;
    var t := name + [EQUALS] + v;
    assert t == name + [EQUALS] + value + [LINE_FEED] + rest;
    CReadRecordSplit(d, t);
    AccumulateMeans(d);
    WrapSmall(Value(d));
    CNameExactly(Wrap(Value(d) - (|d| + 3)), name, value, rest);
    SizeLeft(Value(d), |d| + 3, |name| + |value|);
  }

  /** Whether a length that wraps around leaves exactly `left` bytes. */
  lemma SizeLeft(length: nat, used: nat, left: nat)
    requires length < TWO_TO_63 && used <= TWO_TO_63 && left < TWO_TO_63
    ensures Wrap(length - used) == left <==> length == used + left
  {
  }

  lemma CNameExactly(size: u64, name: bytes, value: bytes, rest: bytes)
    requires EQUALS !in name && |name| + |value| + |rest| < TWO_TO_63
    ensures CReadName(size, name + [EQUALS] + (value + [LINE_FEED] + rest)) == CField(name, value, rest) <==>
            size == |name| + |value| && |name| <= 62 && (name == [] || value != [])
  {
    hide IndexOf, Wrap;
    var v := value + [LINE_FEED] + rest;
    var t := name + [EQUALS] + v;
    IndexOfPrefix(name, EQUALS, v);
    assert t[..|name|] == name && t[|name| + 1..] == v;
    assert v[|value|] == LINE_FEED && v[..|value|] == value && v[|value| + 1..] == rest;
    LeftOver(size, |name|, |value|);
  }

  lemma LeftOver(size: u64, used: nat, left: nat)
    requires used < TWO_TO_63 && left < TWO_TO_63
    ensures Wrap(size - used) == left <==> size == used + left
  {
  }

  /** Whatever is read as a record has that form. */
  lemma OnlyCRecordsRead(s: bytes) returns (d: bytes)
    requires CReadRecord(s).CField?
    ensures var r := CReadRecord(s); RecordForm(s, d, r.name, r.value, r.rest) && |r.name| <= 62
  {
    hide IndexOf, DigitRun, ReadNum, Wrap, CReadValue;
    var n := DigitRun(s);
    var t := s[n + 1..];
    d := s[..n];
    CutAt(s, n);
    var e := IndexOf(t, EQUALS);
    CutAt(t, e);
    CValueShape(t[..e], Wrap(Wrap(ReadNum(s) - (n + 3)) - e), t[e + 1..]);
    var r := CReadRecord(s);
    assert t == r.name + [EQUALS] + (r.value + [LINE_FEED] + r.rest);
    assert t == r.name + [EQUALS] + r.value + [LINE_FEED] + r.rest;
  }

  lemma CValueShape(name: bytes, size: nat, v: bytes)
    requires CReadValue(name, size, v).CField?
    ensures var r := CReadValue(name, size, v); r.name == name && v == r.value + [LINE_FEED] + r.rest
  {
    CutAt(v, size);
  }

  // ---------------------------------------------------------------- the index

  /** A text in the form of an entry is listed exactly when its length counts it whole and neither its length, its
      offset nor its path is empty. */
  lemma CReadsEntryExactly(s: bytes, d: bytes, ch: byte, offset: bytes, path: bytes, rest: bytes)
    requires EntryForm(s, d, ch, offset, path, rest) && ch != 'g' as byte
    ensures Next(s) == Yield(Listed(TypeOf(ch), Value(offset), path), rest) <==>
            d != [] && Value(d) == |s| - |rest| && offset != [] && path != []
  {
    hide Value, DigitRun, TypeOf, NextName, ReadNum;
    EntryLength(s, d, ch, offset, path, rest);
    var u := offset + [SPACE] + (path + [LINE_FEED] + rest);
    var t := [ch, SPACE] + u;
    assert u == offset + ([SPACE] + (path + [LINE_FEED] + rest));
    NumberAt(d, SPACE, t);
    assert t[2..] == u;
    CNameOfEntry(ch, Value(d) - |d| - 3, offset, path, rest);
  }

  lemma CNameOfEntry(ch: byte, remaining: int, offset: bytes, path: bytes, rest: bytes)
    requires IsNumeral(offset) && ch != PAX_GLOBAL
    ensures NextName(ch, remaining, offset + [SPACE] + (path + [LINE_FEED] + rest)) ==
            Yield(Listed(TypeOf(ch), Value(offset), path), rest) <==>
            remaining == |offset| + |path| + 2 && offset != [] && path != []
  {
    hide Value, DigitRun, TypeOf, ReadNum, IsNumeral;
    var w := path + [LINE_FEED] + rest;
    NumberAt(offset, SPACE, w);
    DataThenFeed(path, rest);
    assert remaining - |offset| - 2 == |path| ==> w[..remaining - |offset| - 2] == path;
  }

  /** Whatever is listed has that form, and the item names its parts. */
  lemma OnlyCEntriesRead(s: bytes) returns (d: bytes, ch: byte, offset: bytes)
    requires Next(s).Yield?
    ensures var r := Next(s);
            && EntryForm(s, d, ch, offset, r.item.name, r.rest) && ch != 'g' as byte
            && HasType(r.item.ft, ch) && r.item.offset == Value(offset)
  {
    hide Value, DigitRun, NextName, TypeOf;
    var n := DigitRun(s);
    var t := s[n + 1..];
    d, ch := s[..n], t[0];
    CutAt(s, n);
    offset := CNameShape(ch, Value(d) - n - 3, t[2..]);
    assert t == [ch, SPACE] + t[2..];
    TypeIs(ch);
  }

  lemma CNameShape(ch: byte, remaining: int, u: bytes) returns (offset: bytes)
    requires NextName(ch, remaining, u).Yield?
    ensures var r := NextName(ch, remaining, u);
            && ch != PAX_GLOBAL && IsNumeral(offset)
            && u == offset + [SPACE] + (r.item.name + [LINE_FEED] + r.rest)
            && r.item.ft == TypeOf(ch) && r.item.offset == Value(offset)
  {
    hide Value, DigitRun, TypeOf, IsNumeral;
    var n := DigitRun(u);
    offset := u[..n];
    DigitsInFront(u);
    var w := u[n + 1..];
    CutAt(u, n);
    var r := NextName(ch, remaining, u);
    assert w == r.item.name + [LINE_FEED] + r.rest by {
      CutAt(w, remaining - n - 2);
    }
  }

  lemma DigitsInFront(u: bytes)
    ensures IsNumeral(u[..DigitRun(u)])
  {
  }

  /** The listing ends exactly where no digit stands. */
  lemma ListingEndsExactly(s: bytes)
    ensures Next(s) == Stop <==> s == [] || s[0] < '0' as byte || s[0] > '9' as byte
  {
    hide Value;
  }

  /** A `g` entry as the Rust writer prints it claims one byte more than it has, and the C reader takes that byte for
      one of the records. */
  lemma GlobalTakesOneMore(rawLoc: nat, records: bytes, rest: bytes)
    requires records != [] && rest != []
    ensures Next(EntryText(IndexEntry(rawLoc, 'g' as byte, records)) + rest) == Global(records + rest[..1], rest[1..])
  {
    hide Digits, Value, DigitRun, NextName, ReadNum, SelfLength;
    var e := IndexEntry(rawLoc, PAX_GLOBAL, records);
    var d, offset, w := Digits(DeclaredLength(e)), Digits(rawLoc), records + rest;
    var t := [PAX_GLOBAL, SPACE] + (offset + [SPACE] + w);
    assert EntryText(e) + rest == d + [SPACE] + t;
    NumberAt(d, SPACE, t);
    ValueDigits(DeclaredLength(e));
    SelfLengthExact(3 + |offset| + 1 + |records| + 1);
    assert t[2..] == offset + [SPACE] + w;
    GlobalName(|offset| + 1 + |records| + 1, rawLoc, records, rest);
  }

  lemma GlobalName(remaining: int, rawLoc: nat, records: bytes, rest: bytes)
    requires remaining == |Digits(rawLoc)| + 1 + |records| + 1 && records != [] && rest != []
    ensures NextName(PAX_GLOBAL, remaining, Digits(rawLoc) + [SPACE] + (records + rest)) ==
            Global(records + rest[..1], rest[1..])
  {
    hide Digits, Value, DigitRun, ReadNum;
    var w := records + rest;
    NumberAt(Digits(rawLoc), SPACE, w);
    assert w[..|records| + 1] == records + rest[..1] && w[|records| + 1..] == rest[1..];
  }

  // ---------------------------------------------------------------- the tail

  lemma CReadsTailNumberExactly(t: bytes, n: nat, rest: bytes)
    ensures TailNumber(t) == Some((n, rest)) <==>
            exists d :: IsNumeral(d) && t == d + ['\n' as byte] + rest && Value(d) == n
  {
    hide Value, DigitRun, LineEnd, ReadNum;
    if TailNumber(t) == Some((n, rest)) {
      CutAt(t, LineEnd(t));
      var d := t[..LineEnd(t)];
      assert IsNumeral(d);
    }
    if d :| IsNumeral(d) && t == d + [LINE_FEED] + rest && Value(d) == n {
      NumberAt(d, LINE_FEED, rest);
      assert forall i | 0 <= i < |d| :: t[i] == d[i];
      LineEndUnique(t, |d|);
    }
  }

  /** A tail is its name and two such numbers, all of it within 512 bytes. */
  lemma CReadsTailExactly(tail: bytes, a: nat, b: nat)
    requires |tail| <= 512
    ensures ParseTailOf(tail) == Some((a, b)) <==>
            exists second, after ::
              TailNumber(second) == Some((b, after)) && Ascii("SCAR-TAIL\n") <= tail
              && TailNumber(tail[10..]) == Some((a, second))
  {
    hide TailNumber, Ascii;
    SectionNames();
  }

  /** Only the last 512 bytes of a file decide where its tail is found. */
  lemma OnlyTheEndCounts(front: bytes, file: bytes)
    requires |file| >= 512
    ensures Open(front + file) == Open(file)
  {
    hide ScanForTail;
    assert EndBlock(front + file) == EndBlock(file);
  }

  /** A file that is opened ends with the end marker. */
  lemma OnlyMarkedOpens(file: bytes)
    requires Open(file).Some?
    ensures exists front: bytes :: file == front + Ascii("SCAR-EOF\n")
  {
    hide ScanForTail, Ascii;
    CNames();
    var n := |file| - |EOF_MARKER|;
    assert file == file[..n] + EOF_MARKER;
  }

  /** Of everything there that is a tail, the last one is taken. */
  lemma LastTailTaken(block: bytes, i: nat)
    requires IsTail(block, i)
    requires forall j | i < j < |block| :: !IsTail(block, j)
    ensures ScanForTail(block) == ParseTailOf(block[i..])
  {
    hide ParseTailOf;
    TakenBelow(block, i, |block| - |TAIL_HEADER| + 1);
  }

  lemma {:induction false} TakenBelow(block: bytes, i: nat, n: nat)
    requires i < n <= |block| && IsTail(block, i) && forall j | i < j < |block| :: !IsTail(block, j)
    ensures TailBelow(block, n) == ParseTailOf(block[i..])
    decreases n
  {
    hide IsTail, ParseTailOf;
    if n - 1 > i {
      TakenBelow(block, i, n - 1);
    }
  }

  /** No section is read that does not start with its name. */
  lemma OnlyNamedCIndex(s: bytes)
    requires Iterate(s).Some?
    ensures Ascii("SCAR-INDEX\n") <= s
  {
    hide Items, Ascii;
    SectionNames();
  }

  lemma OnlyNamedCTable(s: bytes)
    requires Load(s).Some?
    ensures UpToNul(LineOf(s, 64).0) == Ascii("SCAR-CHECKPOINTS")
  {
    hide LoadLines, LineOf, UpToNul, Ascii;
    CNames();
  }

  // ---------------------------------------------------------------- lines and signed numbers

  predicate AllLineEnds(s: bytes) {
    forall i | 0 <= i < |s| :: s[i] == '\n' as byte || s[i] == '\r' as byte
  }

  predicate NoLineEnds(s: bytes) {
    forall i | 0 <= i < |s| :: s[i] != '\n' as byte && s[i] != '\r' as byte
  }

  lemma {:induction false} SkipsAllEnds(ends: bytes, rest: bytes)
    requires AllLineEnds(ends) && NoLineEnds(rest[..if rest == [] then 0 else 1])
    ensures SkipLineEnds(ends + rest) == rest
  {
    if ends == [] {
      assert ends + rest == rest;
      assert rest != [] ==> rest[..1][0] == rest[0];
    } else {
      assert (ends + rest)[1..] == ends[1..] + rest;
      SkipsAllEnds(ends[1..], rest);
    }
  }

  /** Every input splits into a line, the line ends behind it, and the rest. Up to `n + 1` bytes of a line are
      delivered; of a longer one, what follows is left over like a line of its own. */
  lemma LineSplits(line: bytes, ends: bytes, rest: bytes, n: nat)
    requires NoLineEnds(line) && AllLineEnds(ends) && NoLineEnds(rest[..if rest == [] then 0 else 1])
    requires |line| <= n + 1 && (ends != [] || rest == [] || |line| == n + 1)
    ensures LineOf(line + ends + rest, n) == (line, rest)
  {
    hide LineRun, SkipLineEnds;
    var s := line + ends + rest;
    assert s == line + (ends + rest);
    LineRunStops(line, ends + rest, n + 1);
    assert s[..|line|] == line && s[|line|..] == ends + rest;
    SkipsAllEnds(ends, rest);
  }

  lemma {:induction false} LineRunStops(line: bytes, rest: bytes, most: nat)
    requires NoLineEnds(line) && |line| <= most
    requires rest == [] || EndsLine(rest[0]) || |line| == most
    ensures LineRun(line + rest, most) == |line|
  {
    if line == [] {
      assert line + rest == rest;
    } else {
      assert (line + rest)[1..] == line[1..] + rest;
      LineRunStops(line[1..], rest, most - 1);
    }
  }

  predicate AllBlank(s: bytes) {
    forall i | 0 <= i < |s| :: s[i] == ' ' as byte || 9 <= s[i] <= 13
  }

  lemma {:induction false} SkipsAllBlanks(blanks: bytes, u: bytes)
    requires AllBlank(blanks)
    requires u == [] || !IsBlank(u[0])
    ensures SkipBlanks(blanks + u) == u
  {
    if blanks == [] {
      assert blanks + u == u;
    } else {
      assert (blanks + u)[1..] == blanks[1..] + u;
      SkipsAllBlanks(blanks[1..], u);
    }
  }

  /** `strtoll` takes blanks, a sign and digits, and stays at the bounds of a signed 64-bit number. */
  lemma CReadsOffset(blanks: bytes, sign: bytes, d: bytes)
    requires AllBlank(blanks)
    requires (sign == [] || sign == ['-' as byte] || sign == ['+' as byte]) && IsNumeral(d) && d != []
    ensures var v: int := if sign == ['-' as byte] then 0 - Value(d) else Value(d);
            StrToLL(blanks + (sign + d)) ==
            Some(if v < -0x8000_0000_0000_0000 then -0x8000_0000_0000_0000
                 else if v > 0x7FFF_FFFF_FFFF_FFFF then 0x7FFF_FFFF_FFFF_FFFF
                 else v)
  {
    hide Value, DigitRun, SkipBlanks;
    var u := sign + d;
    assert u[0] == if sign == [] then d[0] else sign[0];
    assert IsDigit(d[0]);
    SkipsAllBlanks(blanks, u);
    assert sign == [] ==> u == d;
    assert sign != [] ==> u[1..] == d;
    DigitRunIs(d, |d|);
  }

  lemma {:induction false} BlanksShape(t: bytes) returns (blanks: bytes)
    ensures t == blanks + SkipBlanks(t) && AllBlank(blanks)
    ensures SkipBlanks(t) == [] || !IsBlank(SkipBlanks(t)[0])
  {
    if t == [] || !IsBlank(t[0]) {
      blanks := [];
    } else {
      var more := BlanksShape(t[1..]);
      blanks := [t[0]] + more;
      OneMoreBlank(t, more);
    }
  }

  lemma OneMoreBlank(t: bytes, more: bytes)
    requires t != [] && IsBlank(t[0]) && AllBlank(more) && t[1..] == more + SkipBlanks(t[1..])
    ensures t == [t[0]] + more + SkipBlanks(t) && AllBlank([t[0]] + more)
  {
    var u := SkipBlanks(t[1..]);
    hide SkipBlanks;
    assert SkipBlanks(t) == u by { SkipOne(t); }
    assert t == [t[0]] + t[1..];
    assert [t[0]] + (more + u) == [t[0]] + more + u;
  }

  lemma SkipOne(t: bytes)
    requires t != [] && IsBlank(t[0])
    ensures SkipBlanks(t) == SkipBlanks(t[1..])
  {
  }

  /** Nothing else is taken for an offset, but for the empty text, which is 0. */
  lemma OnlyOffsetsRead(t: bytes) returns (blanks: bytes, sign: bytes, d: bytes)
    requires StrToLL(t).Some? && t != []
    ensures t == blanks + (sign + d) && AllBlank(blanks)
    ensures (sign == [] || sign == ['-' as byte] || sign == ['+' as byte]) && IsNumeral(d) && d != []
  {
    hide Value, DigitRun, SkipBlanks;
    blanks := BlanksShape(t);
    var u := SkipBlanks(t);
    var signed := u != [] && (u[0] == MINUS || u[0] == PLUS);
    sign, d := if signed then [u[0]] else [], if signed then u[1..] else u;
    assert u == sign + d;
  }

  /** A line of the table, up to a NUL, is two offsets with a space between; it is the first space that counts. */
  lemma CReadsTableLine(a: bytes, b: bytes, after: bytes)
    requires ' ' as byte !in a && NUL !in a && NUL !in b && (after == [] || after[0] == NUL)
    ensures ParseLine(a + [' ' as byte] + b + after) ==
            if StrToLL(a).Some? && StrToLL(b).Some? then Some(CCheckpoint(StrToLL(a).value, StrToLL(b).value)) else None
    ensures ParseLine(a + after) == None
  {
    hide StrToLL, UpToNul, SpaceAt;
    var t := a + [SPACE] + b;
    UpToNulPrefix(t, after);
    UpToNulPrefix(a, after);
    UpToNulWhole(t);
    UpToNulWhole(a);
    FirstSpace(a, [SPACE] + b);
    FirstSpace(a, []);
    assert a + ([SPACE] + b) == t && a + [] == a;
    assert t[..|a|] == a && t[|a| + 1..] == b;
  }

  lemma {:induction false} FirstSpace(a: bytes, tail: bytes)
    requires SPACE !in a && (tail == [] || tail[0] == SPACE)
    ensures SpaceAt(a + tail) == |a|
  {
    if a == [] {
      assert a + tail == tail;
    } else {
      assert (a + tail)[1..] == a[1..] + tail;
      FirstSpace(a[1..], tail);
    }
  }

  // ---------------------------------------------------------------- the file

  /** The whole file of a run, section by section. */
  lemma FileIs(entries: seq<Entry>)
    ensures var s := Run(entries); var a := |TarOf(entries)| + 1024; var b := a + 11 + |IndexText(entries)|;
            FinishedFile(s) ==
            TarOf(entries) + Zeros(1024)
            + (Ascii("SCAR-INDEX\n") + IndexText(entries))
            + (Ascii("SCAR-CHECKPOINTS\n") + CheckpointsText(s.table))
            + (Ascii("SCAR-TAIL\n") + Digits(a) + ['\n' as byte] + Digits(b) + ['\n' as byte])
            + Ascii("SCAR-EOF\n")
  {
    hide TarOf, IndexText, CheckpointsText, Digits, Run, Ascii;
    RunInvariant(entries);
    SectionNames();
    CNames();
  }
}
