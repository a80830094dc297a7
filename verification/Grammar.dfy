/** Exactly which texts the Rust readers accept, written out character by character
    (scar-rs/scar/src/pax.rs, scar-rs/scar/src/read.rs). */
module Grammar {
  import opened Bytes
  import opened Decimal
  import opened PaxRecords
  import opened PaxHeader
  import opened Sections
  import opened Codec
  import opened Resolution

  /** The names of the records, as POSIX spells them. */
  lemma KeyNames()
    ensures KeyText(Atime) == Ascii("atime") && KeyText(Charset) == Ascii("charset")
    ensures KeyText(Comment) == Ascii("comment") && KeyText(Gid) == Ascii("gid")
    ensures KeyText(Gname) == Ascii("gname") && KeyText(Hdrcharset) == Ascii("hdrcharset")
    ensures KeyText(Linkpath) == Ascii("linkpath") && KeyText(Mtime) == Ascii("mtime")
    ensures KeyText(Path) == Ascii("path") && KeyText(Size) == Ascii("size")
    ensures KeyText(Uid) == Ascii("uid") && KeyText(Uname) == Ascii("uname")
  {
  }

  /** A record with any other name is skipped. */
  lemma OtherNamesSkipped(m: PaxMeta, name: bytes, value: bytes)
    requires forall k: Key :: name != KeyText(k)
    ensures Apply(m, name, value) == Ok(m)
  {
    hide KeyOf, KeyText, Assign;
    if KeyOf(name).Some? {
      KeyOfIs(name);
    }
  }

  lemma SectionNames()
    ensures INDEX_HEADER == Ascii("SCAR-INDEX\n")
    ensures CHECKPOINTS_HEADER == Ascii("SCAR-CHECKPOINTS\n")
    ensures TAIL_HEADER == Ascii("SCAR-TAIL\n")
    ensures PLAIN.eofMarker == Ascii("SCAR-EOF\n")
  {
  }

  // ---------------------------------------------------------------- numbers

  /** Digits in front of something else, and what they are worth. */
  lemma NumberAt(d: bytes, sep: byte, t: bytes)
    requires IsNumeral(d) && !IsDigit(sep)
    ensures var s := d + [sep] + t;
            && DigitRun(s) == |d| && s[|d|] == sep && s[..|d|] == d && s[|d| + 1..] == t && s[|d|..] == [sep] + t
            && ReadNum(s) == Wrap(Value(d))
  {
    hide Wrap, Value, Accumulate, DigitRun;
    PartsAt(d, sep, t);
    DigitRunPrefix(d, [sep] + t);
    AccumulateMeans(d);
  }

  lemma PartsAt(d: bytes, sep: byte, t: bytes)
    ensures var s := d + [sep] + t; var n := |d|;
            s == d + ([sep] + t) && s[n] == sep && s[..n] == d && s[n + 1..] == t && s[n..] == [sep] + t
  {
  }

  /** `str::parse::<u64>` takes an optional plus sign and digits whose value fits, and nothing else. */
  lemma U64Exactly(s: bytes, n: u64)
    ensures ParseU64(s) == Some(n) <==>
            exists d :: IsNumeral(d) && d != [] && (s == d || s == ['+' as byte] + d) && Value(d) == n
  {
    hide Value, DigitRun;
    if ParseU64(s) == Some(n) {
      var d := if s != [] && s[0] == PLUS then s[1..] else s;
      assert s == d || s == ['+' as byte] + d;
    }
    if d :| IsNumeral(d) && d != [] && (s == d || s == ['+' as byte] + d) && Value(d) == n {
      DigitRunIs(d, |d|);
      assert IsDigit(d[0]);
      assert s != d ==> s[1..] == d;
    }
  }

  /** An optional sign, digits, and an optional point with more digits behind it; at least one digit. */
  predicate TimeForm(s: bytes, sign: bytes, whole: bytes, point: bool, fraction: bytes) {
    && (sign == [] || sign == ['-' as byte] || sign == ['+' as byte])
    && IsNumeral(whole) && IsNumeral(fraction) && (whole != [] || fraction != []) && (!point ==> fraction == [])
    && s == sign + (whole + Pointed(point, fraction))
  }

  function Pointed(point: bool, fraction: bytes): bytes {
    if point then ['.' as byte] + fraction else []
  }

  /** A text of that form is a time: its sign, its whole seconds, and its fraction without trailing zeros. */
  lemma ReadsTime(s: bytes, sign: bytes, whole: bytes, point: bool, fraction: bytes)
    requires TimeForm(s, sign, whole, point, fraction)
    ensures ParseTime(s) == Some(Time(sign == ['-' as byte], Value(whole), TrimZeros(fraction)))
  {
    hide Value, DigitRun, ParseUnsignedTime;
    var t := whole + Pointed(point, fraction);
    UnsignedForm(sign == [MINUS], whole, point, fraction);
    assert sign == [] ==> s == t;
    assert sign != [] ==> s[1..] == t;
    assert t != [] && t[0] != MINUS && t[0] != PLUS by {
      assert t[0] == if whole == [] then DOT else whole[0];
    }
  }

  lemma UnsignedForm(negative: bool, whole: bytes, point: bool, fraction: bytes)
    requires IsNumeral(whole) && IsNumeral(fraction) && (whole != [] || fraction != []) && (!point ==> fraction == [])
    ensures ParseUnsignedTime(negative, whole + Pointed(point, fraction)) ==
            Some(Time(negative, Value(whole), TrimZeros(fraction)))
  {
    hide Value, DigitRun, TrimZeros, Pointed;
    PointedParts(whole, point, fraction);
    DigitRunPrefix(whole, Pointed(point, fraction));
    DigitRunIs(fraction, |fraction|);
  }

  lemma PointedParts(whole: bytes, point: bool, fraction: bytes)
    requires !point ==> fraction == []
    ensures var p := Pointed(point, fraction); var t := whole + p; var n := |whole|;
            && t[..n] == whole && (n < |t| <==> point) && (p == [] || !IsDigit(p[0]))
            && (point ==> t[n] == DOT && t[n + 1..] == fraction)
  {
  }

  /** Nothing else is read as a time. */
  lemma OnlyTimesRead(s: bytes) returns (sign: bytes, whole: bytes, point: bool, fraction: bytes)
    requires ParseTime(s).Some?
    ensures TimeForm(s, sign, whole, point, fraction)
  {
    hide Value, DigitRun, TrimZeros, ParseUnsignedTime, Pointed;
    var signed := s != [] && (s[0] == MINUS || s[0] == PLUS);
    sign := if signed then [s[0]] else [];
    var t := if signed then s[1..] else s;
    whole, point, fraction := UnsignedShape(s != [] && s[0] == MINUS, t);
    assert s == sign + t;
  }

  lemma UnsignedShape(negative: bool, t: bytes) returns (whole: bytes, point: bool, fraction: bytes)
    requires ParseUnsignedTime(negative, t).Some?
    ensures IsNumeral(whole) && IsNumeral(fraction) && (whole != [] || fraction != []) && (!point ==> fraction == [])
    ensures t == whole + Pointed(point, fraction)
  {
    hide Value, DigitRun, TrimZeros;
    var n := DigitRun(t);
    whole, point := t[..n], n < |t|;
    fraction := if point then t[n + 1..] else [];
    if point {
      CutAt(t, n);
      assert whole + ([DOT] + fraction) == whole + [DOT] + fraction;
    }
  }

  /** The zeros at the end of a fraction are left out, and nothing else. */
  lemma {:induction false} TrimmedZeros(s: bytes)
    ensures forall i | |TrimZeros(s)| <= i < |s| :: s[i] == '0' as byte
  {
    if s != [] && s[|s| - 1] == DIGIT_0 {
      TrimmedZeros(s[..|s| - 1]);
    }
  }

  // ---------------------------------------------------------------- pax records

  /** A record in its parts: its length, its key, its value, and what follows it. */
  predicate RecordForm(s: bytes, d: bytes, key: bytes, value: bytes, rest: bytes) {
    && IsNumeral(d) && '=' as byte !in key
    && s == d + [' ' as byte] + (key + ['=' as byte] + value + ['\n' as byte] + rest)
  }

  /** Whatever is read as a record has that form, and a value of less than 16384 bytes. */
  lemma OnlyRecordsRead(s: bytes) returns (d: bytes)
    requires ReadRecord(s).Field?
    ensures var r := ReadRecord(s); RecordForm(s, d, r.key, r.value, r.rest) && |r.value| < 16384
  {
    hide IndexOf, DigitRun, ReadNum, Remaining;
    var t;
    d, t := ReadRecordShape(s);
    ReadRecordSplit(d, t);
    BodyShape(Remaining(Accumulate(0, d), |d|), t);
  }

  lemma BodyShape(remaining: int, t: bytes)
    requires ReadBody(remaining, t).Field?
    ensures var r := ReadBody(remaining, t);
            && EQUALS !in r.key && |r.value| < 16384 && remaining == |r.key| + |r.value| + 2
            && t == r.key + [EQUALS] + r.value + [LINE_FEED] + r.rest
  {
    hide IndexOf;
    var e := IndexOf(t, EQUALS);
    var left := remaining - e - 1;
    var v := t[e + 1..];
    assert t == t[..e] + [EQUALS] + v;
    assert v == v[..left - 1] + [LINE_FEED] + v[left..];
    assert EQUALS !in t[..e];
  }

  /** A text of that form is a record exactly when its length counts it whole, and its value is that short. */
  lemma ReadsRecordExactly(s: bytes, d: bytes, key: bytes, value: bytes, rest: bytes)
    requires RecordForm(s, d, key, value, rest) && Value(d) < 0x8000_0000_0000_0000 && |s| < 0x8000_0000_0000_0000
    ensures ReadRecord(s) == Field(key, value, rest) <==> Value(d) == |s| - |rest| && |value| < 16384
  {
    hide ReadRecord, ReadBody, Value, Wrap, Remaining;
    FormLength(s, d, key, value, rest);
    var t := key + [EQUALS] + value + [LINE_FEED] + rest;
    ReadRecordSplit(d, t);
    AccumulateMeans(d);
    WrapSmall(Value(d));
    if ReadRecord(s) == Field(key, value, rest) {
      BodyShape(Remaining(Value(d), |d|), t);
      RemainingIs(Value(d), |d|, |key| + |value| + 2);
    } else if Value(d) == |s| - |rest| && |value| < 16384 {
      RemainingExact(Value(d), |d|);
      ReadBodyText(key, value, rest);
    }
  }

  lemma FormLength(s: bytes, d: bytes, key: bytes, value: bytes, rest: bytes)
    requires RecordForm(s, d, key, value, rest)
    ensures |s| - |rest| == |d| + |key| + |value| + 3
  {
  }

  lemma RemainingIs(length: u64, n: nat, left: nat)
    requires length < TWO_TO_63 && n < TWO_TO_63 && Remaining(length, n) == left
    ensures length == left + n + 1
  {
  }

  /** A record is printed in that form, and its length counts it whole. */
  lemma RecordPrints(r: Record)
    ensures RecordForm(RecordText(r), Digits(|RecordText(r)|), KeyText(r.key), r.value, [])
  {
    hide Digits, SelfLength, RecordText, KeyText;
    var d, body := Digits(|RecordText(r)|), KeyText(r.key) + [EQUALS] + r.value + [LINE_FEED];
    RecordTextLength(r);
    RecordTextShape(r, body, []);
    KeyRoundTrip(r.key);
    assert RecordText(r) + [] == RecordText(r);
  }

  function Printed(m: PaxMeta, key: Key): bytes {
    RecordsText(RecOf(key, m))
  }

  /** The records of a header are printed in the alphabetical order of their keys. */
  lemma PrintsInOrder(m: PaxMeta)
    ensures Stringify(m) ==
            Printed(m, Atime) + Printed(m, Charset) + Printed(m, Comment) + Printed(m, Gid) + Printed(m, Gname) +
            Printed(m, Hdrcharset) + Printed(m, Linkpath) + Printed(m, Mtime) + Printed(m, Path) + Printed(m, Size) +
            Printed(m, Uid) + Printed(m, Uname)
  {
    hide RecordsText, RecOf;
    var r1 := RecOf(Atime, m) + RecOf(Charset, m);
    RecordsTextAppend(RecOf(Atime, m), RecOf(Charset, m));
    RecordsTextAppend(r1, RecOf(Comment, m));
    var r2 := r1 + RecOf(Comment, m);
    RecordsTextAppend(r2, RecOf(Gid, m));
    var r3 := r2 + RecOf(Gid, m);
    RecordsTextAppend(r3, RecOf(Gname, m));
    var r4 := r3 + RecOf(Gname, m);
    RecordsTextAppend(r4, RecOf(Hdrcharset, m));
    var r5 := r4 + RecOf(Hdrcharset, m);
    RecordsTextAppend(r5, RecOf(Linkpath, m));
    var r6 := r5 + RecOf(Linkpath, m);
    RecordsTextAppend(r6, RecOf(Mtime, m));
    var r7 := r6 + RecOf(Mtime, m);
    RecordsTextAppend(r7, RecOf(Path, m));
    var r8 := r7 + RecOf(Path, m);
    RecordsTextAppend(r8, RecOf(Size, m));
    var r9 := r8 + RecOf(Size, m);
    RecordsTextAppend(r9, RecOf(Uid, m));
    RecordsTextAppend(r9 + RecOf(Uid, m), RecOf(Uname, m));
  }

  /** Only digits to the end of the input, or nothing at all, end the records. */
  lemma RecordsEndExactly(s: bytes)
    ensures ReadRecord(s) == End <==> IsNumeral(s)
  {
    if IsNumeral(s) {
      OnlyDigitsEnd(s);
    }
  }

  // ---------------------------------------------------------------- the index

  /** An entry of the index in its parts: its length, its type, its offset, its path, and what follows it. */
  predicate EntryForm(s: bytes, d: bytes, ch: byte, offset: bytes, path: bytes, rest: bytes) {
    && IsNumeral(d) && IsNumeral(offset)
    && s == d + [' ' as byte] + ([ch, ' ' as byte] + (offset + [' ' as byte] + (path + ['\n' as byte] + rest)))
  }

  /** Whatever is read as an entry has that form, and its item names the parts. */
  lemma OnlyEntriesRead(s: bytes) returns (d: bytes, ch: byte, offset: bytes)
    requires NextItem(s).Item?
    ensures var r := NextItem(s);
            && EntryForm(s, d, ch, offset, r.item.path, r.rest) && ch != 'g' as byte
            && HasType(r.item.typeflag, ch) && r.item.offset == Wrap(Value(offset)) && r.item.globalMeta == EMPTY
  {
    hide ReadNum, Value, Wrap, DigitRun, ItemPath, TypeOf;
    var n := DigitRun(s);
    var t := s[n..];
    d, ch := s[..n], t[1];
    offset := PathShape(ch, ReadNum(s), n, t[3..]);
    assert t == [SPACE] + ([ch, SPACE] + t[3..]);
    assert s == d + t;
    TypeIs(ch);
  }

  lemma TypeIs(ch: byte)
    ensures HasType(TypeOf(ch), ch)
  {
  }

  lemma PathShape(ch: byte, length: nat, lengthDigits: nat, u: bytes) returns (offset: bytes)
    requires ItemPath(ch, length, lengthDigits, u).Item?
    ensures var r := ItemPath(ch, length, lengthDigits, u);
            && ch != PAX_GLOBAL && IsNumeral(offset)
            && u == offset + [SPACE] + (r.item.path + [LINE_FEED] + r.rest)
            && r.item.typeflag == TypeOf(ch) && r.item.offset == Wrap(Value(offset)) && r.item.globalMeta == EMPTY
  {
    hide ReadNum, Value, Wrap, DigitRun, TypeOf;
    var m := DigitRun(u);
    offset := u[..m];
    var w := u[m + 1..];
    var r := ItemPath(ch, length, lengthDigits, u);
    CutAt(w, |r.item.path|);
    CutAt(u, m);
    NumberAt(offset, SPACE, w);
  }

  lemma CutAt(s: bytes, n: nat)
    requires n < |s|
    ensures s == s[..n] + [s[n]] + s[n + 1..]
  {
  }

  lemma EntryLength(s: bytes, d: bytes, ch: byte, offset: bytes, path: bytes, rest: bytes)
    requires EntryForm(s, d, ch, offset, path, rest)
    ensures |s| - |rest| == |d| + |offset| + |path| + 5
  {
  }

  /** A text of that form is an entry exactly when its length counts it whole and is at most 16384. */
  lemma ReadsEntryExactly(s: bytes, d: bytes, ch: byte, offset: bytes, path: bytes, rest: bytes)
    requires EntryForm(s, d, ch, offset, path, rest) && ch != 'g' as byte
    requires Value(d) < TWO_TO_64 && Value(offset) < TWO_TO_64
    ensures NextItem(s) == Item(IndexItem(path, TypeOf(ch), Value(offset), EMPTY), rest) <==>
            Value(d) == |s| - |rest| && Value(d) <= 16384
  {
    hide Value, DigitRun, ReadNum, TypeOf, ItemPath;
    EntryLength(s, d, ch, offset, path, rest);
    var w := path + [LINE_FEED] + rest;
    var u := offset + [SPACE] + w;
    var t := [ch, SPACE] + u;
    NumberAt(d, SPACE, t);
    WrapSmall(Value(d));
    NotTheNextHeader(d, SPACE, t);
    assert ([SPACE] + t)[3..] == u;
    PathExactly(ch, Value(d), |d|, offset, path, rest);
  }

  lemma NotTheNextHeader(d: bytes, sep: byte, t: bytes)
    requires IsNumeral(d) && sep != CHECKPOINTS_HEADER[0]
    ensures d + [sep] + t != [] && !(CHECKPOINTS_HEADER <= d + [sep] + t)
  {
    assert (d + [sep] + t)[0] == if d == [] then sep else d[0];
  }

  lemma PathExactly(ch: byte, length: nat, lengthDigits: nat, offset: bytes, path: bytes, rest: bytes)
    requires IsNumeral(offset) && ch != PAX_GLOBAL && Value(offset) < TWO_TO_64
    ensures ItemPath(ch, length, lengthDigits, offset + [SPACE] + (path + [LINE_FEED] + rest)) ==
            Item(IndexItem(path, TypeOf(ch), Value(offset), EMPTY), rest) <==>
            length == lengthDigits + 3 + |offset| + 2 + |path|
  {
    hide Value, DigitRun, ReadNum, TypeOf;
    var w := path + [LINE_FEED] + rest;
    NumberAt(offset, SPACE, w);
    WrapSmall(Value(offset));
    DataThenFeed(path, rest);
  }

  /** The index ends exactly at the end of the input or where the name of the next section stands. */
  lemma IndexEndsExactly(s: bytes)
    ensures NextItem(s) == NoMore <==> s == [] || Ascii("SCAR-CHECKPOINTS\n") <= s
  {
    hide ReadNum, DigitRun, Ascii;
    SectionNames();
  }

  /** No section is read that does not start with its name. */
  lemma OnlyNamedIndex(s: bytes)
    requires ReadIndex(s).Some?
    ensures Ascii("SCAR-INDEX\n") <= s
  {
    hide ReadItems, FirstLine, Ascii;
    SectionNames();
    assert FirstLine(s) <= s;
  }

  lemma OnlyNamedTable(s: bytes)
    requires ReadCheckpoints(s).Some?
    ensures Ascii("SCAR-CHECKPOINTS\n") <= s
  {
    hide ReadCheckpointList, FirstLine, Ascii;
    SectionNames();
    assert FirstLine(s) <= s;
  }

  // ---------------------------------------------------------------- the checkpoint table and the tail

  /** A line of the table is two numbers with a space between, and nothing else is read as one. */
  lemma ReadsCheckpointExactly(s: bytes, c: Checkpoint, rest: bytes)
    ensures ReadCheckpoint(s) == Some((c, rest)) <==>
            exists a, b :: IsNumeral(a) && IsNumeral(b) && s == a + [' ' as byte] + (b + ['\n' as byte] + rest) &&
                           c == Checkpoint(Wrap(Value(a)), Wrap(Value(b)))
  {
    hide Value, DigitRun, ReadNum, Wrap;
    if ReadCheckpoint(s) == Some((c, rest)) {
      var n := DigitRun(s);
      var t := s[n + 1..];
      var m := DigitRun(t);
      var a, b := s[..n], t[..m];
      assert t == b + [LINE_FEED] + rest;
      assert s == a + [SPACE] + t;
      NumberAt(a, SPACE, t);
      NumberAt(b, LINE_FEED, rest);
    }
    if a, b :| IsNumeral(a) && IsNumeral(b) && s == a + [SPACE] + (b + [LINE_FEED] + rest) &&
               c == Checkpoint(Wrap(Value(a)), Wrap(Value(b))) {
      NumberAt(a, SPACE, b + [LINE_FEED] + rest);
      NumberAt(b, LINE_FEED, rest);
    }
  }

  /** The last character of a line is dropped, whatever it is: only the last line of the input can end with
      something else than a line feed. */
  predicate LineForm(s: bytes, text: bytes, rest: bytes) {
    && |s| == |text| + 1 + |rest| && text <= s && s[|text| + 1..] == rest && '\n' as byte !in text
    && (s[|text|] == '\n' as byte || rest == [])
  }

  lemma ReadsLineExactly(s: bytes, n: u64, rest: bytes)
    ensures ReadNumberLine(s) == Some((n, rest)) <==>
            exists text :: LineForm(s, text, rest) && ParseU64(text) == Some(n)
  {
    hide ParseU64, FirstLine, LineForm;
    if ReadNumberLine(s) == Some((n, rest)) {
      FirstLineForm(s);
    }
    if text :| LineForm(s, text, rest) && ParseU64(text) == Some(n) {
      LineFormFirst(s, text, rest);
    }
  }

  lemma FirstLineForm(s: bytes)
    requires FirstLine(s) != []
    ensures var line := FirstLine(s); LineForm(s, line[..|line| - 1], s[|line|..])
  {
    hide LineEnd;
  }

  lemma LineFormFirst(s: bytes, text: bytes, rest: bytes)
    requires LineForm(s, text, rest)
    ensures var line := FirstLine(s); |line| == |text| + 1 && line[..|text|] == text && s[|line|..] == rest
  {
    hide LineEnd;
    assert forall i | 0 <= i < |text| :: text[i] == s[i];
    if s[|text|] == LINE_FEED {
      LineEndUnique(s, |text|);
    }
  }

  /** The tail is its name and two such lines. */
  lemma ReadsTailExactly(s: bytes, a: u64, b: u64)
    ensures ReadTail(s) == Some((a, b)) <==>
            exists second, after ::
              ReadNumberLine(second) == Some((b, after)) && Ascii("SCAR-TAIL\n") <= s
              && ReadNumberLine(s[10..]) == Some((a, second))
  {
    hide ReadNumberLine, FirstLine;
    SectionNames();
    if TAIL_HEADER <= s {
      HeaderLine(TAIL_HEADER, 9, s[10..]);
      assert TAIL_HEADER + s[10..] == s;
    }
    if FirstLine(s) == TAIL_HEADER {
      assert FirstLine(s) <= s;
    }
  }
}
