/** The C parser of pax extended headers: what it accepts, and how much of its reader it takes
    (scar-c/src/pax-syntax.c, scar-c/src/pax.c). */
module CPaxSyntax {
  import opened Bytes
  import opened Decimal
  import opened PaxRecords
  import opened CStream

  /** A metadata field that has been set. Times are kept as the text they were parsed from. */
  datatype CValue = Text(s: bytes) | Number(n: u64) | Seconds(text: bytes)

  type CMeta = map<Key, CValue>

  // ---------------------------------------------------------------- what the parser accepts

  const MAX_NAME: nat := 62

  datatype CRecord = Malformed | CField(name: bytes, value: bytes, rest: bytes)

  /** One record. The size is an unsigned 64-bit number that wraps around, in reading and when the
      lengths of its own digits and of the name are taken off. */
  function CReadRecord(s: bytes): (r: CRecord)
    ensures r.CField? ==> |r.rest| < |s|
  {
    var n := DigitRun(s);
    if n == |s| || s[n] != SPACE then Malformed
    else CReadName(Wrap(ReadNum(s) - (n + 3)), s[n + 1..])
  }

  /** A name longer than 62 bytes, or one that uses up the size, is refused. */
  function CReadName(fieldSize: u64, t: bytes): (r: CRecord)
    ensures r.CField? ==> |r.rest| < |t|
  {
    var e := IndexOf(t, EQUALS);
    if e == |t| || e > MAX_NAME || 1 <= fieldSize <= e then Malformed
    else CReadValue(t[..e], Wrap(fieldSize - e), t[e + 1..])
  }

  function CReadValue(name: bytes, fieldSize: nat, v: bytes): (r: CRecord)
    ensures r.CField? ==> |r.rest| < |v|
  {
    if |v| <= fieldSize || v[fieldSize] != LINE_FEED then Malformed
    else CField(name, v[..fieldSize], v[fieldSize + 1..])
  }

  predicate TimeOk(v: bytes) {
    var w := if v != [] && (v[0] == MINUS || v[0] == PLUS) then v[1..] else v;
    FractionOk(w)
  }

  /** Only what follows the first point has to be digits. */
  predicate FractionOk(w: bytes) {
    forall i | IndexOf(w, DOT) < i < |w| :: IsDigit(w[i])
  }

  /** Names and strings are C strings: they end at a NUL. */
  function CAssign(m: CMeta, name: bytes, value: bytes): Option<CMeta> {
    match KeyOf(UpToNul(name))
    case None => Some(m)
    case Some(k) =>
      if k.Atime? || k.Mtime? then
        (if TimeOk(value) then Some(m[k := Seconds(value)]) else None)
      else if k.Gid? || k.Size? || k.Uid? then
        (if DigitRun(value) == |value| then Some(m[k := Number(Accumulate(0, value))]) else None)
      else Some(m[k := Text(UpToNul(value))])
  }

  function CParseOne(m: CMeta, s: bytes): (r: Option<(CMeta, bytes)>)
    ensures r.Some? ==> |r.value.1| < |s|
  {
    Assigned(m, CReadRecord(s))
  }

  function Assigned(m: CMeta, record: CRecord): Option<(CMeta, bytes)> {
    match record
    case Malformed => None
    case CField(name, value, rest) =>
      match CAssign(m, name, value)
      case None => None
      case Some(m') => Some((m', rest))
  }

  function CParse(m: CMeta, s: bytes): Option<CMeta>
    decreases |s|
  {
    if s == [] then Some(m)
    else match CParseOne(m, s)
      case None => None
      case Some((m', rest)) => CParse(m', rest)
  }

  // ---------------------------------------------------------------- what both writers print is accepted

  lemma NumeralDigits(d: bytes)
    requires IsNumeral(d)
    ensures forall i | 0 <= i < |d| :: IsDigit(d[i])
  {
  }

  lemma CReadRecordSplit(d: bytes, t: bytes)
    requires IsNumeral(d)
    ensures CReadRecord(d + [SPACE] + t) == CReadName(Wrap(Accumulate(0, d) - (|d| + 3)), t)
  {
    hide CReadName, DigitRun, Accumulate, ReadNum, Wrap, IsNumeral;
    var s := d + [SPACE] + t;
    assert forall i | 0 <= i < |d| :: IsDigit(d[i]) by { NumeralDigits(d); }
    NumberThenSpace(d, t);
    assert CReadRecord(s) == CReadName(Wrap(ReadNum(s) - (|d| + 3)), t);
  }

  lemma CReadNameText(name: bytes, value: bytes, rest: bytes)
    requires EQUALS !in name && 0 < |name| <= MAX_NAME && |name| + |value| < TWO_TO_63
    ensures CReadName(|name| + |value|, name + [EQUALS] + (value + [LINE_FEED] + rest)) ==
            if value == [] then Malformed else CField(name, value, rest)
  {
    hide IndexOf;
    var v := value + [LINE_FEED] + rest;
    var t := name + [EQUALS] + v;
    IndexOfPrefix(name, EQUALS, v);
    assert t[..|name|] == name && t[|name| + 1..] == v;
    assert v[|value|] == LINE_FEED && v[..|value|] == value && v[|value| + 1..] == rest;
  }

  /** A printed record is read back, exactly when its value is not empty. */
  lemma CReadRecordText(r: Record, rest: bytes)
    requires |RecordText(r)| < TWO_TO_63
    ensures CReadRecord(RecordText(r) + rest) ==
            if r.value == [] then Malformed else CField(KeyText(r.key), r.value, rest)
  {
    hide CReadRecord, CReadName, Digits, Accumulate, SelfLength, RecordText;
    var key := KeyText(r.key);
    var length := SelfLength(|key| + |r.value| + 3);
    RecordTextLength(r);
    SelfLengthExact(|key| + |r.value| + 3);
    KeyRoundTrip(r.key);
    var body := key + [EQUALS] + r.value + [LINE_FEED];
    RecordTextShape(r, body, rest);
    CReadRecordSplit(Digits(length), body + rest);
    AccumulateDigits(length);
    assert body + rest == key + [EQUALS] + (r.value + [LINE_FEED] + rest);
    CReadNameText(key, r.value, rest);
  }

  /** What a record sets. */
  function CAssignRecord(m: CMeta, r: Record): Option<CMeta> {
    CAssign(m, KeyText(r.key), r.value)
  }

  function CAssignAll(m: CMeta, rs: seq<Record>): Option<CMeta>
    decreases rs
  {
    if rs == [] then Some(m)
    else match CAssignRecord(m, rs[0])
      case None => None
      case Some(m') => CAssignAll(m', rs[1..])
  }

  predicate NoneEmpty(rs: seq<Record>) {
    forall i | 0 <= i < |rs| :: rs[i].value != []
  }

  /** Printed records are all parsed and assigned in order, exactly when no value is empty; one empty
      value makes the C parser refuse the whole header, which the Rust parser does not. */
  lemma {:induction false} CParseRecordsText(m: CMeta, rs: seq<Record>)
    requires |RecordsText(rs)| < TWO_TO_63
    ensures CParse(m, RecordsText(rs)) == if NoneEmpty(rs) then CAssignAll(m, rs) else None
    decreases rs
  {
    hide CReadRecord, RecordText, CAssign, KeyText;
    if rs != [] {
      RecordNotEmpty(rs[0]);
      CReadRecordText(rs[0], RecordsText(rs[1..]));
      assert NoneEmpty(rs) <==> rs[0].value != [] && NoneEmpty(rs[1..]) by {
        assert rs == [rs[0]] + rs[1..];
      }
      match CAssignRecord(m, rs[0])
      case None =>
      case Some(m') => CParseRecordsText(m', rs[1..]);
    }
  }

  lemma RecordNotEmpty(r: Record)
    ensures RecordText(r) != []
  {
  }

  // ---------------------------------------------------------------- the parser over a block reader

  /** The size at the front of a record, and its space. */
  method ParseSize(br: BlockReader) returns (ok: bool, fieldSize: u64, len: nat)
    requires br.Valid()
    modifies br.Repr
    ensures br.Valid()
    ensures (br.Exact() ==> old(br.Exact())) && (old(br.Failed()) ==> br.Failed())
    ensures |br.Stream()| <= |old(br.Stream())| && (ok ==> |br.Stream()| < |old(br.Stream())|)
    ensures br.Exact() ==>
      var s, n := old(br.Stream()), DigitRun(old(br.Stream()));
      && (ok <==> n < |s| && s[n] == SPACE)
      && (ok ==> len == n && fieldSize == ReadNum(s) && br.Stream() == s[n + 1..])
  {
    hide BlockReader.Valid, BlockReader.Stream, BlockReader.Exact, Accumulate, DigitRun, Drop, Wrap;
    ghost var s := br.Stream();
    fieldSize, len := 0, 0;
    AccumulateNothing(0);
    while br.next != SPACE as int
      invariant br.Valid()
      invariant |br.Stream()| <= |s|
      invariant (br.Exact() ==> old(br.Exact())) && (old(br.Failed()) ==> br.Failed())
      invariant br.Exact() ==> len <= |s| && br.Stream() == s[len..]
      invariant br.Exact() ==> forall i | 0 <= i < len :: IsDigit(s[i])
      invariant br.Exact() ==> fieldSize == Accumulate(0, s[..len])
      decreases |br.Stream()|
    {
      if br.next < 48 || br.next > 57 {
        if br.Exact() {
          DigitRunIs(s, len);
        }
        return false, fieldSize, len;
      }
      OneMore([], br.Stream());
      if br.Exact() {
        OneDigit(s, len, br.Stream());
      }
      fieldSize := Wrap(fieldSize * 10);
      fieldSize := Wrap(fieldSize + (br.next - 48));
      len := len + 1;
      br.Consume();
    }
    OneMore([], br.Stream());
    if br.Exact() {
      DigitRunIs(s, len);
      DropOne(s, len);
    }
    br.Consume();
    ok := true;
  }

  /** One more byte of a name. */
  lemma NameGoesOn(t: bytes, n: nat, rest: bytes)
    requires n < |t| && EQUALS !in t[..n] && rest == t[n..] && rest[0] != EQUALS
    ensures t[..n + 1] == t[..n] + [rest[0]] && Drop(rest, 1) == t[n + 1..]
    ensures IndexOf(t, EQUALS) > n
  {
    hide IndexOf, Drop;
    IndexOfBeyond(t, n);
    DropOne(t, n);
  }

  lemma IndexOfBeyond(t: bytes, n: nat)
    requires n < |t| && EQUALS !in t[..n] && t[n] != EQUALS
    ensures IndexOf(t, EQUALS) > n
  {
    hide IndexOf;
    IndexOfAtLeast(t, EQUALS, n);
  }

  /** The name, and its equals sign. */
  method ParseName(br: BlockReader, size: u64) returns (ok: bool, name: bytes, fieldSize: u64)
    requires br.Valid()
    modifies br.Repr
    ensures br.Valid()
    ensures (br.Exact() ==> old(br.Exact())) && (old(br.Failed()) ==> br.Failed())
    ensures |br.Stream()| <= |old(br.Stream())|
    ensures ok && name != [] ==> fieldSize > 0
    ensures br.Exact() ==>
      var t, e := old(br.Stream()), IndexOf(old(br.Stream()), EQUALS);
      && (ok <==> e < |t| && e <= MAX_NAME && !(1 <= size <= e))
      && (ok ==> name == t[..e] && fieldSize == Wrap(size - e) && br.Stream() == t[e + 1..])
  {
    hide BlockReader.Valid, BlockReader.Stream, BlockReader.Exact, IndexOf, Wrap;
    ghost var t := br.Stream();
    name, fieldSize := [], size;
    while br.next != EQUALS as int
      invariant br.Valid()
      invariant |br.Stream()| <= |t|
      invariant (br.Exact() ==> old(br.Exact())) && (old(br.Failed()) ==> br.Failed())
      invariant br.Exact() ==> |name| <= |t| && name == t[..|name|] && br.Stream() == t[|name|..]
      invariant EQUALS !in name && |name| <= MAX_NAME
      invariant fieldSize == Less(size, |name|) && !(1 <= size <= |name|)
      invariant name != [] ==> fieldSize > 0
      decreases |br.Stream()|
    {
      if br.next == EOF {
        if br.Exact() {
          IndexOfAtLeast(t, EQUALS, |name|);
        }
        return false, name, fieldSize;
      }
      ghost var done := |name|;
      if br.Exact() {
        NameGoesOn(t, done, br.Stream());
      }
      name := name + [br.next as byte];
      if |name| >= 63 {
        return false, name, fieldSize;
      }
      LessOne(fieldSize);
      fieldSize := Wrap(fieldSize - 1);
      if fieldSize == 0 {
        return false, name, fieldSize;
      }
      br.Consume();
    }
    if br.Exact() {
      IndexOfAtLeast(t, EQUALS, |name|);
    }
    LessWraps(size, |name|);
    br.Consume();
    ok := true;
  }

  /** `size - k`, wrapping around. */
  function Less(size: u64, k: nat): u64
    requires k <= MAX_NAME + 1
  {
    if k <= size then size - k else size - k + TWO_TO_64
  }

  lemma LessWraps(size: u64, k: nat)
    requires k <= MAX_NAME + 1
    ensures Less(size, k) == Wrap(size - k)
  {
  }

  lemma LessOne(size: u64)
    ensures Wrap(size - 1) == if size == 0 then TWO_TO_64 - 1 else size - 1
  {
  }

  /** One more digit of a number. */
  lemma OneDigit(v: bytes, k: nat, rest: bytes)
    requires k < |v| && rest == v[k..] && (forall i | 0 <= i < k :: IsDigit(v[i])) && IsDigit(rest[0])
    ensures Drop(rest, 1) == v[k + 1..] && forall i | 0 <= i < k + 1 :: IsDigit(v[i])
    ensures Accumulate(0, v[..k + 1]) == Wrap(Wrap(Accumulate(0, v[..k]) * 10) + DigitValue(rest[0]))
  {
    hide Accumulate, Wrap;
    assert v[..k + 1] == v[..k] + [rest[0]];
    AccumulateAppend(0, v[..k], rest[0]);
    DropOne(v, k);
  }

  /** `parse_u64` */
  method ParseU64Field(br: BlockReader, size: nat) returns (ok: bool, num: u64)
    requires br.Valid()
    modifies br.Repr
    ensures br.Valid()
    ensures (br.Exact() ==> old(br.Exact())) && (old(br.Failed()) ==> br.Failed())
    ensures |br.Stream()| <= |old(br.Stream())|
    ensures br.Exact() ==>
      var v := old(br.Stream());
      && (ok <==> size <= |v| && IsNumeral(v[..size]))
      && (ok ==> num == Accumulate(0, v[..size]) && br.Stream() == v[size..])
  {
    hide BlockReader.Valid, BlockReader.Stream, BlockReader.Exact, Accumulate, Drop, Wrap;
    ghost var v := br.Stream();
    num := 0;
    var left: nat := size;
    ghost var done: nat := 0;
    AccumulateNothing(0);
    while left > 0
      invariant br.Valid() && done + left == size
      invariant |br.Stream()| <= |v|
      invariant (br.Exact() ==> old(br.Exact())) && (old(br.Failed()) ==> br.Failed())
      invariant br.Exact() ==> done <= |v| && br.Stream() == v[done..]
      invariant br.Exact() ==> forall i | 0 <= i < done :: IsDigit(v[i])
      invariant br.Exact() ==> num == Accumulate(0, v[..done])
    {
      if br.next < 48 || br.next > 57 {
        assert br.Exact() && done < |v| ==> !IsDigit(v[done]) by {
          if br.Exact() && done < |v| {
            assert br.Stream()[0] == v[done];
          }
        }
        return false, num;
      }
      OneMore([], br.Stream());
      if br.Exact() {
        OneDigit(v, done, br.Stream());
      }
      num := Wrap(num * 10);
      num := Wrap(num + (br.next - 48));
      br.Consume();
      done := done + 1;
      left := left - 1;
    }
    ok := true;
  }

  /** The digits behind the point of `parse_time`. */
  method ParseFraction(br: BlockReader, size: nat) returns (ok: bool, text: bytes)
    requires br.Valid()
    modifies br.Repr
    ensures br.Valid()
    ensures (br.Exact() ==> old(br.Exact())) && (old(br.Failed()) ==> br.Failed())
    ensures |br.Stream()| <= |old(br.Stream())|
    ensures br.Exact() ==>
      var v := old(br.Stream());
      && (ok <==> size <= |v| && IsNumeral(v[..size]))
      && (ok ==> text == v[..size] && br.Stream() == v[size..])
  {
    hide BlockReader.Valid, BlockReader.Stream, BlockReader.Exact;
    ghost var v := br.Stream();
    text := [];
    while |text| < size
      invariant br.Valid()
      invariant |br.Stream()| <= |v| && |text| <= size
      invariant (br.Exact() ==> old(br.Exact())) && (old(br.Failed()) ==> br.Failed())
      invariant br.Exact() ==> |text| <= |v| && text == v[..|text|] && br.Stream() == v[|text|..]
      invariant br.Exact() ==> forall i | 0 <= i < |text| :: IsDigit(v[i])
      decreases size - |text|
    {
      ghost var done := |text|;
      if br.next < 48 || br.next > 57 {
        assert br.Exact() && done < |v| ==> !IsDigit(v[done]) by {
          if br.Exact() && done < |v| {
            assert br.Stream()[0] == v[done];
          }
        }
        return false, text;
      }
      if br.Exact() {
        assert br.Stream()[0] == v[done];
        assert v[..done + 1] == v[..done] + [br.next as byte];
      }
      text := text + [br.next as byte];
      br.Consume();
    }
    ok := true;
  }

  /** The part of `parse_time` up to the point, which takes any bytes. */
  method ParseWhole(br: BlockReader, size: nat) returns (left: nat, text: bytes)
    requires br.Valid()
    modifies br.Repr
    ensures br.Valid()
    ensures (br.Exact() ==> old(br.Exact())) && (old(br.Failed()) ==> br.Failed())
    ensures |br.Stream()| <= |old(br.Stream())|
    ensures br.Exact() ==>
      var w, e := old(br.Stream()), IndexOf(old(br.Stream()), DOT);
      if e < |w| && e < size then left == size - e && text == w[..e] && br.Stream() == w[e..]
      else left == 0 && br.Stream() == Drop(w, size) && (size <= |w| ==> text == w[..size])
  {
    hide BlockReader.Valid, BlockReader.Stream, BlockReader.Exact, IndexOf, Drop;
    ghost var w := br.Stream();
    ghost var e := IndexOf(w, DOT);
    ghost var done: nat := 0;
    text, left := [], size;
    ByteOn(w, 0, [], w);
    while br.next != DOT as int && left > 0
      invariant br.Valid() && done + left == size
      invariant |br.Stream()| <= |w|
      invariant (br.Exact() ==> old(br.Exact())) && (old(br.Failed()) ==> br.Failed())
      invariant br.Exact() ==> br.Stream() == Drop(w, done)
      invariant br.Exact() ==> done <= e || e == |w|
      invariant br.Exact() && done <= |w| ==> text == w[..done]
      decreases left
    {
      if br.Exact() {
        ByteOn(w, done, text, br.Stream());
      }
      if br.next != EOF {
        text := text + [br.next as byte];
      }
      DropLess(br.Stream());
      left := left - 1;
      done := done + 1;
      br.Consume();
    }
    if br.Exact() {
      ByteOn(w, done, text, br.Stream());
    }
  }

  lemma DropLess(s: bytes)
    ensures |Drop(s, 1)| <= |s|
  {
  }

  /** What is left of `w` behind `done` bytes, and one byte more. */
  lemma ByteOn(w: bytes, done: nat, text: bytes, rest: bytes)
    requires (done > 0 ==> rest == Drop(w, done)) && (done == 0 ==> rest == w)
    requires done <= |w| ==> text == w[..done]
    ensures rest == Drop(w, done) && Drop(rest, 1) == Drop(w, done + 1)
    ensures if rest == [] then done >= |w|
            else done < |w| && rest == w[done..] && rest[0] == w[done] && text + [rest[0]] == w[..done + 1]
  {
  }

  /** `parse_time` behind its sign. */
  method ParseUnsignedTimeField(br: BlockReader, size: nat) returns (ok: bool, text: bytes)
    requires br.Valid()
    modifies br.Repr
    ensures br.Valid()
    ensures (br.Exact() ==> old(br.Exact())) && (old(br.Failed()) ==> br.Failed())
    ensures |br.Stream()| <= |old(br.Stream())|
    ensures br.Exact() ==>
      var w := old(br.Stream());
      && (size <= |w| ==> (ok <==> FractionOk(w[..size])) && (ok ==> text == w[..size] && br.Stream() == w[size..]))
      && (size > |w| && ok ==> br.Stream() == [])
  {
    hide BlockReader.Valid, BlockReader.Stream, BlockReader.Exact, IndexOf, FractionOk, IsNumeral;
    ghost var w := br.Stream();
    ghost var e := IndexOf(w, DOT);
    if size <= |w| {
      FractionAt(w, size);
    }
    var left, whole := ParseWhole(br, size);
    if left == 0 {
      return true, whole;
    }
    assert br.Exact() ==> br.Stream() == w[e..] && left == size - e && whole == w[..e];
    left := left - 1;
    br.Consume();
    assert br.Exact() ==> br.Stream() == w[e + 1..];
    var digits;
    ok, digits := ParseFraction(br, left);
    text := whole + [DOT] + digits;
    if br.Exact() && size <= |w| {
      JoinTime(w, size, e);
    }
  }

  lemma JoinTime(w: bytes, size: nat, e: nat)
    requires e < size <= |w| && w[e] == DOT
    ensures w[..e] + [DOT] + w[e + 1..][..size - e - 1] == w[..size]
    ensures w[e + 1..][size - e - 1..] == w[size..]
  {
  }

  /** `parse_time`; the number itself is not modelled. */
  method ParseTimeField(br: BlockReader, size: nat) returns (ok: bool, text: bytes)
    requires br.Valid() && size > 0
    modifies br.Repr
    ensures br.Valid()
    ensures (br.Exact() ==> old(br.Exact())) && (old(br.Failed()) ==> br.Failed())
    ensures |br.Stream()| <= |old(br.Stream())|
    ensures br.Exact() ==>
      var v := old(br.Stream());
      && (size <= |v| ==> (ok <==> TimeOk(v[..size])) && (ok ==> text == v[..size] && br.Stream() == v[size..]))
      && (size > |v| && ok ==> br.Stream() == [])
  {
    hide BlockReader.Valid, BlockReader.Stream, BlockReader.Exact, FractionOk, TimeOk;
    ghost var v := br.Stream();
    if size <= |v| {
      SignedTime(v, size);
    }
    if br.next == MINUS as int || br.next == PLUS as int {
      var sign := [br.next as byte];
      br.Consume();
      ok, text := ParseUnsignedTimeField(br, size - 1);
      text := sign + text;
    } else {
      ok, text := ParseUnsignedTimeField(br, size);
    }
  }

  lemma SignedTime(v: bytes, size: nat)
    requires 0 < size <= |v|
    ensures if v[0] == MINUS || v[0] == PLUS then
              (TimeOk(v[..size]) <==> FractionOk(v[1..][..size - 1])) &&
              [v[0]] + v[1..][..size - 1] == v[..size] && v[1..][size - 1..] == v[size..]
            else TimeOk(v[..size]) <==> FractionOk(v[..size])
  {
    assert v[..size][1..] == v[1..][..size - 1];
  }

  /** What has to be digits in the first `total` bytes of `w`. */
  lemma FractionAt(w: bytes, total: nat)
    requires total <= |w|
    ensures var e := IndexOf(w, DOT);
            FractionOk(w[..total]) <==> e >= total || IsNumeral(w[e + 1..][..total - e - 1])
  {
    hide IndexOf, FractionOk, IsNumeral;
    var e := IndexOf(w, DOT);
    var u := w[..total];
    PointAt(u, if e < total then e else total);
    if e < total {
      FractionDigits(u);
      assert u[e + 1..] == w[e + 1..][..total - e - 1];
    } else {
      NoFraction(u);
    }
  }

  lemma NoFraction(u: bytes)
    requires IndexOf(u, DOT) == |u|
    ensures FractionOk(u)
  {
    hide IndexOf;
  }

  lemma FractionDigits(u: bytes)
    requires IndexOf(u, DOT) < |u|
    ensures FractionOk(u) <==> IsNumeral(u[IndexOf(u, DOT) + 1..])
  {
    hide IndexOf;
    var e := IndexOf(u, DOT);
    var digits := u[e + 1..];
    assert forall i | 0 <= i < |digits| :: digits[i] == u[i + e + 1];
    assert forall i | e < i < |u| :: u[i] == digits[i - e - 1];
  }

  lemma PointAt(w: bytes, n: nat)
    requires n <= |w| && (forall i | 0 <= i < n :: w[i] != DOT) && (n < |w| ==> w[n] == DOT)
    ensures IndexOf(w, DOT) == n
  {
  }

  /** The value, by the kind of its field. */
  method ParseValue(br: BlockReader, m: CMeta, name: bytes, size: nat) returns (r: Option<CMeta>)
    requires br.Valid() && (name != [] ==> size > 0)
    modifies br.Repr
    ensures br.Valid()
    ensures (br.Exact() ==> old(br.Exact())) && (old(br.Failed()) ==> br.Failed())
    ensures |br.Stream()| <= |old(br.Stream())|
    ensures br.Exact() ==>
      var v := old(br.Stream());
      && (size <= |v| ==> r == CAssign(m, name, v[..size]) && (r.Some? ==> br.Stream() == v[size..]))
      && (size > |v| && r.Some? ==> br.Stream() == [])
  {
    hide BlockReader.Valid, BlockReader.Stream, BlockReader.Exact, Accumulate, DigitRun, TimeOk, KeyOf, UpToNul;
    ghost var v := br.Stream();
    var key := KeyOf(UpToNul(name));
    if key.None? {
      var ok := br.Skip(size);
      return if ok then Some(m) else None;
    }
    KeyNeedsName(name);
    var k := key.value;
    if k.Atime? || k.Mtime? {
      var ok, text := ParseTimeField(br, size);
      return if ok then Some(m[k := Seconds(text)]) else None;
    } else if k.Gid? || k.Size? || k.Uid? {
      var ok, num := ParseU64Field(br, size);
      if br.Exact() && size <= |v| {
        AllDigits(v[..size]);
      }
      return if ok then Some(m[k := Number(num)]) else None;
    } else {
      var got := br.Read(size);
      assert br.Exact() && size <= |v| ==> got == v[..size];
      return Some(m[k := Text(UpToNul(got))]);
    }
  }

  lemma KeyNeedsName(name: bytes)
    requires KeyOf(UpToNul(name)).Some?
    ensures name != []
  {
  }

  lemma AllDigits(v: bytes)
    ensures DigitRun(v) == |v| <==> IsNumeral(v)
  {
    if IsNumeral(v) {
      DigitRunIs(v, |v|);
    }
  }

  /** The value of a record, and its line feed. */
  method ParseValueLine(br: BlockReader, m: CMeta, name: bytes, size: nat) returns (r: Option<CMeta>)
    requires br.Valid() && (name != [] ==> size > 0)
    modifies br.Repr
    ensures br.Valid()
    ensures (br.Exact() ==> old(br.Exact())) && (old(br.Failed()) ==> br.Failed())
    ensures |br.Stream()| <= |old(br.Stream())|
    ensures br.Exact() ==>
      match Assigned(m, CReadValue(name, size, old(br.Stream())))
      case None => r == None
      case Some((m', rest)) => r == Some(m') && br.Stream() == rest
  {
    hide BlockReader.Valid, BlockReader.Stream, BlockReader.Exact, CAssign;
    ghost var v := br.Stream();
    r := ParseValue(br, m, name, size);
    if r.None? {
      return None;
    }
    assert br.Exact() && size <= |v| ==> br.Stream() == v[size..];
    if br.next != LINE_FEED as int {
      return None;
    }
    br.Consume();
  }

  /** `parse_one` */
  method ParseOne(br: BlockReader, m: CMeta) returns (r: Option<CMeta>)
    requires br.Valid()
    modifies br.Repr
    ensures br.Valid()
    ensures (br.Exact() ==> old(br.Exact())) && (old(br.Failed()) ==> br.Failed())
    ensures r.Some? ==> |br.Stream()| < |old(br.Stream())|
    ensures br.Exact() ==>
      match CParseOne(m, old(br.Stream()))
      case None => r == None
      case Some((m', rest)) => r == Some(m') && br.Stream() == rest
  {
    hide BlockReader.Valid, BlockReader.Stream, BlockReader.Exact, DigitRun, CReadName, ReadNum, Wrap, Assigned;
    ghost var s := br.Stream();
    var ok, size, len := ParseSize(br);
    if !ok {
      RefusedSize(m, s);
      return None;
    }
    r := ParseNamed(br, m, Wrap(size - (len + 3)));
  }

  lemma RefusedSize(m: CMeta, s: bytes)
    ensures var n := DigitRun(s); n == |s| || s[n] != SPACE ==> CParseOne(m, s) == None
  {
    hide DigitRun, CReadName;
  }

  /** The part of a record behind its size. */
  method ParseNamed(br: BlockReader, m: CMeta, size: u64) returns (r: Option<CMeta>)
    requires br.Valid()
    modifies br.Repr
    ensures br.Valid()
    ensures (br.Exact() ==> old(br.Exact())) && (old(br.Failed()) ==> br.Failed())
    ensures |br.Stream()| <= |old(br.Stream())|
    ensures br.Exact() ==>
      match Assigned(m, CReadName(size, old(br.Stream())))
      case None => r == None
      case Some((m', rest)) => r == Some(m') && br.Stream() == rest
  {
    hide BlockReader.Valid, BlockReader.Stream, BlockReader.Exact, IndexOf, CReadValue, Wrap, CAssign;
    var ok, name, left := ParseName(br, size);
    if !ok {
      return None;
    }
    r := ParseValueLine(br, m, name, left);
  }

  /** `rest` is what is left of `s` when at most `most` bytes are taken. */
  predicate Remains(s: bytes, rest: bytes, most: nat) {
    |rest| <= |s| <= |rest| + most && rest == s[|s| - |rest|..]
  }

  /** How many bytes a parse of `size` may take: the size becomes a signed offset, so from 2^63 on it is below
      zero and nothing is taken. */
  function Allowed(size: u64): nat {
    AtLeastNone(WrapSigned(size))
  }

  /** `scar_pax_parse`: through any nesting of readers, it takes no more than its limit and on success all of it,
      or all there is. Unless a read failed, its result is what `CParse` says. A failure that is not hidden makes it
      fail; one that an embedded block reader hides can be seen in the error field of that block reader. */
  method PaxParse(m: CMeta, r: Reader, size: u64) returns (res: Option<CMeta>)
    requires r.Valid()
    modifies r.Repr
    ensures r.Valid() && (old(r.Failed()) ==> r.Failed()) && (r.Trusted() ==> old(r.Trusted()))
    ensures r.Trusted() ==> Remains(old(r.Stream()), r.Stream(), Allowed(size))
    ensures r.Trusted() && res.Some? ==> r.Stream() == Drop(old(r.Stream()), Allowed(size))
    ensures (r.Trusted() && (res.Some? || !r.loud)) || !r.Failed() ==>
              res == CParse(m, Taken(old(r.Stream()), Allowed(size)))
    ensures old(r.Stream()) == [] && !r.loud ==> res == Some(m)
  {
    hide Reader.Valid, Reader.Stream, Reader.Trusted, BlockReader.Valid, BlockReader.Stream, BlockReader.Exact;
    hide CParseOne, Taken, Remains, Drop, WrapSigned;
    ghost var was := r.Stream();
    var lr := new Reader.Limit(r, WrapSigned(size));
    ghost var s := lr.Stream();
    LimitTakes(was, size);
    var br := new BlockReader(lr);
    var meta := m;
    while br.next != EOF
      invariant br.Valid() && br.r == lr && fresh(br.Repr - r.Repr)
      invariant old(r.Failed()) ==> br.Failed()
      invariant br.Exact() ==> old(r.Trusted()) && CParse(meta, br.Stream()) == CParse(m, s)
      invariant s == [] ==> br.Stream() == [] && meta == m
      decreases |br.Stream()|
    {
      var r1 := ParseOne(br, meta);
      if r1.None? {
        Bounds(br, r, was, Allowed(size));
        return None;
      }
      meta := r1.value;
    }
    Bounds(br, r, was, Allowed(size));
    if br.error != 0 {
      return None;
    }
    return Some(meta);
  }

  lemma LimitTakes(s: bytes, size: u64)
    ensures Taken(s, WrapSigned(size)) == Taken(s, Allowed(size))
    ensures s == [] ==> Taken(s, WrapSigned(size)) == []
  {
  }

  /** What a block reader over a limited reader has taken at most, and exactly at a clean end. */
  lemma Bounds(br: BlockReader, r: Reader, was: bytes, size: nat)
    requires br.Valid() && br.r.kind == Kind.Limited(r) && br.r.base == was && br.r.size == size
    ensures r.Valid() && br.r.source == r.source && br.r.loud == r.loud
    ensures br.Exact() <==> br.error == 0 && r.Trusted()
    ensures r.Trusted() ==> Remains(was, r.Stream(), size)
    ensures br.next == EOF && br.Exact() ==> r.Stream() == Drop(was, size)
  {
    hide BlockReader.Valid, BlockReader.Stream, Reader.Valid, Reader.Stream, Reader.Trusted;
    assert br.r.Valid();
    br.r.LimitedIs(r);
    AtEnd(br);
    if r.Trusted() {
      TakenSoFar(was, size, br.r.limit, r.Stream());
    }
  }

  lemma AtEnd(br: BlockReader)
    requires br.Valid()
    ensures br.Exact() <==> br.error == 0 && br.r.Trusted()
    ensures br.next == EOF && br.Exact() ==> br.r.Stream() == []
  {
    hide Reader.Valid, Reader.Stream, Reader.Trusted;
  }

  lemma TakenSoFar(was: bytes, size: nat, limit: int, rest: bytes)
    requires limit <= size && (limit < 0 ==> size == 0)
    requires size - AtLeastNone(limit) <= |was| && rest == was[size - AtLeastNone(limit)..]
    ensures Remains(was, rest, size)
    ensures Taken(rest, limit) == [] ==> rest == Drop(was, size)
  {
  }

  /** Success takes what there is of `size` bytes exactly when the size stays a positive offset, or there is
      nothing to take. */
  lemma TakesExactly(size: u64, available: nat)
    ensures Least(Allowed(size), available) == Least(size, available) <==> size < TWO_TO_63 || available == 0
  {
  }

  /** A failure that the block reader below has met hides the records: the parse succeeds without having read
      any. Whether that happened can be seen in `error`. */
  method HiddenFailure(br: BlockReader, m: CMeta, size: u64) returns (res: Option<CMeta>)
    requires br.Valid() && br.error == -1
    modifies br.Repr
    ensures res == Some(m)
  {
    var r := new Reader.Embedded(br);
    res := PaxParse(m, r, size);
  }

  function Leftover(size: u64): nat {
    if size % BLOCK_SIZE == 0 then 0 else BLOCK_SIZE - size % BLOCK_SIZE
  }

  /** `read_pax_block_aligned`: on success the reader has moved over the records that were taken and over the
      rest of their last block, unless the input ended inside whole blocks. */
  method ReadPaxBlockAligned(m: CMeta, size: u64, r: Reader) returns (res: Option<CMeta>)
    requires r.Valid()
    modifies r.Repr
    ensures r.Valid() && (old(r.Failed()) ==> r.Failed())
    ensures r.Trusted() ==> Remains(old(r.Stream()), r.Stream(), Allowed(size) + Leftover(size))
    ensures r.Trusted() && res.Some? ==>
              && r.Stream() == Drop(old(r.Stream()), Allowed(size) + Leftover(size))
              && (Allowed(size) + Leftover(size) <= |old(r.Stream())| || Leftover(size) == 0)
              && res == CParse(m, Taken(old(r.Stream()), Allowed(size)))
  {
    hide Reader.Valid, Reader.Stream, Reader.Trusted, Remains, Taken, CParse, Allowed, Leftover, Drop;
    ghost var was := r.Stream();
    var leftover := LeftoverOf(size);
    res := PaxParse(m, r, size);
    if res.None? {
      if r.Trusted() {
        RemainsMore(was, r.Stream(), Allowed(size), Allowed(size) + leftover);
      }
      return None;
    }
    ghost var middle := r.Stream();
    var n, chunk := r.Read(leftover);
    if r.Trusted() {
      RemainsTwice(was, Allowed(size), middle, if n == -1 then [] else chunk, r.Stream(), leftover);
    }
    if n < leftover {
      return None;
    }
  }

  method LeftoverOf(size: u64) returns (leftover: nat)
    ensures leftover == Leftover(size)
  {
    leftover := BLOCK_SIZE - size % BLOCK_SIZE;
    if leftover == BLOCK_SIZE {
      leftover := 0;
    }
  }

  /** A reader at a block boundary is at one again, when there is enough input, exactly when the size stays a
      positive offset or is a multiple of 512 itself. */
  lemma AlignedExactly(size: u64)
    ensures (Allowed(size) + Leftover(size)) % BLOCK_SIZE == 0 <==> size < TWO_TO_63 || size % BLOCK_SIZE == 0
    ensures size < TWO_TO_63 ==> Allowed(size) + Leftover(size) == PaddedLength(size)
  {
  }

  /** With a size of 2^63 + 1 nothing is parsed and 511 bytes are skipped. */
  lemma SizeTooLarge()
    ensures Allowed(TWO_TO_63 + 1) == 0 && Leftover(TWO_TO_63 + 1) == 511
  {
  }

  lemma RemainsMore(s: bytes, rest: bytes, n: nat, m: nat)
    requires Remains(s, rest, n) && n <= m
    ensures Remains(s, rest, m)
  {
  }

  /** Taking `chunk` after `size` bytes. */
  lemma RemainsTwice(s: bytes, size: nat, middle: bytes, chunk: bytes, rest: bytes, n: nat)
    requires middle == Drop(s, size) && middle == chunk + rest && |chunk| <= n
    ensures Remains(s, rest, size + n)
    ensures |chunk| == n ==> rest == Drop(s, size + n) && (n > 0 ==> size + n <= |s|)
  {
    if size <= |s| {
      assert s == s[..size] + (chunk + rest);
    }
  }
}
