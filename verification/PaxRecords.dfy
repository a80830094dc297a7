/** Pax extended header records: self-length-prefixed `key=value` lines, printed and parsed
    (scar-rs/scar/src/pax.rs, POSIX.1-2017 utility pax, "pax Extended Header"). */
module PaxRecords {
  import opened Bytes
  import opened Decimal

  // ---------------------------------------------------------------- times

  /** A time stamp as the exact decimal number it prints as. */
  datatype DecimalTime = Time(negative: bool, whole: nat, fraction: bytes)

  predicate CanonicalTime(t: DecimalTime) {
    (forall i | 0 <= i < |t.fraction| :: IsDigit(t.fraction[i])) &&
    (t.fraction == [] || t.fraction[|t.fraction| - 1] != DIGIT_0)
  }

  type Time = t: DecimalTime | CanonicalTime(t) witness Time(false, 0, [])

  function FractionText(fraction: bytes): bytes {
    if fraction == [] then [] else [DOT] + fraction
  }

  function TimeText(t: Time): bytes {
    (if t.negative then [MINUS] else []) + Digits(t.whole) + FractionText(t.fraction)
  }

  function TrimZeros(s: bytes): (r: bytes)
    ensures r <= s
    ensures r == [] || r[|r| - 1] != DIGIT_0
  {
    if s != [] && s[|s| - 1] == DIGIT_0 then TrimZeros(s[..|s| - 1]) else s
  }

  /** An optional sign, digits, and an optional point with more digits; at least one digit. */
  function ParseTime(s: bytes): Option<Time> {
    ParseUnsignedTime(s != [] && s[0] == MINUS, if s != [] && (s[0] == MINUS || s[0] == PLUS) then s[1..] else s)
  }

  /** The number after an optional sign. */
  function ParseUnsignedTime(negative: bool, t: bytes): Option<Time> {
    var n := DigitRun(t);
    var fraction := if n < |t| then t[n + 1..] else [];
    if (n < |t| ==> t[n] == DOT) && DigitRun(fraction) == |fraction| && (n > 0 || fraction != []) then
      Some(Time(negative, Value(t[..n]), TrimZeros(fraction)))
    else
      None
  }

  lemma FractionSplit(d: bytes, fraction: bytes)
    ensures var s := d + FractionText(fraction); var n := |d|;
            && s[..n] == d && (n < |s| <==> fraction != [])
            && (n < |s| ==> s[n] == DOT && s[n + 1..] == fraction)
  {
  }

  lemma ParseUnsignedText(negative: bool, whole: nat, fraction: bytes)
    requires CanonicalTime(Time(negative, whole, fraction))
    ensures ParseUnsignedTime(negative, Digits(whole) + FractionText(fraction)) == Some(Time(negative, whole, fraction))
  {
    hide DigitRun, Digits, Value, FractionText;
    var d := Digits(whole);
    var s := d + FractionText(fraction);
    FractionSplit(d, fraction);
    DigitRunIs(s, |d|) by {
      assert forall i | 0 <= i < |d| :: s[..|d|][i] == s[i];
    }
    assert DigitRun(fraction) == |fraction| by {
      DigitRunPrefix(fraction, []);
      assert fraction + [] == fraction;
    }
    assert Value(d) == whole by {
      ValueDigits(whole);
    }
  }

  /** A printed time reads back as itself. */
  lemma ParseTimeText(t: Time)
    ensures ParseTime(TimeText(t)) == Some(t)
  {
    hide ParseUnsignedTime, Digits;
    var unsigned := Digits(t.whole) + FractionText(t.fraction);
    ParseUnsignedText(t.negative, t.whole, t.fraction);
    assert unsigned[0] == Digits(t.whole)[0];
    if t.negative {
      assert TimeText(t) == [MINUS] + unsigned;
      assert TimeText(t)[1..] == unsigned;
    } else {
      assert TimeText(t) == unsigned;
    }
  }

  // ---------------------------------------------------------------- the keys

  datatype Key = Atime | Charset | Comment | Gid | Gname | Hdrcharset | Linkpath | Mtime | Path | Size | Uid | Uname

  const ATIME: bytes := [97, 116, 105, 109, 101]
  const CHARSET: bytes := [99, 104, 97, 114, 115, 101, 116]
  const COMMENT: bytes := [99, 111, 109, 109, 101, 110, 116]
  const GID: bytes := [103, 105, 100]
  const GNAME: bytes := [103, 110, 97, 109, 101]
  const HDRCHARSET: bytes := [104, 100, 114, 99, 104, 97, 114, 115, 101, 116]
  const LINKPATH: bytes := [108, 105, 110, 107, 112, 97, 116, 104]
  const MTIME: bytes := [109, 116, 105, 109, 101]
  const PATH: bytes := [112, 97, 116, 104]
  const SIZE: bytes := [115, 105, 122, 101]
  const UID: bytes := [117, 105, 100]
  const UNAME: bytes := [117, 110, 97, 109, 101]

  function KeyText(k: Key): bytes {
    match k
    case Atime => ATIME
    case Charset => CHARSET
    case Comment => COMMENT
    case Gid => GID
    case Gname => GNAME
    case Hdrcharset => HDRCHARSET
    case Linkpath => LINKPATH
    case Mtime => MTIME
    case Path => PATH
    case Size => SIZE
    case Uid => UID
    case Uname => UNAME
  }

  function KeyOf(text: bytes): Option<Key> {
    if text == ATIME then Some(Atime)
    else if text == CHARSET then Some(Charset)
    else if text == COMMENT then Some(Comment)
    else if text == GID then Some(Gid)
    else if text == GNAME then Some(Gname)
    else if text == HDRCHARSET then Some(Hdrcharset)
    else if text == LINKPATH then Some(Linkpath)
    else if text == MTIME then Some(Mtime)
    else if text == PATH then Some(Path)
    else if text == SIZE then Some(Size)
    else if text == UID then Some(Uid)
    else if text == UNAME then Some(Uname)
    else None
  }

  lemma KeyRoundTrip(k: Key)
    ensures KeyOf(KeyText(k)) == Some(k)
    ensures EQUALS !in KeyText(k)
  {
    assert ATIME[0] == 97 && CHARSET[0] == 99 && COMMENT[1] == 111 && CHARSET[1] == 104;
    assert GID[0] == 103 && GNAME[0] == 103 && MTIME[0] == 109 && UNAME[0] == 117 && PATH[0] == 112 && SIZE[0] == 115;
    assert UID[0] == 117 && LINKPATH[0] == 108 && HDRCHARSET[0] == 104;
  }

  lemma KeyOfIs(name: bytes)
    requires KeyOf(name).Some?
    ensures name == KeyText(KeyOf(name).value)
  {
  }

  // ---------------------------------------------------------------- one record

  datatype Record = Record(key: Key, value: bytes)

  /** `"%d %s=%s\n"`, where the number counts the whole record including itself. */
  function RecordText(r: Record): bytes {
    var key := KeyText(r.key);
    Digits(SelfLength(|key| + |r.value| + 3)) + [SPACE] + key + [EQUALS] + r.value + [LINE_FEED]
  }

  lemma RecordTextLength(r: Record)
    ensures |RecordText(r)| == SelfLength(|KeyText(r.key)| + |r.value| + 3)
  {
    SelfLengthExact(|KeyText(r.key)| + |r.value| + 3);
  }

  datatype RecordResult = End | Bad | Field(key: bytes, value: bytes, rest: bytes)

  const MAX_REMAINING: int := 16 * 1024

  /** Where `b` first occurs in `s`, or `|s|`. */
  function IndexOf(s: bytes, b: byte): (n: nat)
    ensures n <= |s|
    ensures n < |s| ==> s[n] == b
    ensures forall i | 0 <= i < n :: s[i] != b
  {
    if s == [] || s[0] == b then 0 else 1 + IndexOf(s[1..], b)
  }

  /** Reading one record. The length is a signed 64-bit number that wraps around; running out of
      input before its space ends the parse, anywhere later it is an error. */
  function ReadRecord(s: bytes): (r: RecordResult)
    ensures r.Field? ==> |r.rest| < |s|
  {
    var n := DigitRun(s);
    if n == |s| then End
    else if s[n] != SPACE then Bad
    else ReadBody(Remaining(ReadNum(s), n), s[n + 1..])
  }

  /** What a record of `length` bytes has left after its `n` digits and the space. */
  function Remaining(length: u64, n: nat): int {
    WrapSigned(WrapSigned(length) - n - 1)
  }

  lemma RemainingExact(length: u64, n: nat)
    requires n < length < TWO_TO_63
    ensures Remaining(length, n) == length - n - 1
  {
  }

  /** The part of a record after its length, of which `remaining` bytes are left. */
  function ReadBody(remaining: int, t: bytes): (r: RecordResult)
    ensures r.Field? ==> |r.rest| < |t|
  {
    var e := IndexOf(t, EQUALS);
    if e == |t| || remaining - e < 1 then Bad
    else
      var left := remaining - e - 1;
      var v := t[e + 1..];
      if left > MAX_REMAINING || left < 1 || |v| < left || v[left - 1] != LINE_FEED then Bad
      else Field(t[..e], v[..left - 1], v[left..])
  }

  predicate Fits(r: Record) {
    |r.value| < 16384
  }

  /** A scan that has not met `b` in `n` bytes. */
  lemma IndexOfAtLeast(s: bytes, b: byte, n: nat)
    requires n <= |s| && b !in s[..n]
    ensures IndexOf(s, b) >= n
    ensures (n < |s| ==> s[n] == b) ==> IndexOf(s, b) == n
  {
    hide IndexOf;
    assert forall i | 0 <= i < n :: s[..n][i] == s[i];
  }

  lemma IndexOfPrefix(s: bytes, b: byte, t: bytes)
    requires b !in s
    ensures IndexOf(s + [b] + t, b) == |s|
  {
    var u := s + [b] + t;
    assert u[|s|] == b;
    assert forall i | 0 <= i < |s| :: u[i] == s[i];
  }

  lemma ReadBodyText(key: bytes, value: bytes, rest: bytes)
    requires EQUALS !in key
    ensures ReadBody(|key| + |value| + 2, key + [EQUALS] + value + [LINE_FEED] + rest) ==
            if |value| < 16384 then Field(key, value, rest) else Bad
  {
    var v := value + [LINE_FEED] + rest;
    var t := key + [EQUALS] + v;
    assert t == key + [EQUALS] + value + [LINE_FEED] + rest;
    IndexOfPrefix(key, EQUALS, v);
    assert t[|key| + 1..] == v && t[..|key|] == key;
    assert v[|value|] == LINE_FEED && v[..|value|] == value && v[|value| + 1..] == rest;
  }

  predicate IsNumeral(d: bytes) {
    forall i | 0 <= i < |d| :: IsDigit(d[i])
  }

  lemma ReadRecordSplit(d: bytes, t: bytes)
    requires IsNumeral(d)
    ensures ReadRecord(d + [SPACE] + t) == ReadBody(Remaining(Accumulate(0, d), |d|), t)
  {
    hide ReadBody, DigitRun, Accumulate, ReadNum, Remaining;
    NumberThenSpace(d, t);
  }

  /** A printed record reads back as itself, unless its value is 16384 bytes or longer. */
  lemma ReadRecordText(r: Record, rest: bytes)
    requires |RecordText(r)| < TWO_TO_63
    ensures ReadRecord(RecordText(r) + rest) ==
            if Fits(r) then Field(KeyText(r.key), r.value, rest) else Bad
  {
    hide ReadRecord, ReadBody, Digits, Accumulate, SelfLength, RecordText, Remaining;
    var key := KeyText(r.key);
    var length := SelfLength(|key| + |r.value| + 3);
    RecordTextLength(r);
    SelfLengthExact(|key| + |r.value| + 3);
    KeyRoundTrip(r.key);
    var body := key + [EQUALS] + r.value + [LINE_FEED];
    RecordTextShape(r, body, rest);
    ReadRecordSplit(Digits(length), body + rest);
    AccumulateDigits(length);
    RemainingExact(length, |Digits(length)|);
    ReadBodyText(key, r.value, rest);
  }

  lemma RecordTextShape(r: Record, body: bytes, rest: bytes)
    requires body == KeyText(r.key) + [EQUALS] + r.value + [LINE_FEED]
    ensures RecordText(r) + rest ==
            Digits(SelfLength(|KeyText(r.key)| + |r.value| + 3)) + [SPACE] + (body + rest)
  {
    var d := Digits(SelfLength(|KeyText(r.key)| + |r.value| + 3)) + [SPACE];
    assert RecordText(r) == d + body;
  }

  lemma ReadBodyAppend(remaining: int, t: bytes, b: bytes)
    requires ReadBody(remaining, t).Field?
    ensures ReadBody(remaining, t + b) == ReadBody(remaining, t).(rest := ReadBody(remaining, t).rest + b)
  {
    hide IndexOf;
    var e := IndexOf(t, EQUALS);
    assert IndexOf(t + b, EQUALS) == e by {
      assert t + b == t[..e] + [EQUALS] + (t[e + 1..] + b);
      IndexOfPrefix(t[..e], EQUALS, t[e + 1..] + b);
    }
    assert (t + b)[e + 1..] == t[e + 1..] + b;
    assert (t + b)[..e] == t[..e];
  }

  lemma ReadRecordShape(a: bytes) returns (d: bytes, t: bytes)
    requires ReadRecord(a).Field?
    ensures IsNumeral(d) && a == d + [SPACE] + t
  {
    var n := DigitRun(a);
    d, t := a[..n], a[n + 1..];
  }

  /** What follows a complete record does not change how it is read. */
  lemma ReadRecordAppend(a: bytes, b: bytes)
    requires ReadRecord(a).Field?
    ensures ReadRecord(a + b) == ReadRecord(a).(rest := ReadRecord(a).rest + b)
  {
    hide ReadRecord, ReadBody, DigitRun, IndexOf, Accumulate;
    var d, t := ReadRecordShape(a);
    assert a + b == d + [SPACE] + (t + b);
    ReadRecordSplit(d, t);
    ReadRecordSplit(d, t + b);
    ReadBodyAppend(Remaining(Accumulate(0, d), |d|), t, b);
  }

  // ---------------------------------------------------------------- all records of a header

  datatype PaxMeta = PaxMeta(
    atime: Option<Time>,
    charset: Option<bytes>,
    comment: Option<bytes>,
    gid: Option<u64>,
    gname: Option<bytes>,
    hdrcharset: Option<bytes>,
    linkpath: Option<bytes>,
    mtime: Option<Time>,
    path: Option<bytes>,
    size: Option<u64>,
    uid: Option<u64>,
    uname: Option<bytes>)
  {
    /** `newer` on top of this: the last record of a key wins. */
    function Override(newer: PaxMeta): PaxMeta {
      PaxMeta(
        newer.atime.OrElse(atime), newer.charset.OrElse(charset), newer.comment.OrElse(comment),
        newer.gid.OrElse(gid), newer.gname.OrElse(gname), newer.hdrcharset.OrElse(hdrcharset),
        newer.linkpath.OrElse(linkpath), newer.mtime.OrElse(mtime), newer.path.OrElse(path),
        newer.size.OrElse(size), newer.uid.OrElse(uid), newer.uname.OrElse(uname))
    }
  }

  const EMPTY := PaxMeta(None, None, None, None, None, None, None, None, None, None, None, None)

  function Assign(m: PaxMeta, key: Key, value: bytes): Result<PaxMeta> {
    match key
    case Atime => (match ParseTime(value) case Some(t) => Ok(m.(atime := Some(t))) case None => Err)
    case Charset => Ok(m.(charset := Some(value)))
    case Comment => Ok(m.(comment := Some(value)))
    case Gid => (match ParseU64(value) case Some(n) => Ok(m.(gid := Some(n))) case None => Err)
    case Gname => Ok(m.(gname := Some(value)))
    case Hdrcharset => Ok(m.(hdrcharset := Some(value)))
    case Linkpath => Ok(m.(linkpath := Some(value)))
    case Mtime => (match ParseTime(value) case Some(t) => Ok(m.(mtime := Some(t))) case None => Err)
    case Path => Ok(m.(path := Some(value)))
    case Size => (match ParseU64(value) case Some(n) => Ok(m.(size := Some(n))) case None => Err)
    case Uid => (match ParseU64(value) case Some(n) => Ok(m.(uid := Some(n))) case None => Err)
    case Uname => Ok(m.(uname := Some(value)))
  }

  /** A record with an unknown key is ignored. */
  function Apply(m: PaxMeta, key: bytes, value: bytes): Result<PaxMeta> {
    match KeyOf(key)
    case Some(k) => Assign(m, k, value)
    case None => Ok(m)
  }

  function Parse(m: PaxMeta, s: bytes): Result<PaxMeta>
    decreases |s|
  {
    match ReadRecord(s)
    case End => Ok(m)
    case Bad => Err
    case Field(key, value, rest) =>
      match Apply(m, key, value)
      case Ok(m') => Parse(m', rest)
      case Err => Err
  }

  function Rec(key: Key, value: Option<bytes>): seq<Record> {
    if value.Some? then [Record(key, value.value)] else []
  }

  function NumberText(n: Option<u64>): Option<bytes> {
    if n.Some? then Some(Digits(n.value)) else None
  }

  function OptTimeText(t: Option<Time>): Option<bytes> {
    if t.Some? then Some(TimeText(t.value)) else None
  }

  /** The record of one key, if `m` has it. */
  function RecOf(key: Key, m: PaxMeta): seq<Record> {
    match key
    case Atime => Rec(key, OptTimeText(m.atime))
    case Charset => Rec(key, m.charset)
    case Comment => Rec(key, m.comment)
    case Gid => Rec(key, NumberText(m.gid))
    case Gname => Rec(key, m.gname)
    case Hdrcharset => Rec(key, m.hdrcharset)
    case Linkpath => Rec(key, m.linkpath)
    case Mtime => Rec(key, OptTimeText(m.mtime))
    case Path => Rec(key, m.path)
    case Size => Rec(key, NumberText(m.size))
    case Uid => Rec(key, NumberText(m.uid))
    case Uname => Rec(key, m.uname)
  }

  /** The records of `m`, in the order they are printed. */
  function Records(m: PaxMeta): seq<Record> {
    RecOf(Atime, m) + RecOf(Charset, m) + RecOf(Comment, m) + RecOf(Gid, m) + RecOf(Gname, m) +
    RecOf(Hdrcharset, m) + RecOf(Linkpath, m) + RecOf(Mtime, m) + RecOf(Path, m) + RecOf(Size, m) +
    RecOf(Uid, m) + RecOf(Uname, m)
  }

  function RecordsText(rs: seq<Record>): bytes {
    if rs == [] then [] else RecordText(rs[0]) + RecordsText(rs[1..])
  }

  function Stringify(m: PaxMeta): bytes {
    RecordsText(Records(m))
  }

  predicate AllFit(rs: seq<Record>) {
    forall i | 0 <= i < |rs| :: Fits(rs[i])
  }

  const LONGEST: nat := 17000

  /** A record that can be read back is short. */
  lemma RecordIsShort(r: Record)
    requires Fits(r)
    ensures |RecordText(r)| <= LONGEST
  {
    hide Digits, RecordText;
    var payload := |KeyText(r.key)| + |r.value| + 3;
    RecordTextLength(r);
    assert Pow10(5) == 100000;
    DigitsBound(payload, 5);
  }

  lemma {:induction false} RecordsAreShort(rs: seq<Record>)
    requires AllFit(rs)
    ensures |RecordsText(rs)| <= LONGEST * |rs|
  {
    hide RecordText, Fits;
    if rs != [] {
      RecordIsShort(rs[0]);
      RecordsAreShort(rs[1..]);
    }
  }

  /** What `stringify` prints is short when it can be read back. */
  lemma StringifyIsShort(m: PaxMeta)
    requires AllFit(Records(m))
    ensures |Stringify(m)| <= 12 * LONGEST
  {
    hide RecordsText, AllFit, Digits, TimeText;
    RecordsAreShort(Records(m));
    assert |Records(m)| <= 12;
  }

  // ---------------------------------------------------------------- round trip and composition

  function AssignAll(m: PaxMeta, rs: seq<Record>): Result<PaxMeta>
    decreases rs
  {
    if rs == [] then Ok(m)
    else match Assign(m, rs[0].key, rs[0].value)
      case Ok(m') => AssignAll(m', rs[1..])
      case Err => Err
  }

  lemma {:induction false} AssignAllAppend(m: PaxMeta, a: seq<Record>, b: seq<Record>)
    ensures AssignAll(m, a + b) ==
            match AssignAll(m, a) case Ok(m') => AssignAll(m', b) case Err => Err
    decreases a
  {
    if a == [] {
      assert a + b == b;
    } else {
      assert (a + b)[1..] == a[1..] + b;
      match Assign(m, a[0].key, a[0].value)
      case Ok(m') => AssignAllAppend(m', a[1..], b);
      case Err =>
    }
  }

  lemma {:induction false} RecordsTextAppend(a: seq<Record>, b: seq<Record>)
    ensures RecordsText(a + b) == RecordsText(a) + RecordsText(b)
  {
    if a == [] {
      assert a + b == b;
    } else {
      assert (a + b)[1..] == a[1..] + b;
      RecordsTextAppend(a[1..], b);
    }
  }

  lemma {:induction false} ParseRecordsText(m: PaxMeta, rs: seq<Record>)
    requires |RecordsText(rs)| < TWO_TO_63
    ensures Parse(m, RecordsText(rs)) == if AllFit(rs) then AssignAll(m, rs) else Err
    decreases rs
  {
    hide ReadRecord, RecordText, KeyOf, KeyText, Assign;
    OnlyDigitsEnd([]);
    if rs != [] {
      ReadRecordText(rs[0], RecordsText(rs[1..]));
      KeyRoundTrip(rs[0].key);
      match Assign(m, rs[0].key, rs[0].value)
      case Ok(m') => ParseRecordsText(m', rs[1..]);
      case Err =>
    }
  }

  /** `m` with the value that `n` has for one key. */
  function Merge(m: PaxMeta, key: Key, n: PaxMeta): PaxMeta {
    match key
    case Atime => m.(atime := n.atime.OrElse(m.atime))
    case Charset => m.(charset := n.charset.OrElse(m.charset))
    case Comment => m.(comment := n.comment.OrElse(m.comment))
    case Gid => m.(gid := n.gid.OrElse(m.gid))
    case Gname => m.(gname := n.gname.OrElse(m.gname))
    case Hdrcharset => m.(hdrcharset := n.hdrcharset.OrElse(m.hdrcharset))
    case Linkpath => m.(linkpath := n.linkpath.OrElse(m.linkpath))
    case Mtime => m.(mtime := n.mtime.OrElse(m.mtime))
    case Path => m.(path := n.path.OrElse(m.path))
    case Size => m.(size := n.size.OrElse(m.size))
    case Uid => m.(uid := n.uid.OrElse(m.uid))
    case Uname => m.(uname := n.uname.OrElse(m.uname))
  }

  lemma ValueRoundTrips(n: PaxMeta)
    ensures n.atime.Some? ==> ParseTime(TimeText(n.atime.value)) == n.atime
    ensures n.mtime.Some? ==> ParseTime(TimeText(n.mtime.value)) == n.mtime
    ensures n.gid.Some? ==> ParseU64(Digits(n.gid.value)) == n.gid
    ensures n.size.Some? ==> ParseU64(Digits(n.size.value)) == n.size
    ensures n.uid.Some? ==> ParseU64(Digits(n.uid.value)) == n.uid
  {
    if n.atime.Some? { ParseTimeText(n.atime.value); }
    if n.mtime.Some? { ParseTimeText(n.mtime.value); }
    if n.gid.Some? { ParseU64Digits(n.gid.value); }
    if n.size.Some? { ParseU64Digits(n.size.value); }
    if n.uid.Some? { ParseU64Digits(n.uid.value); }
  }

  lemma AssignOne(m: PaxMeta, r: Record)
    ensures AssignAll(m, [r]) == Assign(m, r.key, r.value)
    ensures AssignAll(m, []) == Ok(m)
  {
    hide Assign;
    assert [r][1..] == [];
  }

  lemma AssignRecOf(m: PaxMeta, key: Key, n: PaxMeta)
    ensures AssignAll(m, RecOf(key, n)) == Ok(Merge(m, key, n))
  {
    hide AssignAll, ParseTime, ParseU64, TimeText, Digits;
    ValueRoundTrips(n);
    var rs := RecOf(key, n);
    AssignOne(m, if rs == [] then Record(key, []) else rs[0]);
    assert rs == [] || rs == [rs[0]];
  }

  lemma AssignStep(m0: PaxMeta, done: seq<Record>, m: PaxMeta, key: Key, n: PaxMeta)
    requires AssignAll(m0, done) == Ok(m)
    ensures AssignAll(m0, done + RecOf(key, n)) == Ok(Merge(m, key, n))
  {
    AssignAllAppend(m0, done, RecOf(key, n));
    AssignRecOf(m, key, n);
  }

  /** Replaying every record of `n` puts all of `n` on top of `m0`. */
  lemma AssignRecords(m0: PaxMeta, n: PaxMeta)
    ensures AssignAll(m0, Records(n)) == Ok(m0.Override(n))
  {
    hide AssignAll, RecOf;
    var r1 := RecOf(Atime, n);
    AssignRecOf(m0, Atime, n);
    var m1 := Merge(m0, Atime, n);
    AssignStep(m0, r1, m1, Charset, n);
    var r2, m2 := r1 + RecOf(Charset, n), Merge(m1, Charset, n);
    AssignStep(m0, r2, m2, Comment, n);
    var r3, m3 := r2 + RecOf(Comment, n), Merge(m2, Comment, n);
    AssignStep(m0, r3, m3, Gid, n);
    var r4, m4 := r3 + RecOf(Gid, n), Merge(m3, Gid, n);
    AssignStep(m0, r4, m4, Gname, n);
    var r5, m5 := r4 + RecOf(Gname, n), Merge(m4, Gname, n);
    AssignStep(m0, r5, m5, Hdrcharset, n);
    var r6, m6 := r5 + RecOf(Hdrcharset, n), Merge(m5, Hdrcharset, n);
    AssignStep(m0, r6, m6, Linkpath, n);
    var r7, m7 := r6 + RecOf(Linkpath, n), Merge(m6, Linkpath, n);
    AssignStep(m0, r7, m7, Mtime, n);
    var r8, m8 := r7 + RecOf(Mtime, n), Merge(m7, Mtime, n);
    AssignStep(m0, r8, m8, Path, n);
    var r9, m9 := r8 + RecOf(Path, n), Merge(m8, Path, n);
    AssignStep(m0, r9, m9, Size, n);
    var r10, m10 := r9 + RecOf(Size, n), Merge(m9, Size, n);
    AssignStep(m0, r10, m10, Uid, n);
    var r11, m11 := r10 + RecOf(Uid, n), Merge(m10, Uid, n);
    AssignStep(m0, r11, m11, Uname, n);
  }

  /** Extended-header round trip: everything printed is recovered on top of what was known before,
      exactly when no value is 16384 bytes or longer; otherwise the whole header is refused. */
  lemma ParseStringify(m0: PaxMeta, m: PaxMeta)
    requires |Stringify(m)| < TWO_TO_63
    ensures Parse(m0, Stringify(m)) == if AllFit(Records(m)) then Ok(m0.Override(m)) else Err
  {
    ParseRecordsText(m0, Records(m));
    AssignRecords(m0, m);
  }

  /** `s` is a sequence of complete records. */
  predicate WholeRecords(s: bytes)
    decreases |s|
  {
    s == [] || (ReadRecord(s).Field? && WholeRecords(ReadRecord(s).rest))
  }

  /** Parsing a concatenation of complete record sequences is parsing one after the other. */
  lemma {:induction false} ParseAppend(m: PaxMeta, a: bytes, b: bytes)
    requires WholeRecords(a)
    ensures Parse(m, a + b) == match Parse(m, a) case Ok(m') => Parse(m', b) case Err => Err
    decreases |a|
  {
    if a == [] {
      assert a + b == b;
    } else {
      ReadRecordAppend(a, b);
      var r := ReadRecord(a);
      match Apply(m, r.key, r.value)
      case Ok(m') => ParseAppend(m', r.rest, b);
      case Err =>
    }
  }

  /** Printed records that fit are complete. */
  lemma {:induction false} RecordsTextWhole(rs: seq<Record>)
    requires |RecordsText(rs)| < TWO_TO_63 && AllFit(rs)
    ensures WholeRecords(RecordsText(rs))
  {
    if rs != [] {
      ReadRecordText(rs[0], RecordsText(rs[1..]));
      RecordsTextWhole(rs[1..]);
    }
  }

  /** A record without a value: its key, an equals sign and a line feed are all that may be left. */
  lemma BodyAlone(key: bytes, remaining: int)
    requires EQUALS !in key
    ensures ReadBody(remaining, key + [EQUALS, LINE_FEED]) ==
            if remaining == |key| + 2 then Field(key, [], []) else Bad
  {
    hide IndexOf;
    var t := key + [EQUALS, LINE_FEED];
    IndexOfPrefix(key, EQUALS, [LINE_FEED]);
    assert key + [EQUALS] + [LINE_FEED] == t;
    assert t[..|key|] == key && t[|key| + 1..] == [LINE_FEED];
  }

  const KEY_A: bytes := [97]
  const KEY_B: bytes := [98, 98, 98, 98, 98]
  const RECORD_A: bytes := [53, SPACE] + (KEY_A + [EQUALS, LINE_FEED])
  const RECORD_B: bytes := [49, 48, SPACE] + (KEY_B + [EQUALS, LINE_FEED])

  /** Reading a record behind digits that belong to nothing. */
  lemma BehindDigits(d: bytes, length: bytes, key: bytes)
    requires IsNumeral(d) && IsNumeral(length) && EQUALS !in key
    ensures var s := d + ((length + [SPACE]) + (key + [EQUALS, LINE_FEED]));
            ReadRecord(s) ==
            if Remaining(Accumulate(0, d + length), |d| + |length|) == |key| + 2 then Field(key, [], []) else Bad
  {
    hide ReadRecord, Remaining, Accumulate;
    var t := key + [EQUALS, LINE_FEED];
    assert d + ((length + [SPACE]) + t) == (d + length) + [SPACE] + t;
    ReadRecordSplit(d + length, t);
    BodyAlone(key, Remaining(Accumulate(0, d + length), |d + length|));
  }

  /** The length that digits `d` in front of the length of `RECORD_A` or `RECORD_B` make. */
  lemma LengthsBehind(d: bytes)
    requires IsNumeral(d)
    ensures var acc := Accumulate(0, d);
            && Accumulate(0, d + [53]) == Wrap(Wrap(acc * 10) + 5)
            && Accumulate(0, d + [49, 48]) == Wrap(Wrap(Wrap(Wrap(acc * 10) + 1) * 10) + 0)
  {
    AccumulateAppend(0, d, 53);
    AccumulateAppend(0, d, 49);
    AccumulateAppend(0, d + [49], 48);
    assert d + [49] + [48] == d + [49, 48];
  }

  /** Both lengths cannot come out right at once. */
  lemma NotBoth(acc: u64, n: nat)
    requires 0 < n < TWO_TO_63
    ensures Remaining(Wrap(Wrap(acc * 10) + 5), n + 1) != 3 ||
            Remaining(Wrap(Wrap(Wrap(Wrap(acc * 10) + 1) * 10) + 0), n + 2) != 7
  {
    hide Wrap, Remaining;
    NoMultiples(acc, n);
    WrapAdd(acc * 10, 5);
    WrapAdd(acc * 10, 1);
    WrapAdd((acc * 10 + 1) * 10, 0);
    WrapMultiple(acc * 10 + 1, 10);
    RemainingWraps(acc * 10 + 5, n + 1, 3);
    RemainingWraps((acc * 10 + 1) * 10, n + 2, 7);
  }

  lemma NoMultiples(acc: int, n: nat)
    requires 0 < n < TWO_TO_63
    ensures (acc * 10 + 5 - (n + 1) - 1 - 3) % TWO_TO_64 != 0 ||
            ((acc * 10 + 1) * 10 - (n + 2) - 1 - 7) % TWO_TO_64 != 0
  {
    var a, b := acc * 10 + 5 - (n + 1) - 1 - 3, (acc * 10 + 1) * 10 - (n + 2) - 1 - 7;
    assert 9 * n == b - 10 * a;
    NineTimes(n, b / TWO_TO_64 - 10 * (a / TWO_TO_64));
  }

  /** 9 and 2^64 have no factor in common. */
  lemma NineTimes(n: nat, q: int)
    requires 0 < n < TWO_TO_63
    ensures 9 * n != q * TWO_TO_64
  {
    if q <= 0 {
      assert q * TWO_TO_64 <= 0;
    } else if q >= 5 {
      assert q * TWO_TO_64 >= 5 * TWO_TO_64;
    }
  }

  lemma RemainingWraps(x: int, n: nat, r: nat)
    requires r < 10
    ensures Remaining(Wrap(x), n) == r ==> (x - n - 1 - r) % TWO_TO_64 == 0
  {
  }

  /** Digits that are left over change how one of the two records is read. */
  lemma DigitsDoNotCompose(m: PaxMeta, d: bytes) returns (b: bytes)
    requires IsNumeral(d) && 0 < |d| < TWO_TO_63
    ensures Parse(m, b) == Ok(m) && Parse(m, d + b) == Err
  {
    hide ReadRecord, Remaining, Accumulate, Wrap;
    LengthsBehind(d);
    NotBoth(Accumulate(0, d), |d|);
    BehindDigits(d, [53], KEY_A);
    BehindDigits(d, [49, 48], KEY_B);
    RecordsAlone(m);
    assert [53, SPACE] == [53] + [SPACE] && [49, 48, SPACE] == [49, 48] + [SPACE];
    b := if Remaining(Accumulate(0, d + [53]), |d| + 1) != 3 then RECORD_A else RECORD_B;
  }

  lemma RecordsAlone(m: PaxMeta)
    ensures Parse(m, RECORD_A) == Ok(m) && Parse(m, RECORD_B) == Ok(m)
  {
    hide ReadRecord;
    RecordsRead();
    OnlyDigitsEnd([]);
    UnknownKeys();
  }

  lemma RecordsRead()
    ensures ReadRecord(RECORD_A) == Field(KEY_A, [], []) && ReadRecord(RECORD_B) == Field(KEY_B, [], [])
  {
    hide ReadRecord, Accumulate;
    LengthsBehind([]);
    AccumulateNothing(0);
    assert [] + [53] == [53] && [] + [49, 48] == [49, 48];
    RecordARead();
    RecordBRead();
  }

  lemma RecordARead()
    requires Accumulate(0, [53]) == 5
    ensures ReadRecord(RECORD_A) == Field(KEY_A, [], [])
  {
    hide ReadRecord, Accumulate;
    BehindDigits([], [53], KEY_A);
    assert [] + [53] == [53] && [53, SPACE] == [53] + [SPACE] && [] + RECORD_A == RECORD_A;
  }

  lemma RecordBRead()
    requires Accumulate(0, [49, 48]) == 10
    ensures ReadRecord(RECORD_B) == Field(KEY_B, [], [])
  {
    hide ReadRecord, Accumulate;
    BehindDigits([], [49, 48], KEY_B);
    assert [] + [49, 48] == [49, 48] && [49, 48, SPACE] == [49, 48] + [SPACE] && [] + RECORD_B == RECORD_B;
  }

  lemma UnknownKeys()
    ensures KeyOf(KEY_A) == None && KeyOf(KEY_B) == None
  {
  }

  lemma {:induction false} PartialDoesNotCompose(m: PaxMeta, a: bytes) returns (b: bytes)
    requires |a| < TWO_TO_63 && Parse(m, a).Ok? && !WholeRecords(a)
    ensures Parse(m, a + b) != Parse(Parse(m, a).value, b)
    decreases |a|
  {
    hide Apply;
    var r := ReadRecord(a);
    if r.Field? {
      b := PartialDoesNotCompose(Apply(m, r.key, r.value).value, r.rest);
      ReadRecordAppend(a, b);
    } else {
      b := DigitsDoNotCompose(m, a);
    }
  }

  /** Text that parses can be split off exactly when it ends with a complete record: only then is parsing what
      follows the same as parsing on. */
  lemma ComposesExactly(m: PaxMeta, a: bytes)
    requires |a| < TWO_TO_63 && Parse(m, a).Ok?
    ensures WholeRecords(a) <==> forall b :: Parse(m, a + b) == Parse(Parse(m, a).value, b)
  {
    hide Parse, WholeRecords;
    if WholeRecords(a) {
      forall b
        ensures Parse(m, a + b) == Parse(Parse(m, a).value, b)
      {
        ParseAppend(m, a, b);
      }
    } else {
      var b := PartialDoesNotCompose(m, a);
    }
  }

  const ONE: bytes := [49]
  const SPLIT_TAIL: bytes := [49, 32, 112, 97, 116, 104, 61, 97, 97, 10]

  lemma SplitRecordText()
    ensures RecordText(Record(Path, [97, 97])) == ONE + SPLIT_TAIL
  {
    assert Digits(9) == [57];
    assert Digits(10) == [49, 48];
    assert Digits(11) == [49, 49];
  }

  lemma SplitTailRefused()
    ensures ReadRecord(SPLIT_TAIL) == Bad
  {
    hide ReadRecord, ReadBody, IndexOf, Accumulate, Remaining;
    var t := SPLIT_TAIL[2..];
    assert SPLIT_TAIL == ONE + [SPACE] + t;
    ReadRecordSplit(ONE, t);
    AccumulateOne();
    NothingLeft(t);
  }

  lemma AccumulateOne()
    ensures Accumulate(0, ONE) == 1
  {
    assert ONE[1..] == [];
  }

  /** A length of 1 is used up by its own digit. */
  lemma NothingLeft(t: bytes)
    ensures ReadBody(Remaining(1, 1), t) == Bad
  {
  }

  /** A split inside a length does not compose: "1" parses as nothing, "1 path=aa\n" is refused, yet
      their concatenation is one good record. */
  lemma SplitLengthDoesNotCompose()
    ensures Parse(EMPTY, ONE) == Ok(EMPTY) && Parse(EMPTY, SPLIT_TAIL) == Err
    ensures Parse(EMPTY, ONE + SPLIT_TAIL) == Ok(EMPTY.(path := Some([97, 97])))
  {
    hide ReadRecord, RecordText, KeyOf;
    var r := Record(Path, [97, 97]);
    SplitRecordText();
    SplitTailRefused();
    assert ReadRecord(ONE) == End && ReadRecord([]) == End by {
      OnlyDigitsEnd(ONE);
      OnlyDigitsEnd([]);
    }
    ReadRecordText(r, []);
    assert RecordText(r) + [] == RecordText(r);
    KeyRoundTrip(Path);
  }

  lemma OnlyDigitsEnd(s: bytes)
    requires IsNumeral(s)
    ensures ReadRecord(s) == End
  {
    DigitRunPrefix(s, []);
    assert s + [] == s;
  }
}
