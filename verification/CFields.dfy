/** Which field of the metadata a record sets when the C parser reads it (scar-c/src/pax-syntax.c). */
module CFields {
  import opened Bytes
  import opened Decimal
  import opened PaxRecords
  import opened CPaxSyntax

  // ---------------------------------------------------------------- what a record means

  predicate IsTime(k: Key) {
    k == Atime || k == Mtime
  }

  predicate IsNumber(k: Key) {
    k == Gid || k == Size || k == Uid
  }

  /** No character behind a point may be anything but a digit. */
  predicate DigitsBehindPoint(v: bytes) {
    forall i, j | 0 <= i < j < |v| && v[i] == '.' as byte :: '0' as byte <= v[j] <= '9' as byte
  }

  /** A value is not empty, and fits the kind of its field. */
  predicate Accepted(r: Record) {
    && r.value != []
    && (IsTime(r.key) ==> DigitsBehindPoint(r.value))
    && (IsNumber(r.key) ==> IsNumeral(r.value))
  }

  function Meaning(r: Record): CValue
    requires Accepted(r)
  {
    if IsTime(r.key) then Seconds(r.value)
    else if IsNumber(r.key) then Number(Wrap(Value(r.value)))
    else Text(UpToNul(r.value))
  }

  lemma FractionOkIs(w: bytes)
    ensures FractionOk(w) <==> DigitsBehindPoint(w)
  {
    hide IndexOf;
    var e := IndexOf(w, DOT);
    if DigitsBehindPoint(w) {
      forall i | e < i < |w|
        ensures IsDigit(w[i])
      {
        assert w[e] == DOT;
      }
    }
  }

  lemma DropSign(v: bytes)
    requires v != [] && v[0] != '.' as byte
    ensures DigitsBehindPoint(v[1..]) <==> DigitsBehindPoint(v)
  {
    var w := v[1..];
    assert forall i | 0 <= i < |w| :: w[i] == v[i + 1];
    if DigitsBehindPoint(w) {
      forall i, j | 0 <= i < j < |v| && v[i] == '.' as byte
        ensures '0' as byte <= v[j] <= '9' as byte
      {
        assert w[i - 1] == v[i] && w[j - 1] == v[j];
      }
    }
  }

  lemma TimeOkIs(v: bytes)
    ensures TimeOk(v) <==> DigitsBehindPoint(v)
  {
    hide FractionOk, DigitsBehindPoint;
    if v != [] && (v[0] == MINUS || v[0] == PLUS) {
      FractionOkIs(v[1..]);
      DropSign(v);
    } else {
      FractionOkIs(v);
    }
  }

  /** A record that is accepted sets its own field and no other; one that is not is refused. */
  lemma AssignsItsField(m: CMeta, r: Record)
    requires r.value != []
    ensures CAssignRecord(m, r) == if Accepted(r) then Some(m[r.key := Meaning(r)]) else None
  {
    hide KeyOf, KeyText, TimeOk, DigitsBehindPoint, Accumulate, UpToNul, Wrap;
    KeyRoundTrip(r.key);
    NoNulInKey(r.key);
    TimeOkIs(r.value);
    AllDigits(r.value);
    if IsNumeral(r.value) {
      AccumulateMeans(r.value);
    }
  }

  lemma NoNulInKey(k: Key)
    ensures UpToNul(KeyText(k)) == KeyText(k)
  {
    hide UpToNul;
    UpToNulWhole(KeyText(k));
  }

  /** A name counts up to its first NUL. */
  lemma NameUpToNul(m: CMeta, name: bytes, k: Key, value: bytes)
    requires UpToNul(name) == KeyText(k)
    ensures CAssign(m, name, value) == CAssignRecord(m, Record(k, value))
  {
    hide KeyText, TimeOk, DigitRun, Accumulate, KeyOf, UpToNul;
    KeyRoundTrip(k);
    NoNulInKey(k);
  }

  /** A record with a name that is not known is skipped. */
  lemma OtherNamesSkipped(m: CMeta, name: bytes, value: bytes)
    requires forall k: Key :: UpToNul(name) != KeyText(k)
    ensures CAssign(m, name, value) == Some(m)
  {
    hide KeyText, TimeOk, DigitRun, Accumulate, KeyOf, UpToNul;
    if KeyOf(UpToNul(name)).Some? {
      KeyOfIs(UpToNul(name));
    }
  }

  // ---------------------------------------------------------------- any records

  ghost predicate AllAccepted(rs: seq<Record>) {
    forall i | 0 <= i < |rs| :: Accepted(rs[i])
  }

  /** The last record of a key. */
  function LastOf(rs: seq<Record>, k: Key): (r: Option<Record>)
    ensures r.Some? ==> r.value in rs && r.value.key == k
    ensures r.None? ==> forall i | 0 <= i < |rs| :: rs[i].key != k
  {
    if rs == [] then None
    else if LastOf(rs[1..], k).Some? then LastOf(rs[1..], k)
    else if rs[0].key == k then Some(rs[0])
    else None
  }

  /** `k` has the given value, or what it had in `m` when there is none. */
  predicate Holds(r: CMeta, m: CMeta, k: Key, value: Option<CValue>) {
    match value
    case Some(v) => k in r && r[k] == v
    case None => (k in r <==> k in m) && (k in r ==> r[k] == m[k])
  }

  function MeaningOf(r: Option<Record>): Option<CValue>
    requires r.Some? ==> Accepted(r.value)
  {
    if r.Some? then Some(Meaning(r.value)) else None
  }

  lemma {:induction false} AssignsAll(m: CMeta, rs: seq<Record>)
    requires AllAccepted(rs)
    ensures CAssignAll(m, rs).Some?
    ensures forall k :: Holds(CAssignAll(m, rs).value, m, k, MeaningOf(LastOf(rs, k)))
    decreases rs
  {
    hide Accepted, Meaning, CAssignRecord;
    if rs != [] {
      AssignsItsField(m, rs[0]) by { ValueThere(rs[0]); }
      AssignsAll(m[rs[0].key := Meaning(rs[0])], rs[1..]);
    }
  }

  lemma ValueThere(r: Record)
    ensures Accepted(r) ==> r.value != []
  {
  }

  lemma {:induction false} RefusesAll(m: CMeta, rs: seq<Record>)
    requires NoneEmpty(rs) && !AllAccepted(rs)
    ensures CAssignAll(m, rs).None?
    decreases rs
  {
    hide Accepted, Meaning, CAssignRecord;
    AssignsItsField(m, rs[0]);
    if Accepted(rs[0]) {
      assert rs == [rs[0]] + rs[1..];
      RefusesAll(m[rs[0].key := Meaning(rs[0])], rs[1..]);
    }
  }

  /** What printed records set, for any list of them: they are refused exactly when one is not accepted; otherwise
      every key has the value of its last record, or what it had before when it has no record. */
  lemma LastRecordWins(m: CMeta, rs: seq<Record>)
    requires |RecordsText(rs)| < TWO_TO_63
    ensures CParse(m, RecordsText(rs)).Some? <==> AllAccepted(rs)
    ensures AllAccepted(rs) ==>
              forall k :: Holds(CParse(m, RecordsText(rs)).value, m, k, MeaningOf(LastOf(rs, k)))
  {
    hide CParse, CAssignAll, RecordsText, Meaning, LastOf, Holds;
    CParseRecordsText(m, rs);
    if AllAccepted(rs) {
      AssignsAll(m, rs);
    } else if NoneEmpty(rs) {
      RefusesAll(m, rs);
    }
  }

  // ---------------------------------------------------------------- the records of an extended header

  lemma {:induction false} LastOfAppend(a: seq<Record>, b: seq<Record>, k: Key)
    ensures LastOf(a + b, k) == if LastOf(b, k).Some? then LastOf(b, k) else LastOf(a, k)
  {
    if a == [] {
      assert a + b == b;
    } else {
      assert (a + b)[1..] == a[1..] + b;
      LastOfAppend(a[1..], b, k);
    }
  }

  function First(rs: seq<Record>): Option<Record> {
    if rs == [] then None else Some(rs[0])
  }

  /** The record of one key is the last of that key, whatever stands in front of it. */
  lemma LastStep(front: seq<Record>, key: Key, n: PaxMeta, k: Key)
    ensures LastOf(front + RecOf(key, n), k) ==
            if key == k && RecOf(key, n) != [] then First(RecOf(key, n)) else LastOf(front, k)
  {
    LastOfAppend(front, RecOf(key, n), k);
    RecOfShape(key, n);
    var rs := RecOf(key, n);
    assert rs != [] ==> rs[1..] == [];
  }

  lemma RecOfShape(key: Key, n: PaxMeta)
    ensures |RecOf(key, n)| <= 1 && (RecOf(key, n) != [] ==> RecOf(key, n)[0].key == key)
  {
  }

  lemma LastOfRecords(n: PaxMeta, k: Key)
    ensures LastOf(Records(n), k) == First(RecOf(k, n))
  {
    hide LastOf, RecOf;
    var r0 := RecOf(Atime, n);
    assert [] + r0 == r0;
    LastStep([], Atime, n, k);
    LastStep(r0, Charset, n, k);
    var r1 := r0 + RecOf(Charset, n);
    LastStep(r1, Comment, n, k);
    var r2 := r1 + RecOf(Comment, n);
    LastStep(r2, Gid, n, k);
    var r3 := r2 + RecOf(Gid, n);
    LastStep(r3, Gname, n, k);
    var r4 := r3 + RecOf(Gname, n);
    LastStep(r4, Hdrcharset, n, k);
    var r5 := r4 + RecOf(Hdrcharset, n);
    LastStep(r5, Linkpath, n, k);
    var r6 := r5 + RecOf(Linkpath, n);
    LastStep(r6, Mtime, n, k);
    var r7 := r6 + RecOf(Mtime, n);
    LastStep(r7, Path, n, k);
    var r8 := r7 + RecOf(Path, n);
    LastStep(r8, Size, n, k);
    var r9 := r8 + RecOf(Size, n);
    LastStep(r9, Uid, n, k);
    var r10 := r9 + RecOf(Uid, n);
    LastStep(r10, Uname, n, k);
    assert LastOf([], k) == None by { LastOfNothing(k); }
  }

  lemma LastOfNothing(k: Key)
    ensures LastOf([], k) == None
  {
  }

  /** The C parser refuses a header with an empty text. */
  predicate NoEmptyText(n: PaxMeta) {
    && n.charset != Some([]) && n.comment != Some([]) && n.gname != Some([]) && n.hdrcharset != Some([])
    && n.linkpath != Some([]) && n.path != Some([]) && n.uname != Some([])
  }

  function TimeOf(t: Option<Time>): Option<CValue> {
    if t.Some? then Some(Seconds(TimeText(t.value))) else None
  }

  function NumberOf(n: Option<u64>): Option<CValue> {
    if n.Some? then Some(Number(n.value)) else None
  }

  function TextOf(s: Option<bytes>): Option<CValue> {
    if s.Some? then Some(Text(UpToNul(s.value))) else None
  }

  lemma TimeAccepted(t: Time)
    ensures TimeText(t) != [] && DigitsBehindPoint(TimeText(t))
  {
    hide Digits;
    var s := TimeText(t);
    var w := if t.negative then 1 else 0;
    var e := w + |Digits(t.whole)|;
    assert forall i | w <= i < e :: s[i] == Digits(t.whole)[i - w];
    assert forall i | e < i < |s| :: s[i] == t.fraction[i - e - 1];
  }

  lemma NumberAccepted(n: u64)
    ensures IsNumeral(Digits(n)) && Digits(n) != [] && Wrap(Value(Digits(n))) == n
  {
    ValueDigits(n);
    WrapSmall(n);
  }

  /** The one record of a key is accepted, if its text is not empty. */
  lemma RecordAccepted(n: PaxMeta, k: Key)
    requires RecOf(k, n) != []
    ensures RecOf(k, n)[0].value != [] ==> Accepted(RecOf(k, n)[0])
  {
    hide TimeText, Digits, Value, DigitsBehindPoint, IsNumeral, Wrap, UpToNul;
    if k.Atime? { TimeAccepted(n.atime.value); }
    if k.Mtime? { TimeAccepted(n.mtime.value); }
    if k.Gid? { NumberAccepted(n.gid.value); }
    if k.Size? { NumberAccepted(n.size.value); }
    if k.Uid? { NumberAccepted(n.uid.value); }
  }

  predicate EmptyAt(n: PaxMeta, k: Key) {
    RecOf(k, n) != [] && RecOf(k, n)[0].value == []
  }

  lemma EmptyTexts(n: PaxMeta)
    ensures NoEmptyText(n) <==> forall k :: !EmptyAt(n, k)
  {
    hide TimeText, Digits;
    forall k
      ensures EmptyAt(n, k) ==> !NoEmptyText(n)
    {
      if RecOf(k, n) != [] { RecordAccepted(n, k); }
      if k.Atime? && n.atime.Some? { TimeAccepted(n.atime.value); }
      if k.Mtime? && n.mtime.Some? { TimeAccepted(n.mtime.value); }
    }
    assert n.charset == Some([]) ==> EmptyAt(n, Charset);
    assert n.comment == Some([]) ==> EmptyAt(n, Comment);
    assert n.gname == Some([]) ==> EmptyAt(n, Gname);
    assert n.hdrcharset == Some([]) ==> EmptyAt(n, Hdrcharset);
    assert n.linkpath == Some([]) ==> EmptyAt(n, Linkpath);
    assert n.path == Some([]) ==> EmptyAt(n, Path);
    assert n.uname == Some([]) ==> EmptyAt(n, Uname);
  }

  lemma InRecords(n: PaxMeta, r: Record)
    ensures r in Records(n) ==> r in RecOf(r.key, n)
  {
    hide RecOf;
    forall k: Key
      ensures r in RecOf(k, n) ==> r.key == k
    {
      RecOfShape(k, n);
    }
  }

  lemma AcceptedExactly(n: PaxMeta)
    ensures AllAccepted(Records(n)) <==> NoEmptyText(n)
  {
    hide Records, RecOf, Accepted, NoEmptyText;
    var rs := Records(n);
    EmptyTexts(n);
    if NoEmptyText(n) {
      forall i | 0 <= i < |rs|
        ensures Accepted(rs[i])
      {
        InRecords(n, rs[i]);
        RecOfShape(rs[i].key, n);
        RecordAccepted(n, rs[i].key);
        assert !EmptyAt(n, rs[i].key);
      }
    } else {
      var k :| EmptyAt(n, k);
      LastOfRecords(n, k);
      ValueThere(RecOf(k, n)[0]);
    }
  }

  /** What the one record of a key means. */
  lemma RecordMeans(n: PaxMeta, k: Key)
    requires NoEmptyText(n)
    ensures var r := First(RecOf(k, n));
            && (r.Some? ==> Accepted(r.value))
            && MeaningOf(r) ==
               match k
               case Atime => TimeOf(n.atime)
               case Charset => TextOf(n.charset)
               case Comment => TextOf(n.comment)
               case Gid => NumberOf(n.gid)
               case Gname => TextOf(n.gname)
               case Hdrcharset => TextOf(n.hdrcharset)
               case Linkpath => TextOf(n.linkpath)
               case Mtime => TimeOf(n.mtime)
               case Path => TextOf(n.path)
               case Size => NumberOf(n.size)
               case Uid => NumberOf(n.uid)
               case Uname => TextOf(n.uname)
  {
    hide TimeText, Digits, Value, DigitsBehindPoint, UpToNul, Wrap, Accepted;
    EmptyTexts(n);
    if RecOf(k, n) != [] {
      assert !EmptyAt(n, k);
      RecordAccepted(n, k);
      if k.Gid? { NumberAccepted(n.gid.value); }
      if k.Size? { NumberAccepted(n.size.value); }
      if k.Uid? { NumberAccepted(n.uid.value); }
    }
  }

  /** What a printed extended header sets: every field that it has, to its time text, its number or its text up to a
      NUL, and no other. The C parser refuses it exactly when one of its texts is empty. */
  lemma SetsEachField(m: CMeta, n: PaxMeta)
    requires |Stringify(n)| < TWO_TO_63
    ensures CParse(m, Stringify(n)).Some? <==> NoEmptyText(n)
    ensures NoEmptyText(n) ==>
              var r := CParse(m, Stringify(n)).value;
              && Holds(r, m, Atime, TimeOf(n.atime))
              && Holds(r, m, Charset, TextOf(n.charset))
              && Holds(r, m, Comment, TextOf(n.comment))
              && Holds(r, m, Gid, NumberOf(n.gid))
              && Holds(r, m, Gname, TextOf(n.gname))
              && Holds(r, m, Hdrcharset, TextOf(n.hdrcharset))
              && Holds(r, m, Linkpath, TextOf(n.linkpath))
              && Holds(r, m, Mtime, TimeOf(n.mtime))
              && Holds(r, m, Path, TextOf(n.path))
              && Holds(r, m, Size, NumberOf(n.size))
              && Holds(r, m, Uid, NumberOf(n.uid))
              && Holds(r, m, Uname, TextOf(n.uname))
  {
    hide CParse, Records, RecOf, Holds, NoEmptyText, MeaningOf, First, AllAccepted;
    hide TimeOf, NumberOf, TextOf, RecordsText, LastOf;
    var rs := Records(n);
    AcceptedExactly(n);
    LastRecordWins(m, rs);
    if NoEmptyText(n) {
      var r := CParse(m, RecordsText(rs)).value;
      forall k: Key
        ensures First(RecOf(k, n)).Some? ==> Accepted(First(RecOf(k, n)).value)
        ensures Holds(r, m, k, MeaningOf(First(RecOf(k, n))))
      {
        LastOfRecords(n, k);
        RecordMeans(n, k);
      }
      RecordMeans(n, Atime);
      RecordMeans(n, Charset);
      RecordMeans(n, Comment);
      RecordMeans(n, Gid);
      RecordMeans(n, Gname);
      RecordMeans(n, Hdrcharset);
      RecordMeans(n, Linkpath);
      RecordMeans(n, Mtime);
      RecordMeans(n, Path);
      RecordMeans(n, Size);
      RecordMeans(n, Uid);
      RecordMeans(n, Uname);
    }
  }
}
