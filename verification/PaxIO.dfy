/** The reading and writing loops of pax headers and content, proved against the functions of
    `PaxRecords` and `PaxHeader` (scar-rs/scar/src/pax.rs). */
module PaxIO {
  import opened Bytes
  import opened Decimal
  import opened PaxRecords
  import opened Ustar
  import opened PaxHeader
  import opened Cursor

  // ---------------------------------------------------------------- writing records

  /** `write_pax_bytes` */
  method WritePaxBytes(w: bytes, key: Key, val: bytes) returns (w': bytes)
    ensures w' == w + RecordText(Record(key, val))
  {
    hide Digits, KeyText;
    var size := 1 + |KeyText(key)| + 1 + |val| + 1;
    var digitCount := Log10Ceil(size);
    var corrected := Log10Ceil(size + digitCount);
    if corrected > digitCount {
      digitCount := digitCount + 1;
    }
    w' := w + (Digits(digitCount + size) + [SPACE] + KeyText(key) + [EQUALS] + val + [LINE_FEED]);
  }

  method WriteOptional(w: bytes, key: Key, val: Option<bytes>, ghost done: seq<Record>) returns (w': bytes)
    requires w == RecordsText(done)
    ensures w' == RecordsText(done + Rec(key, val))
  {
    RecordsTextAppend(done, Rec(key, val));
    if val.Some? {
      w' := WritePaxBytes(w, key, val.value);
      RecordsTextOne(Record(key, val.value));
    } else {
      w' := w;
    }
  }

  lemma RecordsTextOne(r: Record)
    ensures RecordsText([r]) == RecordText(r)
  {
    assert [r][1..] == [];
  }

  /** `PaxMeta::stringify`; `write_header` prints its extended fields the same way. */
  method StringifyMeta(m: PaxMeta) returns (s: bytes)
    ensures s == Stringify(m)
  {
    hide RecordsText;
    s := [];
    RecordsTextNone();
    s := WriteOptional(s, Atime, OptTimeText(m.atime), []);
    ghost var r1 := RecOf(Atime, m);
    assert [] + r1 == r1;
    s := WriteOptional(s, Charset, m.charset, r1);
    ghost var r2 := r1 + RecOf(Charset, m);
    s := WriteOptional(s, Comment, m.comment, r2);
    ghost var r3 := r2 + RecOf(Comment, m);
    s := WriteOptional(s, Gid, NumberText(m.gid), r3);
    ghost var r4 := r3 + RecOf(Gid, m);
    s := WriteOptional(s, Gname, m.gname, r4);
    ghost var r5 := r4 + RecOf(Gname, m);
    s := WriteOptional(s, Hdrcharset, m.hdrcharset, r5);
    ghost var r6 := r5 + RecOf(Hdrcharset, m);
    s := WriteOptional(s, Linkpath, m.linkpath, r6);
    ghost var r7 := r6 + RecOf(Linkpath, m);
    s := WriteOptional(s, Mtime, OptTimeText(m.mtime), r7);
    ghost var r8 := r7 + RecOf(Mtime, m);
    s := WriteOptional(s, Path, m.path, r8);
    ghost var r9 := r8 + RecOf(Path, m);
    s := WriteOptional(s, Size, NumberText(m.size), r9);
    ghost var r10 := r9 + RecOf(Size, m);
    s := WriteOptional(s, Uid, NumberText(m.uid), r10);
    ghost var r11 := r10 + RecOf(Uid, m);
    s := WriteOptional(s, Uname, m.uname, r11);
  }

  lemma RecordsTextNone()
    ensures RecordsText([]) == []
  {
  }

  // ---------------------------------------------------------------- writing header blocks

  /** `write_header_block`, up to handing the block to the writer. */
  method SealBlock(block: array<byte>)
    requires block.Length == BLOCK_SIZE
    modifies block
    ensures block[..] == Seal(old(block[..]))
  {
    hide Sum, Put, OctalField;
    BlockWriteStr(block, UST_CHKSUM, CHKSUM_BLANK);
    BlockWriteStr(block, UST_MAGIC, USTAR_MAGIC);
    BlockWriteStr(block, UST_VERSION, USTAR_VERSION);
    var sum := SumBlock(block);
    BlockWriteOctal(block, UST_CHKSUM, sum);
  }

  method NewBlock() returns (block: array<byte>)
    ensures fresh(block) && block.Length == BLOCK_SIZE && block[..] == ZeroBlock()
  {
    block := new byte[BLOCK_SIZE](_ => 0);
    assert block[..] == ZeroBlock();
  }

  /** The ustar block that `write_header` ends with. */
  method BuildHeaderBlock(meta: Metadata) returns (block: array<byte>)
    ensures fresh(block) && block.Length == BLOCK_SIZE && block[..] == HeaderBlock(meta)
  {
    hide Put, OctalField, Seal, FloorSeconds, TypeChar;
    block := NewBlock();
    BlockWriteStr(block, UST_NAME, meta.path);
    ghost var b0 := block[..];
    BlockWriteOctal(block, UST_MODE, meta.mode);
    BlockWriteOctal(block, UST_UID, meta.uid);
    BlockWriteOctal(block, UST_GID, meta.gid);
    BlockWriteOctal(block, UST_SIZE, meta.size);
    BlockWriteOctal(block, UST_MTIME, FloorSeconds(meta.mtime));
    assert block[..] == FillNumbers(b0, meta);
    ghost var b1 := block[..];
    BlockWriteStr(block, UST_TYPEFLAG, [TypeChar(meta.typeflag)]);
    BlockWriteStr(block, UST_LINKNAME, meta.linkpath);
    BlockWriteStr(block, UST_UNAME, meta.uname);
    BlockWriteStr(block, UST_GNAME, meta.gname);
    BlockWriteOctal(block, UST_DEVMAJOR, meta.devmajor);
    BlockWriteOctal(block, UST_DEVMINOR, meta.devminor);
    assert block[..] == FillRest(b1, meta);
    SealBlock(block);
  }

  /** The header block of `write_raw_entry`. */
  method BuildRawBlock(typeflag: byte, length: nat) returns (block: array<byte>)
    ensures fresh(block) && block.Length == BLOCK_SIZE
    ensures block[..] == Seal(PutOctal(Put(ZeroBlock(), UST_TYPEFLAG.start, [typeflag]), UST_SIZE, length))
  {
    hide Put, OctalField, Seal;
    block := NewBlock();
    BlockWriteStr(block, UST_TYPEFLAG, [typeflag]);
    BlockWriteOctal(block, UST_SIZE, length);
    SealBlock(block);
  }

  // ---------------------------------------------------------------- parsing records

  lemma WrapSignedAdd(x: int, d: int)
    ensures WrapSigned(WrapSigned(x) + d) == WrapSigned(x + d)
  {
    WrapAdd(x, d);
    WrapShift(x % TWO_TO_64 + d, -1);
  }

  lemma SignedShift(x: int, k: int)
    ensures WrapSigned(x + k * TWO_TO_64) == WrapSigned(x)
  {
    WrapShift(x, k);
  }

  lemma SignedIs(a: u64)
    ensures WrapSigned(a) == if a < TWO_TO_63 then a else a - TWO_TO_64
  {
  }

  lemma WrapSignedTimes(a: u64)
    ensures WrapSigned(WrapSigned(a) * 10) == WrapSigned(a * 10)
  {
    hide WrapSigned;
    SignedIs(a);
    SignedShift(a * 10, -10);
  }

  lemma SignedStep(a: u64, d: nat)
    requires d < 10
    ensures WrapSigned(WrapSigned(WrapSigned(a) * 10) + d) == WrapSigned(Wrap(Wrap(a * 10) + d))
  {
    WrapSignedTimes(a);
    WrapSignedAdd(a * 10, d);
    WrapAdd(a * 10, d);
    assert WrapSigned(Wrap(a * 10 + d)) == WrapSigned(a * 10 + d);
  }

  method ParseRecord(r: bytes) returns (res: RecordResult)
    ensures res == ReadRecord(r)
  {
    hide ReadBody, Accumulate, DigitRun, WrapSigned, Wrap;
    var size, numDigits: nat := WrapSigned(0), 0;
    AccumulateNothing(0);
    var t := r;
    while true
      invariant numDigits <= |r| && t == r[numDigits..]
      invariant forall i | 0 <= i < numDigits :: IsDigit(r[i])
      invariant size == WrapSigned(Accumulate(0, r[..numDigits]))
      decreases |t|
    {
      if t == [] {
        DigitRunIs(r, numDigits);
        return End;
      }
      var ch := t[0];
      t := t[1..];
      if ch == SPACE {
        break;
      } else if ch < DIGIT_0 || ch > DIGIT_9 {
        DigitRunIs(r, numDigits);
        return Bad;
      }
      SignedStep(Accumulate(0, r[..numDigits]), DigitValue(ch));
      AccumulateAppend(0, r[..numDigits], ch);
      assert r[..numDigits + 1] == r[..numDigits] + [ch];
      size := WrapSigned(size * 10);
      size := WrapSigned(size + DigitValue(ch));
      numDigits := numDigits + 1;
    }
    DigitRunIs(r, numDigits);
    res := ParseBody(WrapSigned(size - numDigits - 1), t);
  }

  method ParseBody(remaining: int, t: bytes) returns (res: RecordResult)
    ensures res == ReadBody(remaining, t)
  {
    hide IndexOf;
    var left, key, u := remaining, [], t;
    while true
      invariant |key| <= |t| && key == t[..|key|] && u == t[|key|..]
      invariant EQUALS !in key
      invariant left == remaining - |key| && (key != [] ==> left >= 0)
      decreases |u|
    {
      if left < 1 {
        IndexOfAtLeast(t, EQUALS, |key|);
        return Bad;
      }
      if u == [] {
        IndexOfAtLeast(t, EQUALS, |key|);
        return Bad;
      }
      left := left - 1;
      var ch := u[0];
      u := u[1..];
      if ch == EQUALS {
        break;
      }
      key := key + [ch];
    }
    IndexOfAtLeast(t, EQUALS, |key|);
    assert u == t[|key| + 1..];
    res := ParseValue(left, key, u);
  }

  /** The value of a record, of which `left` bytes are left, and its line feed. */
  method ParseValue(left: int, key: bytes, v: bytes) returns (res: RecordResult)
    ensures res == if left > MAX_REMAINING || left < 1 || |v| < left || v[left - 1] != LINE_FEED then Bad
                   else RecordResult.Field(key, v[..left - 1], v[left..])
  {
    if left > MAX_REMAINING {
      return Bad;
    } else if left < 1 {
      return Bad;
    }
    if |v| < left - 1 {
      return Bad;
    }
    var val := v[..left - 1];
    var u := v[left - 1..];
    if u == [] {
      return Bad;
    }
    if u[0] != LINE_FEED {
      return Bad;
    }
    return RecordResult.Field(key, val, u[1..]);
  }

  /** `PaxMeta::parse` */
  method ParseMeta(m: PaxMeta, content: bytes) returns (res: Result<PaxMeta>)
    ensures res == Parse(m, content)
  {
    hide ReadRecord, KeyOf, Assign;
    var meta, r := m, content;
    while true
      invariant Parse(meta, r) == Parse(m, content)
      decreases |r|
    {
      var rec := ParseRecord(r);
      match rec
      case End =>
        return Ok(meta);
      case Bad =>
        return Err;
      case Field(key, value, rest) =>
        match Apply(meta, key, value) {
          case Ok(meta') => meta := meta';
          case Err => return Err;
        }
        r := rest;
    }
  }

  // ---------------------------------------------------------------- reading headers and content

  /** `read_content`, collecting what would be written. */
  method ReadContentFrom(r: Decoder, size: nat) returns (content: Option<bytes>)
    requires r.Valid() && r.InSync()
    modifies r, r.file
    ensures r.Valid() && r.InSync()
    ensures match ReadContent(old(r.Remaining()), size)
            case None => content == None
            case Some((data, rest)) => content == Some(data) && r.Remaining() == rest
  {
    hide Decoder.Valid, Decoder.InSync, Decoder.Remaining, PaddedLength;
    var count: nat := size;
    var data: bytes := [];
    ghost var s := r.Remaining();
    while count >= BLOCK_SIZE
      invariant r.Valid() && r.InSync()
      invariant |data| + count == size && |data| % BLOCK_SIZE == 0
      invariant |data| <= |s| && data == s[..|data|] && r.Remaining() == s[|data|..]
    {
      PaddedMore(size, |data|);
      var block := r.ReadExact(BLOCK_SIZE);
      if block.None? {
        return None;
      }
      ghost var n := |data|;
      assert s[..n + BLOCK_SIZE] == s[..n] + s[n..][..BLOCK_SIZE];
      assert s[n..][BLOCK_SIZE..] == s[n + BLOCK_SIZE..];
      data := data + block.value;
      count := count - BLOCK_SIZE;
    }
    PaddedRest(size, |data|);
    if count > 0 {
      var block := r.ReadExact(BLOCK_SIZE);
      if block.None? {
        return None;
      }
      ghost var n := |data|;
      assert s[..size] == s[..n] + s[n..][..BLOCK_SIZE][..count];
      assert s[n..][BLOCK_SIZE..] == s[n + BLOCK_SIZE..];
      data := data + block.value[..count];
    }
    return Some(data);
  }

  lemma PaddedMore(size: nat, done: nat)
    requires done + BLOCK_SIZE <= size
    ensures PaddedLength(size) >= done + BLOCK_SIZE
  {
  }

  /** After `done` whole blocks, at least one more is needed exactly when content is left. */
  lemma PaddedRest(size: nat, done: nat)
    requires done <= size && done % BLOCK_SIZE == 0
    ensures done < size ==> PaddedLength(size) >= done + BLOCK_SIZE
    ensures size - done < BLOCK_SIZE ==> PaddedLength(size) == if done == size then done else done + BLOCK_SIZE
  {
  }

  /** How `next_header` fills in the metadata of an entry. */
  method ResolveBlock(next: PaxMeta, global: PaxMeta, block: array<byte>) returns (meta: Metadata)
    requires block.Length == BLOCK_SIZE
    ensures meta == Resolve(next, global, block[..])
  {
    hide ReadOctal, ReadStr, ReadPath, ReadSize, TypeOf;
    var mode := BlockReadOctal(block, UST_MODE);
    var devmajor := BlockReadOctal(block, UST_DEVMAJOR);
    var devminor := BlockReadOctal(block, UST_DEVMINOR);
    var gid := ResolveNumber(next.gid, global.gid, block, UST_GID);
    var gname := ResolveString(next.gname, global.gname, block, UST_GNAME);
    var linkpath := ResolveLinkPath(next.linkpath, global.linkpath, block);
    var mtime: Time;
    if next.mtime.Some? {
      mtime := next.mtime.value;
    } else if global.mtime.Some? {
      mtime := global.mtime.value;
    } else {
      var seconds := BlockReadOctal(block, UST_MTIME);
      mtime := Time(false, seconds, []);
    }
    var path := ResolvePath(next.path, global.path, block);
    var size: u64;
    if next.size.Some? {
      size := next.size.value;
    } else if global.size.Some? {
      size := global.size.value;
    } else {
      size := BlockReadSize(block, UST_SIZE);
    }
    var uid := ResolveNumber(next.uid, global.uid, block, UST_UID);
    var uname := ResolveString(next.uname, global.uname, block, UST_UNAME);
    meta := Metadata(
      TypeOf(block[UST_TYPEFLAG.start]), mode % TWO_TO_32, devmajor % TWO_TO_32, devminor % TWO_TO_32,
      next.atime.OrElse(global.atime), next.charset.OrElse(global.charset), next.comment.OrElse(global.comment),
      gid, gname, next.hdrcharset.OrElse(global.hdrcharset), linkpath, mtime, path, size, uid, uname);
  }

  method ResolveNumber(next: Option<u64>, global: Option<u64>, block: array<byte>, f: Field) returns (n: u64)
    requires block.Length == BLOCK_SIZE && f.InBlock()
    ensures n == next.OrElse(global).GetOr(ReadOctal(block[..], f))
  {
    if next.Some? {
      n := next.value;
    } else if global.Some? {
      n := global.value;
    } else {
      n := BlockReadOctal(block, f);
    }
  }

  method ResolveLinkPath(next: Option<bytes>, global: Option<bytes>, block: array<byte>) returns (s: bytes)
    requires block.Length == BLOCK_SIZE
    ensures s == next.OrElse(global).GetOr(
      if block[UST_LINKNAME.start] != NUL then ReadPath(block[..], UST_LINKNAME) else [])
  {
    if next.Some? {
      return next.value;
    } else if global.Some? {
      return global.value;
    } else if block[UST_LINKNAME.start] != NUL {
      s := BlockReadPath(block, UST_LINKNAME);
      return;
    }
    return [];
  }

  method ResolvePath(next: Option<bytes>, global: Option<bytes>, block: array<byte>) returns (s: bytes)
    requires block.Length == BLOCK_SIZE
    ensures s == next.OrElse(global).GetOr(ReadPath(block[..], UST_NAME))
  {
    if next.Some? {
      s := next.value;
    } else if global.Some? {
      s := global.value;
    } else {
      s := BlockReadPath(block, UST_NAME);
    }
  }

  method ResolveString(next: Option<bytes>, global: Option<bytes>, block: array<byte>, f: Field) returns (s: bytes)
    requires block.Length == BLOCK_SIZE && f.InBlock()
    ensures s == next.OrElse(global).GetOr(ReadStr(block[..], f))
  {
    if next.Some? {
      s := next.value;
    } else if global.Some? {
      s := global.value;
    } else {
      s := BlockReadStr(block, f);
    }
  }

  method IsAllZero(block: bytes) returns (zero: bool)
    ensures zero == AllZero(block)
  {
    for i := 0 to |block|
      invariant forall j | 0 <= j < i :: block[j] == 0
    {
      if block[i] != 0 {
        return false;
      }
    }
    return true;
  }

  class PaxReader {
    const r: Decoder
    var globalMeta: PaxMeta

    constructor (r: Decoder)
      ensures this.r == r && globalMeta == EMPTY
    {
      this.r := r;
      globalMeta := EMPTY;
    }

    /** `next_header` */
    method NextHeader() returns (res: Result<Option<Metadata>>)
      requires r.Valid() && r.InSync()
      modifies this, r, r.file
      ensures r.Valid() && r.InSync()
      ensures match PaxHeader.NextHeader(old(globalMeta), old(r.Remaining()))
              case Failed => res == Err
              case EndOfArchive(global, rest) => res == Ok(None) && globalMeta == global && r.Remaining() == rest
              case Header(meta, global, rest) =>
                res == Ok(Some(meta)) && globalMeta == global && r.Remaining() == rest
    {
      hide Decoder.Valid, Decoder.InSync, Decoder.Remaining, ReadContent, ReadSize, Resolve, Parse;
      var nextMeta := EMPTY;
      var block := new byte[BLOCK_SIZE];
      while true
        invariant r.Valid() && r.InSync()
        invariant fresh(block) && block.Length == BLOCK_SIZE
        invariant NextFrom(nextMeta, globalMeta, r.Remaining()) ==
                  PaxHeader.NextHeader(old(globalMeta), old(r.Remaining()))
        decreases |r.Remaining()|
      {
        ghost var s := r.Remaining();
        var data := r.ReadExact(BLOCK_SIZE);
        if data.None? {
          return Err;
        }
        forall i | 0 <= i < BLOCK_SIZE {
          block[i] := data.value[i];
        }
        assert block[..] == s[..BLOCK_SIZE];
        var typeflag := block[UST_TYPEFLAG.start];
        if !IsMetaType(typeflag) {
          var zero := IsAllZero(data.value);
          if zero {
            data := r.ReadExact(BLOCK_SIZE);
            if data.None? {
              return Err;
            }
            zero := IsAllZero(data.value);
            if zero {
              return Ok(None);
            }
            return Err;
          }
          var meta := ResolveBlock(nextMeta, globalMeta, block);
          return Ok(Some(meta));
        }
        var size := BlockReadSize(block, UST_SIZE);
        var content := ReadContentFrom(r, size);
        if content.None? {
          return Err;
        }
        if typeflag == PAX_NEXT {
          var parsed := ParseMeta(nextMeta, content.value);
          if parsed.Err? {
            return Err;
          }
          nextMeta := parsed.value;
        } else if typeflag == PAX_GLOBAL {
          var parsed := ParseMeta(globalMeta, content.value);
          if parsed.Err? {
            return Err;
          }
          globalMeta := parsed.value;
        } else if typeflag == GNU_PATH {
          nextMeta := nextMeta.(path := content);
        } else {
          nextMeta := nextMeta.(linkpath := content);
        }
      }
    }
  }
}
