/** Entry headers: a ustar block, behind an `x` entry when some field needs one, and how a reader
    resolves them (scar-rs/scar/src/pax.rs, POSIX.1-2017 utility pax, "ustar Interchange Format"). */
module PaxHeader {
  import opened Bytes
  import opened PaxRecords
  import opened Ustar

  // ---------------------------------------------------------------- metadata

  datatype FileType = File | Hardlink | Symlink | Chardev | Blockdev | Directory | Fifo | Unknown

  function TypeChar(t: FileType): byte {
    match t
    case File => 48
    case Hardlink => 49
    case Symlink => 50
    case Chardev => 51
    case Blockdev => 52
    case Directory => 53
    case Fifo => 54
    case Unknown => 63
  }

  function TypeOf(ch: byte): FileType {
    if ch == 48 || ch == 0 || ch == 55 then File
    else if ch == 49 then Hardlink
    else if ch == 50 then Symlink
    else if ch == 51 then Chardev
    else if ch == 52 then Blockdev
    else if ch == 53 then Directory
    else if ch == 54 then Fifo
    else Unknown
  }

  const PAX_NEXT: byte := 120
  const PAX_GLOBAL: byte := 103
  const GNU_PATH: byte := 76
  const GNU_LINK_PATH: byte := 75

  predicate IsMetaType(ch: byte) {
    ch == PAX_NEXT || ch == PAX_GLOBAL || ch == GNU_PATH || ch == GNU_LINK_PATH
  }

  datatype Metadata = Metadata(
    typeflag: FileType,
    mode: u32,
    devmajor: u32,
    devminor: u32,
    atime: Option<Time>,
    charset: Option<bytes>,
    comment: Option<bytes>,
    gid: u64,
    gname: bytes,
    hdrcharset: Option<bytes>,
    linkpath: bytes,
    mtime: Time,
    path: bytes,
    size: u64,
    uid: u64,
    uname: bytes)

  /** `Metadata::empty` */
  const NO_METADATA := Metadata(File, 0, 0, 0, None, None, None, 0, [], None, [], Time(false, 0, []), [], 0, 0, [])

  // ---------------------------------------------------------------- writing

  const USTAR_MAGIC: bytes := [117, 115, 116, 97, 114]
  const USTAR_VERSION: bytes := [48, 48]

  function ZeroBlock(): Block {
    Zeros(BLOCK_SIZE)
  }

  function Clip(data: bytes, length: nat): (r: bytes)
    ensures |r| <= length
  {
    if |data| <= length then data else data[..length]
  }

  function PutStr(block: Block, f: Field, data: bytes): Block
    requires f.InBlock()
  {
    Put(block, f.start, Clip(data, f.length))
  }

  function PutOctal(block: Block, f: Field, n: nat): Block
    requires f.InBlock()
  {
    Put(block, f.start, OctalField(n, f.length))
  }

  function Stamp(block: Block): Block {
    PutStr(PutStr(PutStr(block, UST_CHKSUM, CHKSUM_BLANK), UST_MAGIC, USTAR_MAGIC), UST_VERSION, USTAR_VERSION)
  }

  /** The block as it is written: with magic, version and checksum. */
  function Seal(block: Block): Block {
    PutOctal(Stamp(block), UST_CHKSUM, Sum(Stamp(block)))
  }

  const MAX_OCTAL_7: nat := 0x1F_FFFF
  const MAX_OCTAL_11: nat := 0x1_FFFF_FFFF
  const MAX_OCTAL_12: nat := 0xF_FFFF_FFFF

  /** `mtime > 0o777777777777 || mtime != mtime.floor()` */
  predicate NeedsTimeRecord(t: Time) {
    t.fraction != [] || (!t.negative && t.whole > MAX_OCTAL_12)
  }

  /** `mtime.floor() as u64`, which saturates. */
  function FloorSeconds(t: Time): u64 {
    if t.negative then 0 else if t.whole >= TWO_TO_64 then TWO_TO_64 - 1 else t.whole
  }

  function When<T>(condition: bool, value: T): Option<T> {
    if condition then Some(value) else None
  }

  /** The fields of `meta` that travel in an `x` entry. */
  function Extended(meta: Metadata): PaxMeta {
    PaxMeta(
      meta.atime,
      meta.charset,
      meta.comment,
      When(meta.gid > MAX_OCTAL_7, meta.gid),
      When(|meta.gname| > 32, meta.gname),
      meta.hdrcharset,
      When(|meta.linkpath| > 100, meta.linkpath),
      When(NeedsTimeRecord(meta.mtime), meta.mtime),
      When(|meta.path| > 100, meta.path),
      When(meta.size > MAX_OCTAL_11, meta.size),
      When(meta.uid > MAX_OCTAL_7, meta.uid),
      When(|meta.uname| > 32, meta.uname))
  }

  function FillNumbers(block: Block, meta: Metadata): Block {
    var b1 := PutOctal(block, UST_MODE, meta.mode);
    var b2 := PutOctal(b1, UST_UID, meta.uid);
    var b3 := PutOctal(b2, UST_GID, meta.gid);
    var b4 := PutOctal(b3, UST_SIZE, meta.size);
    PutOctal(b4, UST_MTIME, FloorSeconds(meta.mtime))
  }

  function FillRest(block: Block, meta: Metadata): Block {
    var b1 := Put(block, UST_TYPEFLAG.start, [TypeChar(meta.typeflag)]);
    var b2 := PutStr(b1, UST_LINKNAME, meta.linkpath);
    var b3 := PutStr(b2, UST_UNAME, meta.uname);
    var b4 := PutStr(b3, UST_GNAME, meta.gname);
    var b5 := PutOctal(b4, UST_DEVMAJOR, meta.devmajor);
    PutOctal(b5, UST_DEVMINOR, meta.devminor)
  }

  function HeaderBlock(meta: Metadata): Block {
    Seal(FillRest(FillNumbers(PutStr(ZeroBlock(), UST_NAME, meta.path), meta), meta))
  }

  /** A metadata entry: header block and padded content. */
  function RawEntry(typeflag: byte, content: bytes): bytes {
    Seal(PutOctal(Put(ZeroBlock(), UST_TYPEFLAG.start, [typeflag]), UST_SIZE, |content|)) + Padded(content)
  }

  function WriteHeader(meta: Metadata): bytes {
    var records := Stringify(Extended(meta));
    (if records == [] then [] else RawEntry(PAX_NEXT, records)) + HeaderBlock(meta)
  }

  // ---------------------------------------------------------------- reading

  /** Content of `size` bytes, of which whole blocks are consumed. */
  function ReadContent(s: bytes, size: nat): (r: Option<(bytes, bytes)>)
    ensures r.Some? ==> |r.value.0| == size && |r.value.1| <= |s|
  {
    if |s| < PaddedLength(size) then None else Some((s[..size], s[PaddedLength(size)..]))
  }

  datatype HeaderResult =
    | Failed
    | EndOfArchive(global: PaxMeta, rest: bytes)
    | Header(meta: Metadata, global: PaxMeta, rest: bytes)

  /** Every field from the `x` records before it, else from the globals, else from the block. */
  function Resolve(next: PaxMeta, global: PaxMeta, block: Block): Metadata {
    var m := global.Override(next);
    Metadata(
      TypeOf(block[UST_TYPEFLAG.start]),
      ReadOctal(block, UST_MODE) % TWO_TO_32,
      ReadOctal(block, UST_DEVMAJOR) % TWO_TO_32,
      ReadOctal(block, UST_DEVMINOR) % TWO_TO_32,
      m.atime,
      m.charset,
      m.comment,
      m.gid.GetOr(ReadOctal(block, UST_GID)),
      m.gname.GetOr(ReadStr(block, UST_GNAME)),
      m.hdrcharset,
      m.linkpath.GetOr(if block[UST_LINKNAME.start] != NUL then ReadPath(block, UST_LINKNAME) else []),
      m.mtime.GetOr(Time(false, ReadOctal(block, UST_MTIME), [])),
      m.path.GetOr(ReadPath(block, UST_NAME)),
      m.size.GetOr(ReadSize(block, UST_SIZE)),
      m.uid.GetOr(ReadOctal(block, UST_UID)),
      m.uname.GetOr(ReadStr(block, UST_UNAME)))
  }

  /** Absorbing one metadata entry into the pending and the global records. */
  function Absorb(ch: byte, content: bytes, next: PaxMeta, global: PaxMeta): Result<(PaxMeta, PaxMeta)> {
    if ch == PAX_NEXT then
      var n :- Parse(next, content);
      Ok((n, global))
    else if ch == PAX_GLOBAL then
      var g :- Parse(global, content);
      Ok((next, g))
    else if ch == GNU_PATH then Ok((next.(path := Some(content)), global))
    else Ok((next.(linkpath := Some(content)), global))
  }

  function NextFrom(next: PaxMeta, global: PaxMeta, s: bytes): (r: HeaderResult)
    ensures r.Header? ==> |r.rest| < |s|
    decreases |s|
  {
    if |s| < BLOCK_SIZE then Failed
    else
      var block: Block, rest := s[..BLOCK_SIZE], s[BLOCK_SIZE..];
      var ch := block[UST_TYPEFLAG.start];
      if IsMetaType(ch) then
        match ReadContent(rest, ReadSize(block, UST_SIZE))
        case None => Failed
        case Some((content, rest')) =>
          match Absorb(ch, content, next, global)
          case Err => Failed
          case Ok((next', global')) => NextFrom(next', global', rest')
      else if AllZero(block) then
        if |rest| >= BLOCK_SIZE && AllZero(rest[..BLOCK_SIZE]) then EndOfArchive(global, rest[BLOCK_SIZE..]) else Failed
      else Header(Resolve(next, global, block), global, rest)
  }

  function NextHeader(global: PaxMeta, s: bytes): (r: HeaderResult)
    ensures r.Header? ==> |r.rest| < |s|
  {
    NextFrom(EMPTY, global, s)
  }

  // ---------------------------------------------------------------- what a written block holds

  lemma PutStrField(block: Block, f: Field, data: bytes)
    requires f.InBlock()
    ensures FieldOf(PutStr(block, f, data), f) == Clip(data, f.length) + FieldOf(block, f)[|Clip(data, f.length)|..]
  {
    var d := Clip(data, f.length);
    var r := PutStr(block, f, data);
    assert r == block[..f.start] + d + block[f.start + |d|..];
  }

  lemma PutOctalField(block: Block, f: Field, n: u64)
    requires f.InBlock()
    ensures ReadOctal(PutOctal(block, f, n), f) == n % Pow8(f.length - 1)
  {
    OctalFieldRoundTrip(n, f.length);
  }

  /** Sealing keeps every field apart from checksum, magic and version. */
  lemma SealKeeps(block: Block, f: Field)
    requires f.InBlock()
    requires Apart(UST_CHKSUM.start, 8, f) && Apart(UST_MAGIC.start, 5, f) && Apart(UST_VERSION.start, 2, f)
    ensures FieldOf(Seal(block), f) == FieldOf(block, f)
  {
  }

  lemma StampBlank(block: Block)
    ensures FieldOf(Stamp(block), UST_CHKSUM) == CHKSUM_BLANK
  {
    hide Put;
    var b := PutStr(block, UST_CHKSUM, CHKSUM_BLANK);
    assert FieldOf(b, UST_CHKSUM) == CHKSUM_BLANK;
    var c := PutStr(b, UST_MAGIC, USTAR_MAGIC);
    assert FieldOf(c, UST_CHKSUM) == FieldOf(b, UST_CHKSUM);
  }

  /** Every header block that is written carries a valid checksum. */
  lemma SealedChecksum(block: Block)
    ensures ChecksumValid(Seal(block))
  {
    hide Sum, Stamp, Put, ReadOctal, OctalField, Pow8;
    var b := Stamp(block);
    SumBound(b);
    PutOctalField(b, UST_CHKSUM, Sum(b));
    Pow8Seven();
    StampBlank(block);
    PutBack(b, UST_CHKSUM.start, OctalField(Sum(b), 8), CHKSUM_BLANK);
  }

  lemma Pow8Seven()
    ensures Pow8(7) == MAX_OCTAL_7 + 1 && Pow8(11) == MAX_OCTAL_11 + 1
  {
    assert Pow8(3) == 512;
    assert Pow8(5) == 64 * Pow8(3);
    assert Pow8(7) == 64 * Pow8(5);
    assert Pow8(9) == 64 * Pow8(7);
    assert Pow8(11) == 64 * Pow8(9);
  }

  lemma PutBack(b: Block, start: nat, data: bytes, old_: bytes)
    requires |data| == |old_| && start + |data| <= BLOCK_SIZE
    requires b[start..start + |data|] == old_
    ensures Put(Put(b, start, data), start, old_) == b
  {
  }

  lemma FillNumbersKeeps(block: Block, meta: Metadata, f: Field)
    requires f.InBlock() && Apart(UST_MODE.start, 48, f)
    ensures FieldOf(FillNumbers(block, meta), f) == FieldOf(block, f)
  {
  }

  lemma FillNumbersFields(block: Block, meta: Metadata)
    ensures var b := FillNumbers(block, meta);
            ReadOctal(b, UST_MODE) == meta.mode % Pow8(7) &&
            ReadOctal(b, UST_UID) == meta.uid % Pow8(7) &&
            ReadOctal(b, UST_GID) == meta.gid % Pow8(7) &&
            ReadOctal(b, UST_SIZE) == meta.size % Pow8(11) &&
            ReadOctal(b, UST_MTIME) == FloorSeconds(meta.mtime) % Pow8(11)
  {
    hide Put, FloorSeconds, OctalFrom;
    var b1 := PutOctal(block, UST_MODE, meta.mode);
    PutOctalField(block, UST_MODE, meta.mode);
    var b2 := PutOctal(b1, UST_UID, meta.uid);
    PutOctalField(b1, UST_UID, meta.uid);
    var b3 := PutOctal(b2, UST_GID, meta.gid);
    PutOctalField(b2, UST_GID, meta.gid);
    var b4 := PutOctal(b3, UST_SIZE, meta.size);
    PutOctalField(b3, UST_SIZE, meta.size);
    PutOctalField(b4, UST_MTIME, FloorSeconds(meta.mtime));
  }

  lemma FillRestKeeps(block: Block, meta: Metadata, f: Field)
    requires f.InBlock() && Apart(UST_TYPEFLAG.start, 101, f) && Apart(UST_UNAME.start, 80, f)
    ensures FieldOf(FillRest(block, meta), f) == FieldOf(block, f)
  {
  }

  predicate Blank(block: Block, f: Field)
    requires f.InBlock()
  {
    FieldOf(block, f) == Zeros(f.length)
  }

  lemma ReadStrBlank(block: Block, f: Field, data: bytes)
    requires f.InBlock() && Blank(block, f)
    ensures ReadStr(PutStr(block, f, data), f) == UpToNul(Clip(data, f.length))
  {
    hide UpToNul, Put;
    PutStrField(block, f, data);
    UpToNulPrefix(Clip(data, f.length), FieldOf(block, f)[|Clip(data, f.length)|..]);
  }

  lemma FillRestFields(block: Block, meta: Metadata)
    requires Blank(block, UST_LINKNAME) && Blank(block, UST_UNAME) && Blank(block, UST_GNAME)
    ensures var b := FillRest(block, meta);
            FieldOf(b, UST_TYPEFLAG) == [TypeChar(meta.typeflag)] &&
            ReadStr(b, UST_LINKNAME) == UpToNul(Clip(meta.linkpath, 100)) &&
            ReadStr(b, UST_UNAME) == UpToNul(Clip(meta.uname, 32)) &&
            ReadStr(b, UST_GNAME) == UpToNul(Clip(meta.gname, 32)) &&
            ReadOctal(b, UST_DEVMAJOR) == meta.devmajor % Pow8(7) &&
            ReadOctal(b, UST_DEVMINOR) == meta.devminor % Pow8(7)
  {
    hide Put, OctalFrom, UpToNul, Clip, TypeChar;
    var b1 := Put(block, UST_TYPEFLAG.start, [TypeChar(meta.typeflag)]);
    assert FieldOf(b1, UST_TYPEFLAG) == [TypeChar(meta.typeflag)];
    var b2 := PutStr(b1, UST_LINKNAME, meta.linkpath);
    ReadStrBlank(b1, UST_LINKNAME, meta.linkpath);
    var b3 := PutStr(b2, UST_UNAME, meta.uname);
    ReadStrBlank(b2, UST_UNAME, meta.uname);
    var b4 := PutStr(b3, UST_GNAME, meta.gname);
    ReadStrBlank(b3, UST_GNAME, meta.gname);
    var b5 := PutOctal(b4, UST_DEVMAJOR, meta.devmajor);
    PutOctalField(b4, UST_DEVMAJOR, meta.devmajor);
    PutOctalField(b5, UST_DEVMINOR, meta.devminor);
  }

  lemma SizeFieldIsOctal(block: Block, n: nat)
    ensures ReadSize(PutOctal(block, UST_SIZE, n), UST_SIZE) == ReadOctal(PutOctal(block, UST_SIZE, n), UST_SIZE)
  {
    hide OctalFrom;
    var b := PutOctal(block, UST_SIZE, n);
    assert FieldOf(b, UST_SIZE) == OctalField(n, 12);
    assert OctalField(n, 12)[0] == OctalText(n % Pow8(11), 11)[0];
  }

  lemma FillNumbersSize(block: Block, meta: Metadata)
    ensures ReadSize(FillNumbers(block, meta), UST_SIZE) == meta.size % Pow8(11)
  {
    hide Put, FloorSeconds, OctalFrom, OctalField, Base256From;
    var b3 := PutOctal(PutOctal(PutOctal(block, UST_MODE, meta.mode), UST_UID, meta.uid), UST_GID, meta.gid);
    SizeFieldIsOctal(b3, meta.size);
    PutOctalField(b3, UST_SIZE, meta.size);
    var b := FillNumbers(block, meta);
    assert FieldOf(b, UST_SIZE) == FieldOf(PutOctal(b3, UST_SIZE, meta.size), UST_SIZE);
  }

  lemma BlankZeroBlock(f: Field)
    requires f.InBlock()
    ensures Blank(ZeroBlock(), f)
  {
  }

  lemma HeaderBlockFields(meta: Metadata)
    ensures var h := HeaderBlock(meta);
            FieldOf(h, UST_TYPEFLAG) == [TypeChar(meta.typeflag)] &&
            ReadOctal(h, UST_MODE) == meta.mode % Pow8(7) &&
            ReadOctal(h, UST_UID) == meta.uid % Pow8(7) &&
            ReadOctal(h, UST_GID) == meta.gid % Pow8(7) &&
            ReadSize(h, UST_SIZE) == meta.size % Pow8(11) &&
            ReadOctal(h, UST_MTIME) ==
            (if meta.mtime.negative then 0 else if meta.mtime.whole < 0x1_0000_0000_0000_0000 then meta.mtime.whole
             else 0xFFFF_FFFF_FFFF_FFFF) % Pow8(11) &&
            ReadOctal(h, UST_DEVMAJOR) == meta.devmajor % Pow8(7) &&
            ReadOctal(h, UST_DEVMINOR) == meta.devminor % Pow8(7) &&
            ReadStr(h, UST_NAME) == UpToNul(Clip(meta.path, 100)) &&
            ReadStr(h, UST_LINKNAME) == UpToNul(Clip(meta.linkpath, 100)) &&
            ReadStr(h, UST_UNAME) == UpToNul(Clip(meta.uname, 32)) &&
            ReadStr(h, UST_GNAME) == UpToNul(Clip(meta.gname, 32)) &&
            ReadStr(h, UST_PREFIX) == []
  {
    hide Put, PutStr, FillNumbers, FillRest, Seal, OctalFrom, Base256From, UpToNul, Clip, TypeChar;
    var b0 := PutStr(ZeroBlock(), UST_NAME, meta.path);
    var b1 := FillNumbers(b0, meta);
    var b2 := FillRest(b1, meta);
    BlankZeroBlock(UST_NAME);
    ReadStrBlank(ZeroBlock(), UST_NAME, meta.path);
    BlankFields(meta.path);
    FillNumbersFields(b0, meta);
    FillNumbersSize(b0, meta);
    forall f: Field | f.InBlock() && Apart(UST_MODE.start, 48, f)
      ensures FieldOf(b1, f) == FieldOf(b0, f)
    {
      FillNumbersKeeps(b0, meta, f);
    }
    FillRestFields(b1, meta);
    forall f: Field | f.InBlock() && Apart(UST_TYPEFLAG.start, 101, f) && Apart(UST_UNAME.start, 80, f)
      ensures FieldOf(b2, f) == FieldOf(b1, f)
    {
      FillRestKeeps(b1, meta, f);
    }
    forall f: Field | f.InBlock() && Apart(UST_CHKSUM.start, 8, f) && Apart(UST_MAGIC.start, 8, f)
      ensures FieldOf(Seal(b2), f) == FieldOf(b2, f)
    {
      SealKeeps(b2, f);
    }
    assert UpToNul(FieldOf(b0, UST_PREFIX)) == [] by {
      UpToNulBlank(155);
    }
  }

  lemma BlankFields(path: bytes)
    ensures var b := PutStr(ZeroBlock(), UST_NAME, path);
            Blank(b, UST_LINKNAME) && Blank(b, UST_UNAME) && Blank(b, UST_GNAME) && Blank(b, UST_PREFIX)
  {
    BlankZeroBlock(UST_LINKNAME);
    BlankZeroBlock(UST_UNAME);
    BlankZeroBlock(UST_GNAME);
    BlankZeroBlock(UST_PREFIX);
  }

  lemma UpToNulBlank(n: nat)
    ensures UpToNul(Zeros(n)) == []
  {
  }

  // ---------------------------------------------------------------- header round trip

  lemma NextHeaderBlock(next: PaxMeta, global: PaxMeta, meta: Metadata, rest: bytes)
    ensures NextFrom(next, global, HeaderBlock(meta) + rest) ==
            Header(Resolve(next, global, HeaderBlock(meta)), global, rest)
  {
    hide HeaderBlock, Resolve, Absorb, ReadContent, IsMetaType, AllZero;
    var s := HeaderBlock(meta) + rest;
    HeaderBlockType(meta);
    assert s[..BLOCK_SIZE] == HeaderBlock(meta) && s[BLOCK_SIZE..] == rest;
  }

  lemma HeaderBlockType(meta: Metadata)
    ensures var h := HeaderBlock(meta);
            h[UST_TYPEFLAG.start] == TypeChar(meta.typeflag) && !IsMetaType(h[UST_TYPEFLAG.start]) && !AllZero(h)
  {
    hide HeaderBlock, ReadOctal, ReadSize, ReadStr;
    HeaderBlockFields(meta);
    assert HeaderBlock(meta)[UST_TYPEFLAG.start] == FieldOf(HeaderBlock(meta), UST_TYPEFLAG)[0];
    TypeRoundTrip(meta.typeflag);
  }

  lemma RawEntryBlock(ch: byte, n: nat)
    requires n <= MAX_OCTAL_11
    ensures var b := Seal(PutOctal(Put(ZeroBlock(), UST_TYPEFLAG.start, [ch]), UST_SIZE, n));
            b[UST_TYPEFLAG.start] == ch && ReadSize(b, UST_SIZE) == n
  {
    hide OctalFrom, Base256From, OctalField, Stamp, Seal;
    var b0 := Put(ZeroBlock(), UST_TYPEFLAG.start, [ch]);
    var b1 := PutOctal(b0, UST_SIZE, n);
    SizeFieldIsOctal(b0, n);
    PutOctalField(b0, UST_SIZE, n);
    Pow8Seven();
    SealKeeps(b1, UST_SIZE);
    SealKeeps(b1, UST_TYPEFLAG);
    assert FieldOf(b0, UST_TYPEFLAG) == [ch];
    assert Seal(b1)[UST_TYPEFLAG.start] == FieldOf(Seal(b1), UST_TYPEFLAG)[0];
  }

  /** A metadata entry is absorbed whole, and the reader goes on right behind it. */
  lemma NextRawEntry(next: PaxMeta, global: PaxMeta, ch: byte, content: bytes, rest: bytes)
    requires IsMetaType(ch) && |content| <= MAX_OCTAL_11
    ensures NextFrom(next, global, RawEntry(ch, content) + rest) ==
            match Absorb(ch, content, next, global)
            case Err => Failed
            case Ok((next', global')) => NextFrom(next', global', rest)
  {
    hide Seal, Absorb, Resolve, ReadSize, PutOctal;
    var b := Seal(PutOctal(Put(ZeroBlock(), UST_TYPEFLAG.start, [ch]), UST_SIZE, |content|));
    RawEntryBlock(ch, |content|);
    var s := RawEntry(ch, content) + rest;
    var tail := Padded(content) + rest;
    assert s == b + tail;
    assert s[..BLOCK_SIZE] == b && s[BLOCK_SIZE..] == tail;
    assert ReadContent(tail, |content|) == Some((content, rest)) by {
      assert tail[..|content|] == Padded(content)[..|content|];
      assert tail[PaddedLength(|content|)..] == rest;
    }
  }

  /** What reading back `meta` yields: numbers modulo their octal field and strings up to a NUL,
      unless they travelled in an `x` entry. */
  function Readback(meta: Metadata): Metadata {
    meta.(
      mode := meta.mode % (MAX_OCTAL_7 + 1),
      devmajor := meta.devmajor % (MAX_OCTAL_7 + 1),
      devminor := meta.devminor % (MAX_OCTAL_7 + 1),
      gname := if |meta.gname| > 32 then meta.gname else UpToNul(meta.gname),
      linkpath := if |meta.linkpath| > 100 then meta.linkpath else UpToNul(meta.linkpath),
      mtime := if NeedsTimeRecord(meta.mtime) then meta.mtime
               else Time(false, if meta.mtime.negative then 0 else meta.mtime.whole % (MAX_OCTAL_11 + 1), []),
      path := if |meta.path| > 100 then meta.path else UpToNul(meta.path),
      uname := if |meta.uname| > 32 then meta.uname else UpToNul(meta.uname))
  }

  lemma TypeRoundTrip(t: FileType)
    ensures TypeOf(TypeChar(t)) == t && !IsMetaType(TypeChar(t))
  {
  }

  lemma OverrideEmpty(m: PaxMeta)
    ensures EMPTY.Override(m) == m
  {
  }

  lemma ResolveWritten(meta: Metadata)
    ensures Resolve(Extended(meta), EMPTY, HeaderBlock(meta)) == Readback(meta)
  {
    hide HeaderBlock, Resolve, Readback;
    ResolvedNumbers(meta);
    ResolvedSizes(meta);
    ResolvedTime(meta);
    ResolvedTexts(meta);
  }

  lemma ResolvedNumbers(meta: Metadata)
    ensures var m, r := Resolve(Extended(meta), EMPTY, HeaderBlock(meta)), Readback(meta);
            && m.typeflag == r.typeflag && m.mode == r.mode && m.devmajor == r.devmajor && m.devminor == r.devminor
  {
    hide HeaderBlock, UpToNul, ReadOctal, ReadSize, ReadStr, ReadPath, Pow8, TypeOf, TypeChar, FieldOf;
    hide AllZero, IsMetaType, PaxMeta.Override, NeedsTimeRecord, Extended;
    HeaderBlockFields(meta);
    TypeRoundTrip(meta.typeflag);
    Pow8Seven();
    HeaderBlockType(meta);
  }

  lemma ResolvedSizes(meta: Metadata)
    ensures var m, r := Resolve(Extended(meta), EMPTY, HeaderBlock(meta)), Readback(meta);
            m.gid == r.gid && m.size == r.size && m.uid == r.uid
  {
    hide HeaderBlock, UpToNul, ReadOctal, ReadSize, ReadStr, ReadPath, Pow8, TypeOf, TypeChar, FieldOf;
    hide AllZero, IsMetaType, PaxMeta.Override, NeedsTimeRecord;
    HeaderBlockFields(meta);
    OverrideEmpty(Extended(meta));
    Pow8Seven();
  }

  lemma ResolvedTime(meta: Metadata)
    ensures Resolve(Extended(meta), EMPTY, HeaderBlock(meta)).mtime == Readback(meta).mtime
  {
    hide HeaderBlock, UpToNul, ReadOctal, ReadSize, ReadStr, ReadPath, Pow8, TypeOf, TypeChar, FieldOf;
    hide AllZero, IsMetaType, PaxMeta.Override;
    HeaderBlockFields(meta);
    OverrideEmpty(Extended(meta));
    Pow8Seven();
  }

  lemma ResolvedTexts(meta: Metadata)
    ensures var m, r := Resolve(Extended(meta), EMPTY, HeaderBlock(meta)), Readback(meta);
            && m.atime == r.atime && m.charset == r.charset && m.comment == r.comment && m.hdrcharset == r.hdrcharset
            && m.gname == r.gname && m.linkpath == r.linkpath && m.path == r.path && m.uname == r.uname
  {
    hide HeaderBlock, UpToNul, ReadOctal, ReadSize, ReadStr, ReadPath, Pow8, TypeOf, TypeChar, FieldOf;
    hide AllZero, IsMetaType, PaxMeta.Override;
    HeaderBlockFields(meta);
    OverrideEmpty(Extended(meta));
    WrittenPaths(meta);
  }

  lemma WrittenPaths(meta: Metadata)
    ensures var h := HeaderBlock(meta);
            && ReadPath(h, UST_NAME) == UpToNul(Clip(meta.path, 100))
            && (if h[UST_LINKNAME.start] != NUL then ReadPath(h, UST_LINKNAME) else []) ==
               UpToNul(Clip(meta.linkpath, 100))
  {
    hide HeaderBlock, ReadStr, Clip, UpToNul;
    HeaderBlockFields(meta);
    LinkPathFirst(HeaderBlock(meta));
  }

  lemma LinkPathFirst(h: Block)
    ensures h[UST_LINKNAME.start] == NUL ==> ReadStr(h, UST_LINKNAME) == []
  {
    assert h[UST_LINKNAME.start] == FieldOf(h, UST_LINKNAME)[0];
  }

  lemma NoRecordsText(m: PaxMeta)
    requires Stringify(m) == []
    ensures m == EMPTY && AllFit(Records(m))
  {
    hide RecordText;
    var rs := Records(m);
    if rs != [] {
      assert RecordText(rs[0]) != [] by { RecordNonempty(rs[0]); }
    }
    forall k: Key
      ensures RecOf(k, m) == []
    {
      assert |RecOf(k, m)| <= |rs|;
    }
    assert RecOf(Atime, m) == [] && RecOf(Charset, m) == [] && RecOf(Comment, m) == [] && RecOf(Gid, m) == [];
    assert RecOf(Gname, m) == [] && RecOf(Hdrcharset, m) == [] && RecOf(Linkpath, m) == [] && RecOf(Mtime, m) == [];
    assert RecOf(Path, m) == [] && RecOf(Size, m) == [] && RecOf(Uid, m) == [] && RecOf(Uname, m) == [];
  }

  lemma RecordNonempty(r: Record)
    ensures RecordText(r) != []
  {
  }

  /** The header round trip, computed for every `meta` whose extended header is short enough for its
      own size field: reading consumes exactly the bytes written and yields `Readback(meta)`, or
      fails because some extended value is 16384 bytes or longer. */
  lemma ReadWrittenHeader(meta: Metadata, rest: bytes)
    requires ShortHeader(meta)
    ensures NextHeader(EMPTY, WriteHeader(meta) + rest) ==
            if AllFit(Records(Extended(meta))) then Header(Readback(meta), EMPTY, rest) else Failed
  {
    hide HeaderBlock, NextFrom, RawEntry, Resolve, Readback, Extended, Stringify, Records;
    var ext := Extended(meta);
    var records := Stringify(ext);
    var h := HeaderBlock(meta);
    NextHeaderBlock(ext, EMPTY, meta, rest);
    ResolveWritten(meta);
    if records == [] {
      NoRecordsText(ext);
      assert WriteHeader(meta) + rest == h + rest;
    } else {
      assert WriteHeader(meta) + rest == RawEntry(PAX_NEXT, records) + (h + rest);
      NextRawEntry(EMPTY, EMPTY, PAX_NEXT, records, h + rest);
      ParseStringify(EMPTY, ext);
      OverrideEmpty(ext);
    }
  }

  predicate StringFits(s: bytes, length: nat) {
    |s| > length || NUL !in s
  }

  /** The metadata that survives a round trip: numeric fields in range, short strings without NUL,
      whole times neither negative nor in [8^11, 8^12), and no extended value of 16384 bytes. */
  predicate Representable(meta: Metadata) {
    && meta.mode <= MAX_OCTAL_7 && meta.devmajor <= MAX_OCTAL_7 && meta.devminor <= MAX_OCTAL_7
    && StringFits(meta.gname, 32) && StringFits(meta.uname, 32)
    && StringFits(meta.linkpath, 100) && StringFits(meta.path, 100)
    && (NeedsTimeRecord(meta.mtime) || (!meta.mtime.negative && meta.mtime.whole <= MAX_OCTAL_11))
    && AllFit(Records(Extended(meta)))
  }

  lemma ReadbackExact(meta: Metadata)
    ensures Readback(meta) == meta && AllFit(Records(Extended(meta))) <==> Representable(meta)
  {
    hide UpToNul, Records, Extended;
    UpToNulWhole(meta.gname);
    UpToNulWhole(meta.uname);
    UpToNulWhole(meta.linkpath);
    UpToNulWhole(meta.path);
  }

  predicate ShortHeader(meta: Metadata) {
    |Stringify(Extended(meta))| <= MAX_OCTAL_11
  }

  lemma RepresentableIsShort(meta: Metadata)
    requires Representable(meta)
    ensures ShortHeader(meta)
  {
    hide Stringify, Extended, Records, AllFit;
    StringifyIsShort(Extended(meta));
  }

  /** Representable metadata comes back as it was written; no other does, unless its extended header is
      too long for its own size field. */
  lemma HeaderRoundTrip(meta: Metadata, rest: bytes)
    ensures Representable(meta) ==> NextHeader(EMPTY, WriteHeader(meta) + rest) == Header(meta, EMPTY, rest)
    ensures ShortHeader(meta) && !Representable(meta) ==>
              NextHeader(EMPTY, WriteHeader(meta) + rest) != Header(meta, EMPTY, rest)
  {
    hide NextHeader, WriteHeader, Representable, Readback, Extended, Stringify, Records, ShortHeader;
    if Representable(meta) {
      RepresentableIsShort(meta);
    }
    if ShortHeader(meta) {
      ReadWrittenHeader(meta, rest);
      ReadbackExact(meta);
    }
  }

  /** Content is what its blocks start with, whatever pads the last one. */
  lemma ReadBlocks(blocks: bytes, size: nat, rest: bytes)
    requires |blocks| == PaddedLength(size)
    ensures ReadContent(blocks + rest, size) == Some((blocks[..size], rest))
  {
    var s := blocks + rest;
    assert s[..size] == blocks[..size];
    assert s[PaddedLength(size)..] == rest;
  }

  /** `read_content` inverts `write_content`, and consumes whole blocks. */
  lemma ReadPaddedContent(content: bytes, rest: bytes)
    ensures ReadContent(Padded(content) + rest, |content|) == Some((content, rest))
  {
    hide PaddedLength;
    ReadBlocks(Padded(content), |content|, rest);
  }
}
