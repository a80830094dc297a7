/** Where every field of a header that is read comes from, over the bytes of the block and the fields of the
    records in front of it (`next_header`, scar-rs/scar/src/pax.rs). */
module Resolution {
  import opened Bytes
  import opened PaxRecords
  import opened Ustar
  import opened PaxHeader

  // ---------------------------------------------------------------- what may stand in front of a block

  /** An `x` entry, a `g` entry, or one of the two entries with which GNU tar keeps a long name. */
  datatype Extra = ForNext(m: PaxMeta) | ForAll(m: PaxMeta) | LongPath(name: bytes) | LongLink(name: bytes) {
    /** Printed records can be read back, and a name fits the size field of its entry. */
    predicate Readable() {
      if ForNext? || ForAll? then AllFit(Records(m)) else |name| <= 0x1_FFFF_FFFF
    }

    function Text(): bytes {
      match this
      case ForNext(m) => RawEntry('x' as byte, Stringify(m))
      case ForAll(m) => RawEntry('g' as byte, Stringify(m))
      case LongPath(name) => RawEntry('L' as byte, name)
      case LongLink(name) => RawEntry('K' as byte, name)
    }

    function Says(): PaxMeta {
      match this
      case LongPath(name) => EMPTY.(path := Some(name))
      case LongLink(name) => EMPTY.(linkpath := Some(name))
      case _ => m
    }
  }

  function Text(es: seq<Extra>): bytes {
    if es == [] then [] else es[0].Text() + Text(es[1..])
  }

  predicate AllReadable(es: seq<Extra>) {
    forall i | 0 <= i < |es| :: es[i].Readable()
  }

  /** The last value of a field in the entries that apply to all headers, or in those for the next one. */
  function Last<T>(es: seq<Extra>, global: bool, field: PaxMeta -> Option<T>): Option<T> {
    if es == [] then None
    else if Last(es[1..], global, field).Some? then Last(es[1..], global, field)
    else if es[0].ForAll? == global then field(es[0].Says())
    else None
  }

  function Or<T>(first: Option<T>, second: Option<T>): Option<T> {
    match first
    case Some(_) => first
    case None => second
  }

  function Get<T>(value: Option<T>, default: T): T {
    match value
    case Some(v) => v
    case None => default
  }

  /** A field of the header: for the next header, else for all, else known before, else missing. */
  function Chosen<T>(es: seq<Extra>, before: PaxMeta, field: PaxMeta -> Option<T>): Option<T> {
    Or(Last(es, false, field), Or(Last(es, true, field), field(before)))
  }

  // ---------------------------------------------------------------- absorbing the entries

  /** `m` with the records of every entry that goes into it. */
  function After(m: PaxMeta, es: seq<Extra>, global: bool): PaxMeta
    decreases es
  {
    if es == [] then m
    else After(if es[0].ForAll? == global then m.Override(es[0].Says()) else m, es[1..], global)
  }

  lemma AbsorbExtra(e: Extra, next: PaxMeta, global: PaxMeta, rest: bytes)
    requires e.Readable()
    ensures NextFrom(next, global, e.Text() + rest) ==
            NextFrom(After(next, [e], false), After(global, [e], true), rest)
  {
    hide NextFrom, RawEntry, Stringify, Records, AllFit;
    if e.ForNext? || e.ForAll? {
      StringifyIsShort(e.m);
      ParseStringify(next, e.m);
      ParseStringify(global, e.m);
      NextRawEntry(next, global, if e.ForAll? then 103 else 120, Stringify(e.m), rest);
    } else {
      NextRawEntry(next, global, if e.LongPath? then 76 else 75, e.name, rest);
    }
    assert [e][1..] == [];
  }

  lemma {:induction false} AbsorbExtras(es: seq<Extra>, next: PaxMeta, global: PaxMeta, rest: bytes)
    requires AllReadable(es)
    ensures NextFrom(next, global, Text(es) + rest) ==
            NextFrom(After(next, es, false), After(global, es, true), rest)
    decreases es
  {
    hide NextFrom, Extra.Text, Extra.Says, Extra.Readable, PaxMeta.Override;
    if es == [] {
      assert Text(es) + rest == rest;
    } else {
      var e := es[0];
      assert Text(es) + rest == e.Text() + (Text(es[1..]) + rest);
      AbsorbExtra(e, next, global, Text(es[1..]) + rest);
      assert [e][1..] == [];
      AbsorbExtras(es[1..], After(next, [e], false), After(global, [e], true), rest);
    }
  }

  lemma {:induction false} AfterField<T>(m: PaxMeta, es: seq<Extra>, global: bool, field: PaxMeta -> Option<T>)
    requires forall a: PaxMeta, b :: field(a.Override(b)) == Or(field(b), field(a))
    ensures field(After(m, es, global)) == Or(Last(es, global, field), field(m))
    decreases es
  {
    hide Extra.Says, PaxMeta.Override;
    if es != [] {
      AfterField(if es[0].ForAll? == global then m.Override(es[0].Says()) else m, es[1..], global, field);
    }
  }

  lemma AfterFields(m: PaxMeta, es: seq<Extra>, global: bool)
    ensures var a := After(m, es, global);
            && a.atime == Or(Last(es, global, (p: PaxMeta) => p.atime), m.atime)
            && a.charset == Or(Last(es, global, (p: PaxMeta) => p.charset), m.charset)
            && a.comment == Or(Last(es, global, (p: PaxMeta) => p.comment), m.comment)
            && a.gid == Or(Last(es, global, (p: PaxMeta) => p.gid), m.gid)
            && a.gname == Or(Last(es, global, (p: PaxMeta) => p.gname), m.gname)
            && a.hdrcharset == Or(Last(es, global, (p: PaxMeta) => p.hdrcharset), m.hdrcharset)
            && a.linkpath == Or(Last(es, global, (p: PaxMeta) => p.linkpath), m.linkpath)
            && a.mtime == Or(Last(es, global, (p: PaxMeta) => p.mtime), m.mtime)
            && a.path == Or(Last(es, global, (p: PaxMeta) => p.path), m.path)
            && a.size == Or(Last(es, global, (p: PaxMeta) => p.size), m.size)
            && a.uid == Or(Last(es, global, (p: PaxMeta) => p.uid), m.uid)
            && a.uname == Or(Last(es, global, (p: PaxMeta) => p.uname), m.uname)
  {
    hide After, Last;
    var a := After(m, es, global);
    assert a.atime == Or(Last(es, global, (p: PaxMeta) => p.atime), m.atime) by {
      AfterField(m, es, global, (p: PaxMeta) => p.atime);
    }
    assert a.charset == Or(Last(es, global, (p: PaxMeta) => p.charset), m.charset) by {
      AfterField(m, es, global, (p: PaxMeta) => p.charset);
    }
    assert a.comment == Or(Last(es, global, (p: PaxMeta) => p.comment), m.comment) by {
      AfterField(m, es, global, (p: PaxMeta) => p.comment);
    }
    assert a.gid == Or(Last(es, global, (p: PaxMeta) => p.gid), m.gid) by {
      AfterField(m, es, global, (p: PaxMeta) => p.gid);
    }
    assert a.gname == Or(Last(es, global, (p: PaxMeta) => p.gname), m.gname) by {
      AfterField(m, es, global, (p: PaxMeta) => p.gname);
    }
    assert a.hdrcharset == Or(Last(es, global, (p: PaxMeta) => p.hdrcharset), m.hdrcharset) by {
      AfterField(m, es, global, (p: PaxMeta) => p.hdrcharset);
    }
    assert a.linkpath == Or(Last(es, global, (p: PaxMeta) => p.linkpath), m.linkpath) by {
      AfterField(m, es, global, (p: PaxMeta) => p.linkpath);
    }
    assert a.mtime == Or(Last(es, global, (p: PaxMeta) => p.mtime), m.mtime) by {
      AfterField(m, es, global, (p: PaxMeta) => p.mtime);
    }
    assert a.path == Or(Last(es, global, (p: PaxMeta) => p.path), m.path) by {
      AfterField(m, es, global, (p: PaxMeta) => p.path);
    }
    assert a.size == Or(Last(es, global, (p: PaxMeta) => p.size), m.size) by {
      AfterField(m, es, global, (p: PaxMeta) => p.size);
    }
    assert a.uid == Or(Last(es, global, (p: PaxMeta) => p.uid), m.uid) by {
      AfterField(m, es, global, (p: PaxMeta) => p.uid);
    }
    assert a.uname == Or(Last(es, global, (p: PaxMeta) => p.uname), m.uname) by {
      AfterField(m, es, global, (p: PaxMeta) => p.uname);
    }
  }

  // ---------------------------------------------------------------- the header

  /** What is left of a field of `bytes` in front of its first NUL. */
  function FieldText(b: Block, start: nat, end: nat): bytes
    requires start <= end <= 512
  {
    UpToNul(b[start..end])
  }

  function FieldNumber(b: Block, start: nat, end: nat): u64
    requires start <= end <= 512
  {
    OctalFrom(0, b[start..end])
  }

  /** The prefix field, when it is in use, comes first and ends at a slash. */
  function SplitPath(b: Block, start: nat, end: nat): bytes
    requires start <= end <= 512
  {
    if b[345] == 0 then FieldText(b, start, end) else FieldText(b, 345, 500) + ['/' as byte] + FieldText(b, start, end)
  }

  function LinkOf(b: Block): bytes {
    if b[157] == 0 then [] else SplitPath(b, 157, 257)
  }

  /** Octal, or base 256 when the top bit is set. */
  function SizeOf(b: Block): u64 {
    if b[124] < 128 then FieldNumber(b, 124, 136) else Base256From((b[124] - 128) as int, b[125..136])
  }

  /** The type that a typeflag names; some archives write files with a NUL or a 7. */
  predicate HasType(t: FileType, ch: byte) {
    match t
    case File => ch == '0' as byte || ch == 0 || ch == '7' as byte
    case Hardlink => ch == '1' as byte
    case Symlink => ch == '2' as byte
    case Chardev => ch == '3' as byte
    case Blockdev => ch == '4' as byte
    case Directory => ch == '5' as byte
    case Fifo => ch == '6' as byte
    case Unknown => 0 < ch < '0' as byte || ch > '7' as byte
  }

  lemma EmptyField(s: bytes)
    requires |s| > 0
    ensures UpToNul(s) == [] <==> s[0] == 0
  {
  }

  lemma ReadsPath(b: Block, f: Field)
    requires f.InBlock()
    ensures ReadPath(b, f) == SplitPath(b, f.start, f.start + f.length)
  {
    hide UpToNul;
    EmptyField(b[345..500]);
    assert b[345..500][0] == b[345];
  }

  lemma LastBlock(next: PaxMeta, global: PaxMeta, b: Block, rest: bytes)
    requires b[156] != 'x' as byte && b[156] != 'g' as byte && b[156] != 'L' as byte && b[156] != 'K' as byte
    requires !AllZero(b)
    ensures NextFrom(next, global, b + rest) == Header(Resolve(next, global, b), global, rest)
  {
    hide Resolve, Absorb, ReadContent, AllZero;
    var s := b + rest;
    assert s[..BLOCK_SIZE] == b && s[BLOCK_SIZE..] == rest;
  }

  /** Resolution, field by field and byte by byte. */
  lemma ResolvedFields(next: PaxMeta, global: PaxMeta, b: Block)
    ensures var m := Resolve(next, global, b);
            && HasType(m.typeflag, b[156])
            && m.mode == FieldNumber(b, 100, 108) % 0x1_0000_0000
            && m.devmajor == FieldNumber(b, 329, 337) % 0x1_0000_0000
            && m.devminor == FieldNumber(b, 337, 345) % 0x1_0000_0000
            && m.atime == Or(next.atime, global.atime)
            && m.charset == Or(next.charset, global.charset)
            && m.comment == Or(next.comment, global.comment)
            && m.hdrcharset == Or(next.hdrcharset, global.hdrcharset)
            && m.gid == Get(Or(next.gid, global.gid), FieldNumber(b, 116, 124))
            && m.gname == Get(Or(next.gname, global.gname), FieldText(b, 297, 329))
            && m.linkpath == Get(Or(next.linkpath, global.linkpath), LinkOf(b))
            && m.mtime == Get(Or(next.mtime, global.mtime), Time(false, FieldNumber(b, 136, 148), []))
            && m.path == Get(Or(next.path, global.path), SplitPath(b, 0, 100))
            && m.size == Get(Or(next.size, global.size), SizeOf(b))
            && m.uid == Get(Or(next.uid, global.uid), FieldNumber(b, 108, 116))
            && m.uname == Get(Or(next.uname, global.uname), FieldText(b, 265, 297))
  {
    hide UpToNul, OctalFrom, Base256From, ReadPath, SplitPath;
    ReadsPath(b, UST_NAME);
    ReadsPath(b, UST_LINKNAME);
    assert b[124..136][1..] == b[125..136];
  }

  /** The header in front of which any entries stand, for every block: each field is what the last entry for the
      next header says, else what the last entry for all headers says, else what was known before, else what the
      block holds. Only what the entries for all headers say is kept. */
  lemma ResolvesEachField(before: PaxMeta, es: seq<Extra>, b: Block, rest: bytes)
    requires AllReadable(es) && !AllZero(b)
    requires b[156] != 'x' as byte && b[156] != 'g' as byte && b[156] != 'L' as byte && b[156] != 'K' as byte
    ensures var r := NextHeader(before, Text(es) + b + rest);
            && r.Header? && r.rest == rest
            && HasType(r.meta.typeflag, b[156])
            && r.meta.mode == FieldNumber(b, 100, 108) % 0x1_0000_0000
            && r.meta.devmajor == FieldNumber(b, 329, 337) % 0x1_0000_0000
            && r.meta.devminor == FieldNumber(b, 337, 345) % 0x1_0000_0000
            && r.meta.atime == Chosen(es, before, (p: PaxMeta) => p.atime)
            && r.meta.charset == Chosen(es, before, (p: PaxMeta) => p.charset)
            && r.meta.comment == Chosen(es, before, (p: PaxMeta) => p.comment)
            && r.meta.hdrcharset == Chosen(es, before, (p: PaxMeta) => p.hdrcharset)
            && r.meta.gid == Get(Chosen(es, before, (p: PaxMeta) => p.gid), FieldNumber(b, 116, 124))
            && r.meta.gname == Get(Chosen(es, before, (p: PaxMeta) => p.gname), FieldText(b, 297, 329))
            && r.meta.linkpath == Get(Chosen(es, before, (p: PaxMeta) => p.linkpath), LinkOf(b))
            && r.meta.mtime == Get(Chosen(es, before, (p: PaxMeta) => p.mtime),
                              Time(false, FieldNumber(b, 136, 148), []))
            && r.meta.path == Get(Chosen(es, before, (p: PaxMeta) => p.path), SplitPath(b, 0, 100))
            && r.meta.size == Get(Chosen(es, before, (p: PaxMeta) => p.size), SizeOf(b))
            && r.meta.uid == Get(Chosen(es, before, (p: PaxMeta) => p.uid), FieldNumber(b, 108, 116))
            && r.meta.uname == Get(Chosen(es, before, (p: PaxMeta) => p.uname), FieldText(b, 265, 297))
  {
    hide NextFrom, FieldNumber, FieldText, LinkOf, SizeOf, SplitPath, Last, After, Text, AllZero, AllReadable;
    hide Resolve;
    AbsorbExtras(es, EMPTY, before, b + rest);
    assert Text(es) + b + rest == Text(es) + (b + rest);
    AfterFields(EMPTY, es, false);
    AfterFields(before, es, true);
    LastBlock(After(EMPTY, es, false), After(before, es, true), b, rest);
    ResolvedFields(After(EMPTY, es, false), After(before, es, true), b);
  }

  /** What the entries say of all headers stays known, on top of what was known before. */
  lemma KeepsGlobals(before: PaxMeta, es: seq<Extra>, b: Block, rest: bytes)
    requires AllReadable(es) && !AllZero(b)
    requires b[156] != 'x' as byte && b[156] != 'g' as byte && b[156] != 'L' as byte && b[156] != 'K' as byte
    ensures var r := NextHeader(before, Text(es) + b + rest);
            && r.Header?
            && r.global.atime == Or(Last(es, true, (p: PaxMeta) => p.atime), before.atime)
            && r.global.charset == Or(Last(es, true, (p: PaxMeta) => p.charset), before.charset)
            && r.global.comment == Or(Last(es, true, (p: PaxMeta) => p.comment), before.comment)
            && r.global.gid == Or(Last(es, true, (p: PaxMeta) => p.gid), before.gid)
            && r.global.gname == Or(Last(es, true, (p: PaxMeta) => p.gname), before.gname)
            && r.global.hdrcharset == Or(Last(es, true, (p: PaxMeta) => p.hdrcharset), before.hdrcharset)
            && r.global.linkpath == Or(Last(es, true, (p: PaxMeta) => p.linkpath), before.linkpath)
            && r.global.mtime == Or(Last(es, true, (p: PaxMeta) => p.mtime), before.mtime)
            && r.global.path == Or(Last(es, true, (p: PaxMeta) => p.path), before.path)
            && r.global.size == Or(Last(es, true, (p: PaxMeta) => p.size), before.size)
            && r.global.uid == Or(Last(es, true, (p: PaxMeta) => p.uid), before.uid)
            && r.global.uname == Or(Last(es, true, (p: PaxMeta) => p.uname), before.uname)
  {
    hide NextFrom, Last, After, Text, AllZero, AllReadable, Resolve;
    AbsorbExtras(es, EMPTY, before, b + rest);
    assert Text(es) + b + rest == Text(es) + (b + rest);
    AfterFields(before, es, true);
    LastBlock(After(EMPTY, es, false), After(before, es, true), b, rest);
  }

  // ---------------------------------------------------------------- a block that was written

  function Seconds(t: Time): nat {
    if t.negative then 0 else if t.whole < 0x1_0000_0000_0000_0000 then t.whole else 0xFFFF_FFFF_FFFF_FFFF
  }

  /** Every field of a written block, by its place. */
  lemma WrittenFields(meta: Metadata)
    ensures var h := HeaderBlock(meta);
            && HasType(meta.typeflag, h[156])
            && (meta.typeflag == File ==> h[156] == '0' as byte)
            && (meta.typeflag == Unknown ==> h[156] == '?' as byte)
            && FieldNumber(h, 100, 108) == meta.mode % 0x20_0000
            && FieldNumber(h, 108, 116) == meta.uid % 0x20_0000
            && FieldNumber(h, 116, 124) == meta.gid % 0x20_0000
            && SizeOf(h) == meta.size % 0x2_0000_0000
            && FieldNumber(h, 136, 148) == Seconds(meta.mtime) % 0x2_0000_0000
            && FieldNumber(h, 329, 337) == meta.devmajor % 0x20_0000
            && FieldNumber(h, 337, 345) == meta.devminor % 0x20_0000
            && SplitPath(h, 0, 100) == FirstOf(meta.path, 100)
            && LinkOf(h) == FirstOf(meta.linkpath, 100)
            && FieldText(h, 265, 297) == FirstOf(meta.uname, 32)
            && FieldText(h, 297, 329) == FirstOf(meta.gname, 32)
  {
    hide HeaderBlock, UpToNul, OctalFrom, Base256From;
    var h := HeaderBlock(meta);
    HeaderBlockFields(meta);
    Pow8Seven();
    assert h[156] == FieldOf(h, UST_TYPEFLAG)[0];
    EmptyField(h[345..500]);
    EmptyField(h[157..257]);
    assert h[345..500][0] == h[345] && h[157..257][0] == h[157];
    assert h[124..136][1..] == h[125..136];
  }

  /** A block says that it is a ustar header, and its checksum is the sum of its bytes with spaces for the
      checksum itself. */
  predicate Sealed(b: Block) {
    && b[257..262] == Ascii("ustar") && b[262] == 0 && b[263..265] == Ascii("00")
    && FieldNumber(b, 148, 156) == Sum(b[..148] + Ascii("        ") + b[156..])
  }

  lemma StampedParts(block: Block)
    ensures var b := Stamp(block);
            b[257..262] == Ascii("ustar") && b[262] == block[262] && b[263..265] == Ascii("00")
  {
    hide Put;
    var b1 := PutStr(block, UST_CHKSUM, CHKSUM_BLANK);
    var b2 := PutStr(b1, UST_MAGIC, USTAR_MAGIC);
    var b3 := PutStr(b2, UST_VERSION, USTAR_VERSION);
    assert USTAR_MAGIC == Ascii("ustar") && USTAR_VERSION == Ascii("00");
    var magic, nul := Ustar.Field.Field(257, 5), Ustar.Field.Field(262, 1);
    assert FieldOf(b3, magic) == FieldOf(b2, magic);
    assert FieldOf(b3, nul) == FieldOf(b2, nul) == FieldOf(b1, nul) == FieldOf(block, nul);
    assert FieldOf(b3, nul)[0] == b3[262] && FieldOf(block, nul)[0] == block[262];
  }

  lemma SealIsSealed(block: Block)
    requires block[262] == 0
    ensures Sealed(Seal(block))
  {
    hide Put, Sum, Stamp, OctalField, Ascii, OctalFrom;
    var b, r := Stamp(block), Seal(block);
    StampedParts(block);
    SealedChecksum(block);
    var magic, nul, version := Ustar.Field.Field(257, 5), Ustar.Field.Field(262, 1), Ustar.Field.Field(263, 2);
    assert FieldOf(r, magic) == FieldOf(b, magic) && FieldOf(r, version) == FieldOf(b, version);
    assert FieldOf(r, nul) == FieldOf(b, nul);
    assert FieldOf(r, nul)[0] == r[262] && FieldOf(b, nul)[0] == b[262];
    Spaces(r);
  }

  lemma Spaces(b: Block)
    ensures Put(b, UST_CHKSUM.start, CHKSUM_BLANK) == b[..148] + Ascii("        ") + b[156..]
  {
    assert CHKSUM_BLANK == Ascii("        ");
  }

  lemma NulStays(meta: Metadata)
    ensures FillRest(FillNumbers(PutStr(ZeroBlock(), UST_NAME, meta.path), meta), meta)[262] == 0
  {
    hide Put, FillRest, FillNumbers;
    var nul := Ustar.Field.Field(262, 1);
    var b0 := PutStr(ZeroBlock(), UST_NAME, meta.path);
    var b1 := FillNumbers(b0, meta);
    FillNumbersKeeps(b0, meta, nul);
    FillRestKeeps(b1, meta, nul);
    assert FieldOf(b0, nul) == FieldOf(ZeroBlock(), nul);
    assert FieldOf(ZeroBlock(), nul)[0] == 0;
    assert FieldOf(FillRest(b1, meta), nul)[0] == FillRest(b1, meta)[262];
  }

  /** Every header block that is written, of an entry or of records in front of it, is sealed. */
  lemma WritesSealed(meta: Metadata, ch: byte, content: bytes)
    ensures Sealed(HeaderBlock(meta)) && Sealed(RawEntry(ch, content)[..512])
  {
    hide Seal, FillRest, FillNumbers, PutStr, PutOctal, Sealed, Stringify, Put;
    NulStays(meta);
    SealIsSealed(FillRest(FillNumbers(PutStr(ZeroBlock(), UST_NAME, meta.path), meta), meta));
    var b := RawBlockOf(ch, |content|);
    SealIsSealed(b);
    assert RawEntry(ch, content)[..512] == Seal(b);
  }

  lemma RawBlockOf(ch: byte, n: nat) returns (b: Block)
    ensures b == PutOctal(Put(ZeroBlock(), UST_TYPEFLAG.start, [ch]), UST_SIZE, n) && b[262] == 0
  {
    hide Put, OctalField;
    var nul := Ustar.Field.Field(262, 1);
    var b0 := Put(ZeroBlock(), UST_TYPEFLAG.start, [ch]);
    b := PutOctal(b0, UST_SIZE, n);
    assert FieldOf(b, nul) == FieldOf(b0, nul) == FieldOf(ZeroBlock(), nul);
    assert FieldOf(b, nul)[0] == b[262] && FieldOf(ZeroBlock(), nul)[0] == 0;
  }

  /** What a field of `n` bytes keeps of a text. */
  function FirstOf(s: bytes, n: nat): bytes {
    UpToNul(if |s| <= n then s else s[..n])
  }

  function GlobalAndNext(g: PaxMeta, x: PaxMeta): bytes {
    RawEntry('g' as byte, Stringify(g)) + RawEntry('x' as byte, Stringify(x))
  }

  lemma AbsorbTwo(g: PaxMeta, x: PaxMeta, rest: bytes)
    requires AllFit(Records(g)) && AllFit(Records(x))
    ensures NextFrom(EMPTY, EMPTY, GlobalAndNext(g, x) + rest) == NextFrom(x, g, rest)
  {
    hide NextFrom, RawEntry, Stringify, Records, AllFit, PaxMeta.Override;
    var e, f := ForAll(g), ForNext(x);
    assert GlobalAndNext(g, x) + rest == e.Text() + (f.Text() + rest);
    AbsorbExtra(e, EMPTY, EMPTY, f.Text() + rest);
    AbsorbExtra(f, EMPTY, g, rest) by { assert f.Says() == x; }
    OverrideEmpty(g);
    OverrideEmpty(x);
    AfterOne(EMPTY, e);
    AfterOne(EMPTY, f);
    AfterOne(g, f);
  }

  lemma AfterOne(m: PaxMeta, e: Extra)
    ensures After(m, [e], true) == if e.ForAll? then m.Override(e.Says()) else m
    ensures After(m, [e], false) == if e.ForAll? then m else m.Override(e.Says())
  {
    hide PaxMeta.Override, Extra.Says;
    assert [e][1..] == [];
  }

  lemma SameType(t: FileType, ch: byte)
    ensures HasType(t, ch) ==> forall u: FileType :: HasType(u, ch) ==> u == t
  {
  }

  /** A `g` entry, an `x` entry and a block: the `x` records win over the `g` records, and both over the block. */
  lemma NextWinsOverGlobal(g: PaxMeta, x: PaxMeta, meta: Metadata, rest: bytes)
    requires AllFit(Records(g)) && AllFit(Records(x))
    ensures var r := NextHeader(EMPTY, GlobalAndNext(g, x) + HeaderBlock(meta) + rest);
            && r.Header? && r.rest == rest && r.global == g
            && r.meta.typeflag == meta.typeflag
            && r.meta.mode == meta.mode % 0x20_0000
            && r.meta.devmajor == meta.devmajor % 0x20_0000
            && r.meta.devminor == meta.devminor % 0x20_0000
            && r.meta.atime == Or(x.atime, g.atime)
            && r.meta.charset == Or(x.charset, g.charset)
            && r.meta.comment == Or(x.comment, g.comment)
            && r.meta.hdrcharset == Or(x.hdrcharset, g.hdrcharset)
            && r.meta.gid == Get(Or(x.gid, g.gid), meta.gid % 0x20_0000)
            && r.meta.gname == Get(Or(x.gname, g.gname), FirstOf(meta.gname, 32))
            && r.meta.linkpath == Get(Or(x.linkpath, g.linkpath), FirstOf(meta.linkpath, 100))
            && r.meta.mtime == Get(Or(x.mtime, g.mtime), Time(false, Seconds(meta.mtime) % 0x2_0000_0000, []))
            && r.meta.path == Get(Or(x.path, g.path), FirstOf(meta.path, 100))
            && r.meta.size == Get(Or(x.size, g.size), meta.size % 0x2_0000_0000)
            && r.meta.uid == Get(Or(x.uid, g.uid), meta.uid % 0x20_0000)
            && r.meta.uname == Get(Or(x.uname, g.uname), FirstOf(meta.uname, 32))
  {
    hide HeaderBlock, GlobalAndNext, AllFit, Records, NextFrom, FieldNumber, FieldText, LinkOf, SizeOf, SplitPath;
    hide FirstOf, Seconds, AllZero, HasType, Resolve;
    var h := HeaderBlock(meta);
    AbsorbTwo(g, x, h + rest);
    assert GlobalAndNext(g, x) + h + rest == GlobalAndNext(g, x) + (h + rest);
    NextHeaderBlock(x, g, meta, rest);
    ResolvedFields(x, g, h);
    WrittenFields(meta);
    SameType(meta.typeflag, h[156]);
  }

  // ---------------------------------------------------------------- a header that was written

  /** The plain block is enough exactly when nothing is set that only a record can hold, every number fits its
      field, every text fits its field, and the time has no fraction and fits 12 octal digits. */
  lemma OneBlockExactly(meta: Metadata)
    ensures WriteHeader(meta) == HeaderBlock(meta) <==>
            && meta.atime.None? && meta.charset.None? && meta.comment.None? && meta.hdrcharset.None?
            && meta.uid < 0x20_0000 && meta.gid < 0x20_0000 && meta.size < 0x2_0000_0000
            && |meta.uname| <= 32 && |meta.gname| <= 32 && |meta.path| <= 100 && |meta.linkpath| <= 100
            && meta.mtime.fraction == [] && (meta.mtime.negative || meta.mtime.whole < 0x10_0000_0000)
  {
    hide HeaderBlock, RawEntry, Stringify;
    var ext := Extended(meta);
    if Stringify(ext) == [] {
      NoRecordsText(ext);
      assert [] + HeaderBlock(meta) == HeaderBlock(meta);
    } else {
      EntryIsLonger(Stringify(ext), HeaderBlock(meta));
    }
    if ext == EMPTY {
      NothingPrinted();
    }
  }

  lemma EntryIsLonger(content: bytes, h: bytes)
    ensures RawEntry('x' as byte, content) + h != h
  {
    hide Seal, PutOctal, Padded;
    assert |RawEntry('x' as byte, content) + h| > |h|;
  }

  lemma NothingPrinted()
    ensures Stringify(EMPTY) == []
  {
    hide RecordText, TimeText;
    assert RecOf(Atime, EMPTY) == [] && RecOf(Charset, EMPTY) == [] && RecOf(Comment, EMPTY) == [];
    assert RecOf(Gid, EMPTY) == [] && RecOf(Gname, EMPTY) == [] && RecOf(Hdrcharset, EMPTY) == [];
    assert RecOf(Linkpath, EMPTY) == [] && RecOf(Mtime, EMPTY) == [] && RecOf(Path, EMPTY) == [];
    assert RecOf(Size, EMPTY) == [] && RecOf(Uid, EMPTY) == [] && RecOf(Uname, EMPTY) == [];
    assert Records(EMPTY) == [] by { hide RecOf; }
  }

  /** What comes back of a header that was written, field by field. */
  lemma WrittenHeader(meta: Metadata, rest: bytes)
    requires AllFit(Records(Extended(meta)))
    ensures var r := NextHeader(EMPTY, WriteHeader(meta) + rest);
            && r.Header? && r.rest == rest && r.global == EMPTY
            && r.meta.typeflag == meta.typeflag
            && r.meta.mode == meta.mode % 0x20_0000
            && r.meta.devmajor == meta.devmajor % 0x20_0000
            && r.meta.devminor == meta.devminor % 0x20_0000
            && r.meta.atime == meta.atime
            && r.meta.charset == meta.charset
            && r.meta.comment == meta.comment
            && r.meta.hdrcharset == meta.hdrcharset
            && r.meta.gid == meta.gid
            && r.meta.uid == meta.uid
            && r.meta.size == meta.size
            && r.meta.gname == (if |meta.gname| > 32 then meta.gname else UpToNul(meta.gname))
            && r.meta.uname == (if |meta.uname| > 32 then meta.uname else UpToNul(meta.uname))
            && r.meta.linkpath == (if |meta.linkpath| > 100 then meta.linkpath else UpToNul(meta.linkpath))
            && r.meta.path == (if |meta.path| > 100 then meta.path else UpToNul(meta.path))
            && r.meta.mtime ==
               if meta.mtime.fraction != [] || (!meta.mtime.negative && meta.mtime.whole >= 0x10_0000_0000)
               then meta.mtime
               else Time(false, if meta.mtime.negative then 0 else meta.mtime.whole % 0x2_0000_0000, [])
  {
    hide NextHeader, WriteHeader, UpToNul, Records, AllFit, Extended, Stringify;
    StringifyIsShort(Extended(meta));
    ReadWrittenHeader(meta, rest);
  }

  // ---------------------------------------------------------------- the end, and input that is refused

  /** Behind any entries for it, a zero block ends the archive exactly when another follows. */
  lemma NeedsTwoZeroBlocks(before: PaxMeta, es: seq<Extra>, rest: bytes)
    requires AllReadable(es)
    ensures var r := NextHeader(before, Text(es) + Zeros(512) + rest);
            if |rest| >= 512 && forall i | 0 <= i < 512 :: rest[i] == 0 then r.EndOfArchive? && r.rest == rest[512..]
            else r == Failed
  {
    hide NextFrom, After, AllReadable, Text;
    var z := Zeros(512);
    AbsorbExtras(es, EMPTY, before, z + rest);
    assert Text(es) + z + rest == Text(es) + (z + rest);
    ZeroBlockNext(After(EMPTY, es, false), After(before, es, true), z, rest);
  }

  lemma ZeroBlockNext(next: PaxMeta, global: PaxMeta, z: Block, rest: bytes)
    requires AllZero(z)
    ensures NextFrom(next, global, z + rest) ==
            if |rest| >= 512 && AllZero(rest[..512]) then EndOfArchive(global, rest[512..]) else Failed
  {
    hide Resolve, Absorb, ReadContent, AllZero;
    var s := z + rest;
    assert s[..BLOCK_SIZE] == z && s[BLOCK_SIZE..] == rest;
    assert z[156] == 0 by { FirstZero(z, 156); }
  }

  lemma FirstZero(z: Block, i: nat)
    requires AllZero(z) && i < 512
    ensures z[i] == 0
  {
  }

  /** Input that ends inside a block is refused. */
  lemma CutShort(before: PaxMeta, es: seq<Extra>, rest: bytes)
    requires AllReadable(es) && |rest| < 512
    ensures NextHeader(before, Text(es) + rest) == Failed
  {
    hide After, AllReadable, Text, Resolve, Absorb;
    AbsorbExtras(es, EMPTY, before, rest);
  }

  /** Entries with a record that cannot be read are refused, whatever follows. */
  lemma UnreadableRefused(before: PaxMeta, es: seq<Extra>, ch: byte, m: PaxMeta, rest: bytes)
    requires AllReadable(es) && (ch == 'x' as byte || ch == 'g' as byte)
    requires !AllFit(Records(m)) && |Stringify(m)| <= 0x1_FFFF_FFFF
    ensures NextHeader(before, Text(es) + RawEntry(ch, Stringify(m)) + rest) == Failed
  {
    hide NextFrom, After, AllReadable, Text, RawEntry, Stringify, Records, AllFit;
    var next, global := After(EMPTY, es, false), After(before, es, true);
    AbsorbExtras(es, EMPTY, before, RawEntry(ch, Stringify(m)) + rest);
    assert Text(es) + RawEntry(ch, Stringify(m)) + rest == Text(es) + (RawEntry(ch, Stringify(m)) + rest);
    ParseStringify(next, m);
    ParseStringify(global, m);
    NextRawEntry(next, global, ch, Stringify(m), rest);
  }

  /** Content takes the least whole number of blocks that holds it, and is refused when they are not all there. */
  lemma ContentExactly(s: bytes, size: nat, n: nat)
    requires n % 512 == 0 && n - 512 < size <= n
    ensures ReadContent(s, size) == if |s| < n then None else Some((s[..size], s[n..]))
  {
  }
}
