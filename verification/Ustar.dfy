/** The 512-byte ustar header block and its fields (scar-rs/scar/src/pax.rs). */
module Ustar {
  import opened Bytes

  datatype Field = Field(start: nat, length: nat) {
    predicate InBlock() {
      0 < length && start + length <= BLOCK_SIZE
    }
  }

  const UST_NAME := Field(0, 100)
  const UST_MODE := Field(100, 8)
  const UST_UID := Field(108, 8)
  const UST_GID := Field(116, 8)
  const UST_SIZE := Field(124, 12)
  const UST_MTIME := Field(136, 12)
  const UST_CHKSUM := Field(148, 8)
  const UST_TYPEFLAG := Field(156, 1)
  const UST_LINKNAME := Field(157, 100)
  const UST_MAGIC := Field(257, 6)
  const UST_VERSION := Field(263, 2)
  const UST_UNAME := Field(265, 32)
  const UST_GNAME := Field(297, 32)
  const UST_DEVMAJOR := Field(329, 8)
  const UST_DEVMINOR := Field(337, 8)
  const UST_PREFIX := Field(345, 155)

  type Block = b: bytes | |b| == BLOCK_SIZE witness Zeros(BLOCK_SIZE)

  function FieldOf(block: Block, f: Field): (s: bytes)
    requires f.InBlock()
    ensures |s| == f.length
  {
    block[f.start..f.start + f.length]
  }

  predicate Apart(start: nat, length: nat, f: Field) {
    start + length <= f.start || f.start + f.length <= start
  }

  /** The block with `data` stored from `start` on; every field apart from that range keeps its bytes. */
  function Put(block: Block, start: nat, data: bytes): (r: Block)
    requires start + |data| <= BLOCK_SIZE
    ensures r[start..start + |data|] == data
    ensures forall f: Field | f.InBlock() && Apart(start, |data|, f) :: FieldOf(r, f) == FieldOf(block, f)
  {
    block[..start] + data + block[start + |data|..]
  }

  // ---------------------------------------------------------------- octal fields

  function Pow8(k: nat): (p: nat)
    ensures p > 0
  {
    if k == 0 then 1 else 8 * Pow8(k - 1)
  }

  /** The `width` lowest octal digits of `n`. */
  function OctalText(n: nat, width: nat): (s: bytes)
    ensures |s| == width
    ensures forall i | 0 <= i < width :: 48 <= s[i] < 56
  {
    if width == 0 then [] else OctalText(n / 8, width - 1) + [(48 + n % 8) as byte]
  }

  /** One step of the octal reader: other characters shift without adding, and the value wraps. */
  function OctalStep(acc: u64, b: byte): u64 {
    var shifted := Wrap(acc * 8);
    if 48 <= b < 56 then Wrap(shifted + (b - 48) as int) else shifted
  }

  /** Octal digits up to the first space or NUL. */
  function OctalFrom(acc: u64, s: bytes): u64
    decreases s
  {
    if s == [] || s[0] == SPACE || s[0] == NUL then acc else OctalFrom(OctalStep(acc, s[0]), s[1..])
  }

  function ReadOctal(block: Block, f: Field): u64
    requires f.InBlock()
  {
    OctalFrom(0, FieldOf(block, f))
  }

  function Base256From(acc: u64, s: bytes): u64
    decreases s
  {
    if s == [] then acc else Base256From(Wrap(Wrap(acc * 256) + s[0] as int), s[1..])
  }

  /** Sizes are octal, or base-256 when the first byte has its top bit set. */
  function ReadSize(block: Block, f: Field): u64
    requires f.InBlock()
  {
    var s := FieldOf(block, f);
    if s[0] < 128 then ReadOctal(block, f) else Base256From((s[0] - 128) as int, s[1..])
  }

  function ReadStr(block: Block, f: Field): bytes
    requires f.InBlock()
  {
    UpToNul(FieldOf(block, f))
  }

  /** A path field, behind the prefix field and a slash when the prefix is in use. */
  function ReadPath(block: Block, f: Field): bytes
    requires f.InBlock()
  {
    var prefix := ReadStr(block, UST_PREFIX);
    if prefix == [] then ReadStr(block, f) else prefix + [SLASH] + ReadStr(block, f)
  }

  /** What an octal field of `length` bytes stores for `n`. */
  function OctalField(n: nat, length: nat): (s: bytes)
    requires length > 0
    ensures |s| == length
  {
    OctalText(n % Pow8(length - 1), length - 1) + [NUL]
  }

  lemma {:induction false} OctalFromAppend(acc: u64, s: bytes, t: bytes)
    requires forall i | 0 <= i < |s| :: s[i] != SPACE && s[i] != NUL
    ensures OctalFrom(acc, s + t) == OctalFrom(OctalFrom(acc, s), t)
    decreases s
  {
    if s == [] {
      assert s + t == t;
    } else {
      assert (s + t)[1..] == s[1..] + t;
      OctalFromAppend(OctalStep(acc, s[0]), s[1..], t);
    }
  }

  lemma OctalStepExact(n: u64)
    ensures OctalStep(n / 8, (48 + n % 8) as byte) == n
  {
    assert Wrap(n / 8 * 8) == n / 8 * 8;
    assert Wrap(n) == n;
  }

  lemma {:induction false} OctalRoundTrip(n: u64, width: nat)
    requires n < Pow8(width)
    ensures OctalFrom(0, OctalText(n, width)) == n
  {
    if width > 0 {
      var last := (48 + n % 8) as byte;
      OctalRoundTrip(n / 8, width - 1);
      OctalFromAppend(0, OctalText(n / 8, width - 1), [last]);
      OctalStepExact(n);
      assert [last][1..] == [];
    }
  }

  lemma ModBound(n: nat, p: nat)
    requires p > 0
    ensures 0 <= n % p < p && n % p <= n
  {
  }

  /** An octal field keeps a number modulo 8^(length - 1). */
  lemma OctalFieldRoundTrip(n: u64, length: nat)
    requires length > 0
    ensures OctalFrom(0, OctalField(n, length)) == n % Pow8(length - 1)
  {
    var p := Pow8(length - 1);
    ModBound(n, p);
    var m: u64 := n % p;
    OctalRoundTrip(m, length - 1);
    OctalFromAppend(0, OctalText(m, length - 1), [NUL]);
  }

  // ---------------------------------------------------------------- what a number field means

  /** The number that digits write, the most significant first. */
  function Positional(s: bytes, base: nat, digit: byte -> nat): nat {
    if s == [] then 0 else Positional(s[..|s| - 1], base, digit) * base + digit(s[|s| - 1])
  }

  /** Anything that is not an octal digit counts as 0. */
  function OctalDigit(b: byte): nat {
    if '0' as byte <= b <= '7' as byte then (b - '0' as byte) as nat else 0
  }

  /** An octal field is the number its characters write up to the first space or NUL, modulo 2^64. */
  lemma {:induction false} OctalMeans(s: bytes, rest: bytes)
    requires forall i | 0 <= i < |s| :: s[i] != ' ' as byte && s[i] != 0
    requires rest == [] || rest[0] == ' ' as byte || rest[0] == 0
    ensures OctalFrom(0, s + rest) == Wrap(Positional(s, 8, OctalDigit))
  {
    hide Wrap, OctalStep;
    OctalFromAppend(0, s, rest);
    assert Wrap(0) == 0 by { WrapSmall(0); }
    if s != [] {
      var init, last := s[..|s| - 1], s[|s| - 1];
      OctalMeans(init, []);
      OctalFromAppend(0, init, [last]);
      assert init + [] == init && init + [last] == s && s + [] == s;
      OctalStepMeans(Positional(init, 8, OctalDigit), last);
    }
  }

  lemma OctalStepMeans(v: nat, b: byte)
    ensures OctalStep(Wrap(v), b) == Wrap(v * 8 + OctalDigit(b))
  {
    hide Wrap;
    WrapMultiple(v, 8);
    WrapAdd(v * 8, OctalDigit(b));
  }

  lemma {:induction false} Base256Append(acc: u64, s: bytes, t: bytes)
    ensures Base256From(acc, s + t) == Base256From(Base256From(acc, s), t)
    decreases s
  {
    if s == [] {
      assert s + t == t;
    } else {
      assert (s + t)[1..] == s[1..] + t;
      Base256Append(Wrap(Wrap(acc * 256) + s[0] as int), s[1..], t);
    }
  }

  /** A base 256 field is the number its bytes write, modulo 2^64. */
  lemma {:induction false} Base256Means(first: byte, s: bytes)
    ensures Base256From(first as int, s) ==
            Wrap(Positional([first] + s, 256, (b: byte) => b as nat))
    decreases |s|
  {
    hide Wrap;
    if s == [] {
      assert [first][..0] == [] && [first] + s == [first];
      WrapSmall(first as int);
    } else {
      var init, last := s[..|s| - 1], s[|s| - 1];
      Base256Means(first, init);
      Base256Append(first as int, init, [last]);
      assert init + [last] == s && ([first] + s)[..|s|] == [first] + init && [last][1..] == [];
      WrapMultiple(Positional([first] + init, 256, (b: byte) => b as nat), 256);
      WrapAdd(Positional([first] + init, 256, (b: byte) => b as nat) * 256, last as int);
    }
  }

  // ---------------------------------------------------------------- the block in place

  method BlockWriteStr(block: array<byte>, f: Field, data: bytes)
    requires block.Length == BLOCK_SIZE && f.InBlock()
    modifies block
    ensures block[..] == Put(old(block[..]), f.start, if |data| <= f.length then data else data[..f.length])
  {
    var length := if f.length <= |data| then f.length else |data|;
    forall i | 0 <= i < length {
      block[f.start + i] := data[i];
    }
  }

  method BlockWriteOctal(block: array<byte>, f: Field, num: nat)
    requires block.Length == BLOCK_SIZE && f.InBlock()
    modifies block
    ensures block[..] == Put(old(block[..]), f.start, OctalField(num, f.length))
  {
    var text := OctalField(num, f.length);
    forall i | 0 <= i < f.length {
      block[f.start + i] := text[i];
    }
  }

  method BlockReadOctal(block: array<byte>, f: Field) returns (num: u64)
    requires block.Length == BLOCK_SIZE && f.InBlock()
    ensures num == ReadOctal(block[..], f)
  {
    num := 0;
    var i := f.start;
    var end := f.start + f.length;
    assert block[i..end] == FieldOf(block[..], f);
    while i < end
      invariant f.start <= i <= end
      invariant OctalFrom(num, block[i..end]) == ReadOctal(block[..], f)
    {
      var ch := block[i];
      assert block[i..end][1..] == block[i + 1..end];
      if ch == SPACE || ch == NUL {
        break;
      }
      num := Wrap(num * 8);
      if 48 <= ch < 56 {
        num := Wrap(num + (ch - 48) as int);
      }
      i := i + 1;
    }
  }

  method BlockReadStr(block: array<byte>, f: Field) returns (s: bytes)
    requires block.Length == BLOCK_SIZE && f.InBlock()
    ensures s == ReadStr(block[..], f)
  {
    var len: nat := 0;
    ghost var field := FieldOf(block[..], f);
    while len < f.length
      invariant len <= f.length
      invariant NUL !in field[..len]
    {
      if block[f.start + len] == NUL {
        break;
      }
      len := len + 1;
    }
    s := block[f.start..f.start + len];
    assert field == s + field[len..];
    UpToNulPrefix(s, field[len..]);
    UpToNulWhole(s);
  }

  method BlockReadPath(block: array<byte>, f: Field) returns (s: bytes)
    requires block.Length == BLOCK_SIZE && f.InBlock()
    ensures s == ReadPath(block[..], f)
  {
    s := BlockReadStr(block, UST_PREFIX);
    var name := BlockReadStr(block, f);
    if |s| == 0 {
      return name;
    }
    s := s + [SLASH] + name;
  }

  method BlockReadSize(block: array<byte>, f: Field) returns (num: u64)
    requires block.Length == BLOCK_SIZE && f.InBlock()
    ensures num == ReadSize(block[..], f)
  {
    assert FieldOf(block[..], f)[0] == block[f.start];
    if block[f.start] < 128 {
      num := BlockReadOctal(block, f);
      return;
    }
    num := (block[f.start] - 128) as int;
    var i := f.start + 1;
    var end := f.start + f.length;
    assert block[i..end] == FieldOf(block[..], f)[1..];
    while i < end
      invariant f.start < i <= end
      invariant Base256From(num, block[i..end]) == ReadSize(block[..], f)
    {
      assert block[i..end][1..] == block[i + 1..end];
      num := Wrap(num * 256);
      num := Wrap(num + block[i] as int);
      i := i + 1;
    }
  }

  // ---------------------------------------------------------------- the checksum

  function Sum(s: bytes): nat {
    if s == [] then 0 else Sum(s[..|s| - 1]) + s[|s| - 1] as nat
  }

  lemma {:induction false} SumBound(s: bytes)
    ensures Sum(s) <= 255 * |s|
  {
    if s != [] {
      SumBound(s[..|s| - 1]);
    }
  }

  const CHKSUM_BLANK: bytes := [32, 32, 32, 32, 32, 32, 32, 32]

  /** A header block is valid when its checksum field holds the byte sum of the block with
      that field read as spaces. */
  predicate ChecksumValid(block: Block) {
    ReadOctal(block, UST_CHKSUM) == Sum(Put(block, UST_CHKSUM.start, CHKSUM_BLANK))
  }

  method SumBlock(block: array<byte>) returns (sum: nat)
    requires block.Length == BLOCK_SIZE
    ensures sum == Sum(block[..])
  {
    sum := 0;
    var i := 0;
    while i < block.Length
      invariant i <= block.Length
      invariant sum == Sum(block[..i])
    {
      assert block[..i + 1][..i] == block[..i];
      sum := sum + block[i] as nat;
      i := i + 1;
    }
    assert block[..] == block[..i];
  }
}
