/** Compression as Scar uses it: a compressor is restarted to end a member, and a decompressor started
    at a member yields that member's bytes (scar-rs/scar/src/compression/mod.rs, RFC 1952 section 2.2). */
module Codec {
  import opened Bytes
  import opened Decimal

  /** What a compressor is asked to do between its creation and its `finish`. */
  datatype Op = Write(data: bytes) | Flush

  /** The bytes that went into a compressor. */
  function Raw(ops: seq<Op>): bytes {
    if ops == [] then []
    else Raw(ops[..|ops| - 1]) + (match ops[|ops| - 1] case Write(data) => data case Flush => [])
  }

  lemma RawPush(ops: seq<Op>, op: Op)
    ensures Raw(ops + [op]) == Raw(ops) + (match op case Write(data) => data case Flush => [])
  {
    assert (ops + [op])[..|ops|] == ops;
  }

  /** A compression format. `emitted` is what a compressor has passed on after `ops`, `member` the whole
      member once it is finished, `decoded` what a decompressor yields from the bytes it has read. */
  datatype Codec = Codec(
    emitted: seq<Op> -> bytes,
    member: seq<Op> -> bytes,
    decoded: bytes -> bytes,
    eofMarker: bytes)

  /** Output is only ever appended to. */
  ghost predicate Appends(c: Codec) {
    && (forall ops, op :: c.emitted(ops) <= c.emitted(ops + [op]))
    && (forall ops :: c.emitted(ops) <= c.member(ops))
  }

  /** Reading more input never takes decoded output back. */
  ghost predicate Incremental(c: Codec) {
    forall a: bytes, b: bytes :: c.decoded(a) <= c.decoded(a + b)
  }

  /** `enc` is a member holding `raw`: decoding from its start yields at least `raw`. */
  ghost predicate Holds(c: Codec, enc: bytes, raw: bytes) {
    forall rest: bytes :: raw <= c.decoded(enc + rest)
  }

  /** The same, and the end of the member reads as the end of input. */
  ghost predicate HoldsExactly(c: Codec, enc: bytes, raw: bytes) {
    forall rest: bytes :: c.decoded(enc + rest) == raw
  }

  ghost predicate Faithful(c: Codec) {
    forall ops :: Holds(c, c.member(ops), Raw(ops))
  }

  ghost predicate Bounded(c: Codec) {
    forall ops :: HoldsExactly(c, c.member(ops), Raw(ops))
  }

  /** A decoder that goes on with the next member, as those of `plain` and of zstd do. */
  ghost predicate Continuing(c: Codec) {
    forall ops, rest: bytes :: c.decoded(c.member(ops) + rest) == Raw(ops) + c.decoded(rest)
  }

  lemma ContinuingIsFaithful(c: Codec)
    requires Continuing(c)
    ensures Faithful(c)
  {
  }

  lemma BoundedIsFaithful(c: Codec)
    requires Bounded(c)
    ensures Faithful(c)
  {
    forall ops
      ensures Holds(c, c.member(ops), Raw(ops))
    {
      assert HoldsExactly(c, c.member(ops), Raw(ops));
    }
  }

  const PLAIN_EOF: bytes := [83, 67, 65, 82, 45, 69, 79, 70, 10]

  /** The `plain` format: no compression, and no mark where a member ends. */
  const PLAIN := Codec((ops: seq<Op>) => Raw(ops), (ops: seq<Op>) => Raw(ops), (s: bytes) => s, PLAIN_EOF)

  lemma PlainLaws()
    ensures Appends(PLAIN) && Incremental(PLAIN) && Continuing(PLAIN)
  {
    forall ops, op
      ensures PLAIN.emitted(ops) <= PLAIN.emitted(ops + [op])
    {
      RawPush(ops, op);
    }
  }

  /** A member that says how long it is; it shows that the laws of a bounded format can be met. */
  function Stored(ops: seq<Op>): bytes {
    Digits(|Raw(ops)|) + [SPACE] + Raw(ops)
  }

  function Unstored(s: bytes): bytes {
    var n := DigitRun(s);
    if n == |s| || s[n] != SPACE then [] else FirstBytes(s[n + 1..], Value(s[..n]))
  }

  function FirstBytes(t: bytes, n: nat): bytes {
    if n <= |t| then t[..n] else t
  }

  const STORED := Codec((ops: seq<Op>) => [], (ops: seq<Op>) => Stored(ops), (s: bytes) => Unstored(s), PLAIN_EOF)

  lemma UnstoredSplit(d: bytes, t: bytes)
    requires forall i | 0 <= i < |d| :: IsDigit(d[i])
    ensures Unstored(d + [SPACE] + t) == FirstBytes(t, Value(d))
  {
    hide Value, DigitRun, ReadNum, Accumulate, FirstBytes;
    NumberThenSpace(d, t);
  }

  lemma StoredLaws()
    ensures Appends(STORED) && Incremental(STORED) && Bounded(STORED)
  {
    forall a: bytes, b: bytes
      ensures Unstored(a) <= Unstored(a + b)
    {
      UnstoredGrows(a, b);
    }
    forall ops, rest: bytes
      ensures Unstored(Stored(ops) + rest) == Raw(ops)
    {
      StoredBack(ops, rest);
    }
  }

  lemma StoredBack(ops: seq<Op>, rest: bytes)
    ensures Unstored(Stored(ops) + rest) == Raw(ops)
  {
    hide Digits, Value, Unstored, Raw;
    var raw := Raw(ops);
    assert Stored(ops) + rest == Digits(|raw|) + [SPACE] + (raw + rest);
    UnstoredSplit(Digits(|raw|), raw + rest);
    ValueDigits(|raw|);
  }

  lemma UnstoredNothing(s: bytes)
    ensures DigitRun(s) == |s| || s[DigitRun(s)] != SPACE ==> Unstored(s) == []
  {
    hide DigitRun, Value;
  }

  lemma PrefixGrows(t: bytes, b: bytes, n: nat)
    ensures FirstBytes(t, n) <= FirstBytes(t + b, n)
  {
  }

  lemma UnstoredGrows(a: bytes, b: bytes)
    ensures Unstored(a) <= Unstored(a + b)
  {
    hide DigitRun, Value, Unstored;
    var n := DigitRun(a);
    UnstoredNothing(a);
    if n < |a| && a[n] == SPACE {
      var d, t := a[..n], a[n + 1..];
      assert a == d + [SPACE] + t;
      UnstoredSplit(d, t);
      assert a + b == d + [SPACE] + (t + b);
      UnstoredSplit(d, t + b);
      PrefixGrows(t, b, Value(d));
    }
  }
}
