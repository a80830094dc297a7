/** Bytes, machine words and the padding arithmetic shared by every layer of the model. */
module Bytes {

  newtype byte = x: int | 0 <= x < 256
  type bytes = seq<byte>

  const TWO_TO_32: int := 0x1_0000_0000
  const TWO_TO_63: int := 0x8000_0000_0000_0000
  const TWO_TO_64: int := 0x1_0000_0000_0000_0000

  type u32 = x: int | 0 <= x < TWO_TO_32
  type u64 = x: int | 0 <= x < TWO_TO_64

  /** The result of an unsigned 64-bit operation that wraps around. */
  function Wrap(x: int): u64 {
    x % TWO_TO_64
  }

  /** Multiples of 2^64 do not matter. */
  lemma WrapShift(y: int, k: int)
    ensures Wrap(y + k * TWO_TO_64) == Wrap(y)
  {
    var a := (y + k * TWO_TO_64) / TWO_TO_64;
    var b := y / TWO_TO_64;
    assert y + k * TWO_TO_64 == a * TWO_TO_64 + Wrap(y + k * TWO_TO_64);
    assert y == b * TWO_TO_64 + Wrap(y);
    assert Wrap(y + k * TWO_TO_64) - Wrap(y) == (b + k - a) * TWO_TO_64;
    NoMultipleBetween(b + k - a);
  }

  lemma NoMultipleBetween(d: int)
    ensures -TWO_TO_64 < d * TWO_TO_64 < TWO_TO_64 ==> d == 0
  {
  }

  lemma WrapAdd(x: int, d: int)
    ensures Wrap(Wrap(x) + d) == Wrap(x + d)
  {
    WrapShift(Wrap(x) + d, x / TWO_TO_64);
  }

  lemma WrapSmall(x: u64)
    ensures Wrap(x) == x
  {
  }

  lemma WrapMultiple(x: int, k: int)
    ensures Wrap(Wrap(x) * k) == Wrap(x * k)
  {
    var q := x / TWO_TO_64;
    assert x == q * TWO_TO_64 + Wrap(x);
    assert x * k == Wrap(x) * k + (k * q) * TWO_TO_64;
    WrapShift(Wrap(x) * k, k * q);
  }

  /** The result of a signed 64-bit operation that wraps around (two's complement). */
  function WrapSigned(x: int): (r: int)
    ensures -TWO_TO_63 <= r < TWO_TO_63
  {
    var u := x % TWO_TO_64;
    if u < TWO_TO_63 then u else u - TWO_TO_64
  }

  datatype Option<+T> = None | Some(value: T) {
    function OrElse(other: Option<T>): Option<T> {
      if Some? then this else other
    }

    function GetOr(default: T): T {
      if Some? then value else default
    }
  }

  datatype Result<+T> = Ok(value: T) | Err {
    predicate IsFailure() {
      Err?
    }

    function PropagateFailure<U>(): Result<U>
      requires Err?
    {
      Err
    }

    function Extract(): T
      requires Ok?
    {
      value
    }
  }

  /** A list that may fail behind elements that are known already. */
  function Prepended<T>(done: seq<T>, more: Option<seq<T>>): Option<seq<T>> {
    if more.None? then None else Some(done + more.value)
  }

  lemma PrependedNothing<T>(more: Option<seq<T>>)
    ensures Prepended([], more) == more
  {
    if more.Some? {
      assert [] + more.value == more.value;
    }
  }

  lemma NothingBehind<T>(done: seq<T>)
    ensures Prepended(done, Some([])) == Some(done)
  {
    assert done + [] == done;
  }

  lemma PrependedTwice<T>(a: seq<T>, b: seq<T>, more: Option<seq<T>>)
    ensures Prepended(a, Prepended(b, more)) == Prepended(a + b, more)
  {
    if more.Some? {
      assert a + (b + more.value) == a + b + more.value;
    }
  }

  /** `s` from position `n` on; nothing when that is past the end. */
  function Drop(s: bytes, n: nat): bytes {
    if n <= |s| then s[n..] else []
  }

  const NUL: byte := 0
  const LINE_FEED: byte := 10
  const SPACE: byte := 32
  const PLUS: byte := 43
  const MINUS: byte := 45
  const DOT: byte := 46
  const SLASH: byte := 47
  const DIGIT_0: byte := 48
  const DIGIT_9: byte := 57
  const EQUALS: byte := 61

  /** The bytes of an ASCII text. */
  function Ascii(text: string): (s: bytes)
    requires forall i | 0 <= i < |text| :: text[i] < 128 as char
    ensures |s| == |text|
  {
    seq(|text|, i requires 0 <= i < |text| => text[i] as byte)
  }

  const BLOCK_SIZE: nat := 512

  function Zeros(n: nat): (z: bytes)
    ensures |z| == n
    ensures forall i | 0 <= i < n :: z[i] == 0
  {
    seq(n, _ => 0)
  }

  predicate AllZero(s: bytes) {
    forall i | 0 <= i < |s| :: s[i] == 0
  }

  /** `n` rounded up to whole 512-byte blocks. */
  function PaddedLength(n: nat): (p: nat)
    ensures n <= p < n + BLOCK_SIZE
    ensures p % BLOCK_SIZE == 0
  {
    (n + 511) / 512 * 512
  }

  /** Content as it is stored after a header: zero-padded to whole blocks. */
  function Padded(content: bytes): (p: bytes)
    ensures |p| == PaddedLength(|content|)
    ensures p[..|content|] == content
  {
    content + Zeros(PaddedLength(|content|) - |content|)
  }

  /** The longest prefix without a NUL: what a NUL-terminated field holds. */
  function UpToNul(s: bytes): (r: bytes)
    ensures |r| <= |s| && r == s[..|r|]
    ensures NUL !in r
    ensures |r| < |s| ==> s[|r|] == NUL
  {
    if s == [] || s[0] == NUL then [] else [s[0]] + UpToNul(s[1..])
  }

  lemma {:induction false} UpToNulPrefix(s: bytes, rest: bytes)
    requires rest == [] || rest[0] == NUL
    ensures UpToNul(s + rest) == UpToNul(s)
  {
    if s == [] {
      assert s + rest == rest;
    } else if s[0] != NUL {
      assert (s + rest)[1..] == s[1..] + rest;
      UpToNulPrefix(s[1..], rest);
    }
  }

  lemma {:induction false} UpToNulWhole(s: bytes)
    ensures UpToNul(s) == s <==> NUL !in s
  {
    if s != [] && s[0] != NUL {
      UpToNulWhole(s[1..]);
      assert s == [s[0]] + s[1..];
    }
  }

  /** Where the first line feed of `s` is, or `|s|`. */
  function LineEnd(s: bytes): (n: nat)
    ensures n <= |s|
    ensures n < |s| ==> s[n] == LINE_FEED
    ensures forall i | 0 <= i < n :: s[i] != LINE_FEED
  {
    if s == [] || s[0] == LINE_FEED then 0 else 1 + LineEnd(s[1..])
  }

  /** What `read_until(b'\n')` returns: the line with its line feed, or all that is left. */
  function FirstLine(s: bytes): (line: bytes)
    ensures line <= s
  {
    if LineEnd(s) < |s| then s[..LineEnd(s) + 1] else s
  }

  lemma LineEndUnique(s: bytes, n: nat)
    requires n < |s| && s[n] == LINE_FEED
    requires forall i | 0 <= i < n :: s[i] != LINE_FEED
    ensures LineEnd(s) == n
  {
  }
}
