/** Decimal numbers as Scar prints and reads them, and the length that counts itself
    (scar-rs/scar/src/util.rs, scar-c/src/internal-util.h). */
module Decimal {
  import opened Bytes

  // ---------------------------------------------------------------- printing

  predicate IsDigit(b: byte) {
    DIGIT_0 <= b <= DIGIT_9
  }

  function Digit(d: nat): byte
    requires d < 10
  {
    (48 + d) as byte
  }

  /** The decimal text of `n`, without leading zeros. */
  function Digits(n: nat): (s: bytes)
    ensures |s| > 0
    ensures forall i | 0 <= i < |s| :: IsDigit(s[i])
  {
    if n < 10 then [Digit(n)] else Digits(n / 10) + [Digit(n % 10)]
  }

  function Pow10(k: nat): nat {
    if k == 0 then 1 else 10 * Pow10(k - 1)
  }

  /** A number has at most `k` digits exactly when it is below 10^k. */
  lemma {:induction false} DigitsBound(n: nat, k: nat)
    requires k > 0
    ensures |Digits(n)| <= k <==> n < Pow10(k)
    decreases n
  {
    if n >= 10 {
      if k == 1 {
        assert Pow10(1) == 10;
      } else {
        DigitsBound(n / 10, k - 1);
        assert n / 10 < Pow10(k - 1) <==> n < 10 * Pow10(k - 1);
      }
    } else {
      Pow10Positive(k - 1);
    }
  }

  lemma {:induction false} Pow10Positive(k: nat)
    ensures Pow10(k) >= 1
  {
    if k > 0 {
      Pow10Positive(k - 1);
    }
  }

  lemma {:induction false} DigitsMonotone(m: nat, n: nat)
    requires m <= n
    ensures |Digits(m)| <= |Digits(n)|
    decreases n
  {
    if m >= 10 {
      DigitsMonotone(m / 10, n / 10);
    }
  }

  /** Counting digits the way `log10_ceil` does. The C version answers 0 for 0. */
  method Log10Ceil(num: nat) returns (log: nat)
    ensures log == |Digits(num)|
  {
    if num == 0 {
      return 1;
    }
    var n: nat := num;
    log := 0;
    while n > 0
      invariant n > 0 ==> log + |Digits(n)| == |Digits(num)|
      invariant n == 0 ==> log == |Digits(num)|
    {
      log := log + 1;
      n := n / 10;
    }
  }

  method CLog10Ceil(num: nat) returns (lg: nat)
    ensures lg == if num == 0 then 0 else |Digits(num)|
  {
    var n: nat := num;
    lg := 0;
    while n > 0
      invariant n > 0 ==> lg + |Digits(n)| == |Digits(num)|
      invariant n == 0 ==> lg == if num == 0 then 0 else |Digits(num)|
    {
      lg := lg + 1;
      n := n / 10;
    }
  }

  // ---------------------------------------------------------------- the length that counts itself

  /** The length printed in front of `payload` bytes, correcting the digit count once. */
  function SelfLength(payload: nat): nat {
    var digitCount := |Digits(payload)|;
    payload + if |Digits(payload + digitCount)| > digitCount then digitCount + 1 else digitCount
  }

  /** One correction step is enough, and the length is the least one that counts itself. */
  lemma SelfLengthExact(payload: nat)
    requires payload > 0
    ensures SelfLength(payload) == |Digits(SelfLength(payload))| + payload
    ensures forall n: nat | n == |Digits(n)| + payload :: SelfLength(payload) <= n
  {
    hide Digits, Pow10;
    var d := |Digits(payload)|;
    DigitsBound(payload, d);
    Pow10AtLeast(d);
    DigitsBound(payload + d, d + 1);
    DigitsBound(payload + d + 1, d + 1);
    DigitsMonotone(payload, payload + d);
    DigitsMonotone(payload + d, payload + d + 1);
    forall n: nat | n == |Digits(n)| + payload
      ensures SelfLength(payload) <= n
    {
      DigitsMonotone(payload, n);
      if n == payload + d {
        assert |Digits(payload + d)| == d;
      }
    }
  }

  lemma {:induction false} Pow10AtLeast(d: nat)
    requires d > 0
    ensures Pow10(d) + d + 1 <= Pow10(d + 1)
  {
    if d == 1 {
      assert Pow10(1) == 10 && Pow10(2) == 100;
    } else {
      Pow10AtLeast(d - 1);
    }
  }

  // ---------------------------------------------------------------- reading

  function DigitValue(b: byte): nat
    requires IsDigit(b)
  {
    (b - DIGIT_0) as nat
  }

  /** How many digits `s` starts with. */
  function DigitRun(s: bytes): (n: nat)
    ensures n <= |s|
    ensures forall i | 0 <= i < n :: IsDigit(s[i])
    ensures n < |s| ==> !IsDigit(s[n])
  {
    if s == [] || !IsDigit(s[0]) then 0 else 1 + DigitRun(s[1..])
  }

  /** Folding digits into a 64-bit accumulator that wraps around. */
  function Accumulate(acc: u64, s: bytes): u64
    requires forall i | 0 <= i < |s| :: IsDigit(s[i])
    decreases s
  {
    if s == [] then acc else Accumulate(Wrap(Wrap(acc * 10) + DigitValue(s[0])), s[1..])
  }

  /** The number at the front of `s`, modulo 2^64; 0 when there is no digit. */
  function ReadNum(s: bytes): u64 {
    Accumulate(0, s[..DigitRun(s)])
  }

  lemma AccumulateNothing(acc: u64)
    ensures Accumulate(acc, []) == acc
  {
  }

  lemma {:induction false} AccumulateAppend(acc: u64, s: bytes, d: byte)
    requires forall i | 0 <= i < |s| :: IsDigit(s[i])
    requires IsDigit(d)
    ensures Accumulate(acc, s + [d]) == Wrap(Wrap(Accumulate(acc, s) * 10) + DigitValue(d))
    decreases s
  {
    if s == [] {
      assert s + [d] == [d];
    } else {
      assert (s + [d])[1..] == s[1..] + [d];
      AccumulateAppend(Wrap(Wrap(acc * 10) + DigitValue(s[0])), s[1..], d);
    }
  }

  lemma {:induction false} AccumulateDigits(n: u64)
    ensures Accumulate(0, Digits(n)) == n
  {
    hide Accumulate;
    if n < 10 {
      AccumulateNothing(0);
      AccumulateAppend(0, [], Digit(n));
      assert [] + [Digit(n)] == Digits(n);
    } else {
      AccumulateDigits(n / 10);
      AccumulateAppend(0, Digits(n / 10), Digit(n % 10));
      assert Digits(n) == Digits(n / 10) + [Digit(n % 10)];
    }
  }

  lemma {:induction false} DigitRunPrefix(s: bytes, rest: bytes)
    requires forall i | 0 <= i < |s| :: IsDigit(s[i])
    requires rest == [] || !IsDigit(rest[0])
    ensures DigitRun(s + rest) == |s|
  {
    if s == [] {
      assert s + rest == rest;
    } else {
      assert (s + rest)[1..] == s[1..] + rest;
      DigitRunPrefix(s[1..], rest);
    }
  }

  /** Where a scan for digits stops. */
  lemma DigitRunIs(s: bytes, n: nat)
    requires n <= |s| && (forall i | 0 <= i < n :: IsDigit(s[i])) && (n < |s| ==> !IsDigit(s[n]))
    ensures DigitRun(s) == n
  {
    DigitRunPrefix(s[..n], s[n..]);
    assert s == s[..n] + s[n..];
  }

  /** A digit string, and the space behind it. */
  lemma NumberThenSpace(d: bytes, t: bytes)
    requires forall i | 0 <= i < |d| :: IsDigit(d[i])
    ensures var s := d + [SPACE] + t;
            && DigitRun(s) == |d| && ReadNum(s) == Accumulate(0, d)
            && s[|d|] == SPACE && s[..|d|] == d && s[|d| + 1..] == t
  {
    var s := d + [SPACE] + t;
    assert DigitRun(s) == |d| by {
      var tail := [SPACE] + t;
      assert s == d + tail;
      DigitRunPrefix(d, tail);
    }
    assert s[..|d|] == d;
  }

  /** Reading back a printed number, whatever non-digit follows it. */
  lemma ReadNumDigits(n: u64, rest: bytes)
    requires rest == [] || !IsDigit(rest[0])
    ensures ReadNum(Digits(n) + rest) == n
    ensures DigitRun(Digits(n) + rest) == |Digits(n)|
  {
    DigitRunPrefix(Digits(n), rest);
    assert (Digits(n) + rest)[..|Digits(n)|] == Digits(n);
    AccumulateDigits(n);
  }

  // ---------------------------------------------------------------- strict parsing

  /** `str::parse::<u64>`: one optional plus sign, at least one digit, no overflow. */
  function ParseU64(s: bytes): Option<u64> {
    var t := if s != [] && s[0] == PLUS then s[1..] else s;
    if t != [] && DigitRun(t) == |t| && Value(t) < TWO_TO_64 then Some(Value(t)) else None
  }

  /** The value of a digit string, without a width. */
  function Value(s: bytes): nat
    requires forall i | 0 <= i < |s| :: IsDigit(s[i])
  {
    if s == [] then 0 else Value(s[..|s| - 1]) * 10 + DigitValue(s[|s| - 1])
  }

  lemma {:induction false} ValueDigits(n: nat)
    ensures Value(Digits(n)) == n
  {
    if n < 10 {
      assert Digits(n)[..0] == [];
    } else {
      ValueDigits(n / 10);
      assert Digits(n)[..|Digits(n)| - 1] == Digits(n / 10);
    }
  }

  lemma ParseU64Digits(n: u64)
    ensures ParseU64(Digits(n)) == Some(n)
  {
    ValueDigits(n);
    DigitRunPrefix(Digits(n), []);
    assert Digits(n) + [] == Digits(n);
    assert IsDigit(Digits(n)[0]);
  }

  /** The accumulator that wraps around holds the value modulo 2^64. */
  lemma {:induction false} AccumulateMeans(s: bytes)
    requires forall i | 0 <= i < |s| :: IsDigit(s[i])
    ensures Accumulate(0, s) == Wrap(Value(s))
  {
    hide Accumulate, Wrap;
    if s == [] {
      AccumulateNothing(0);
      WrapSmall(0);
    } else {
      var init, last := s[..|s| - 1], s[|s| - 1];
      AccumulateMeans(init);
      AccumulateAppend(0, init, last);
      assert init + [last] == s;
      WrapMultiple(Value(init), 10);
      WrapAdd(Value(init) * 10, DigitValue(last));
    }
  }
}
