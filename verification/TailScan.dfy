/** Locating the tail from the end of the file (scar-rs/scar/src/util.rs, scar-rs/scar/src/read.rs). */
module TailScan {
  import opened Bytes

  predicate Occurs(haystack: bytes, needle: bytes, i: nat) {
    i + |needle| <= |haystack| && haystack[i..i + |needle|] == needle
  }

  /** `find_last_occurrence` */
  method FindLastOccurrence(haystack: bytes, needle: bytes) returns (r: Option<nat>)
    ensures r.Some? ==> Occurs(haystack, needle, r.value) && forall j: nat | j > r.value :: !Occurs(haystack, needle, j)
    ensures r.None? ==> forall j: nat :: !Occurs(haystack, needle, j)
  {
    if |haystack| < |needle| {
      return None;
    }
    var idx: nat := |haystack| - |needle|;
    while true
      invariant idx + |needle| <= |haystack|
      invariant forall j: nat | j > idx :: !Occurs(haystack, needle, j)
      decreases idx
    {
      if haystack[idx..idx + |needle|] == needle {
        return Some(idx);
      }
      if idx == 0 {
        return None;
      }
      idx := idx - 1;
    }
  }

  /** The retry loop of `create`: every candidate that does not decode to a tail is skipped by searching
      again in a block cut one byte short of it. The loop ends, and finds the last occurrence of the magic
      (overlapping ones included) at which `isTail` holds; it has then tried each occurrence from there on
      exactly once, in descending order. */
  method FindTail(block: bytes, magic: bytes, isTail: nat -> bool) returns (r: Option<nat>, ghost tried: seq<nat>)
    requires magic != []
    ensures r.Some? ==> Occurs(block, magic, r.value) && isTail(r.value)
    ensures r.Some? ==> forall j: nat | j > r.value && Occurs(block, magic, j) :: !isTail(j)
    ensures r.None? ==> forall j: nat | Occurs(block, magic, j) :: !isTail(j)
    ensures forall a, b | 0 <= a < b < |tried| :: tried[a] > tried[b]
    ensures forall j: nat :: j in tried <==> Occurs(block, magic, j) && (r.Some? ==> r.value <= j)
  {
    var end: nat := |block|;
    tried := [];
    while true
      invariant end <= |block|
      invariant forall j: nat | Occurs(block, magic, j) && j + |magic| > end :: !isTail(j)
      invariant forall j: nat :: j in tried <==> Occurs(block, magic, j) && j + |magic| > end
      invariant forall a, b | 0 <= a < b < |tried| :: tried[a] > tried[b]
      decreases end
    {
      var found := FindLastOccurrence(block[..end], magic);
      CutBlock(block, magic, end);
      if found.None? {
        return None, tried;
      }
      var idx := found.value;
      Descends(tried, idx);
      tried := tried + [idx];
      end := idx + |magic| - 1;
      if isTail(idx) {
        return Some(idx), tried;
      }
    }
  }

  lemma Descends(tried: seq<nat>, idx: nat)
    requires forall a, b | 0 <= a < b < |tried| :: tried[a] > tried[b]
    ensures (forall j | j in tried :: j > idx) ==>
              forall a, b | 0 <= a < b < |tried| + 1 :: (tried + [idx])[a] > (tried + [idx])[b]
    ensures forall j :: j in tried + [idx] <==> j in tried || j == idx
  {
    var t := tried + [idx];
    if forall j | j in tried :: j > idx {
      forall a, b | 0 <= a < b < |t|
        ensures t[a] > t[b]
      {
        assert t[a] == tried[a] && tried[a] in tried;
      }
    }
  }

  lemma CutBlock(block: bytes, magic: bytes, end: nat)
    requires end <= |block|
    ensures forall j: nat :: Occurs(block[..end], magic, j) <==> Occurs(block, magic, j) && j + |magic| <= end
  {
    forall j: nat
      ensures Occurs(block[..end], magic, j) <==> Occurs(block, magic, j) && j + |magic| <= end
    {
      if j + |magic| <= end {
        assert block[..end][j..j + |magic|] == block[j..j + |magic|];
      }
    }
  }

  // ---------------------------------------------------------------- the block that is searched

  /** What `create` reads to search for the tail: for a long file, the second 512 bytes. */
  function SearchedBlock(file: bytes): bytes {
    if |file| <= 512 then file else if |file| < 1024 then file[512..] else file[512..1024]
  }

  /** What it takes them for: the last bytes of the file. */
  function LastBlock(file: bytes): bytes {
    if |file| <= 512 then file else file[|file| - 512..]
  }

  predicate OfLength(file: bytes, n: nat) {
    |file| == n
  }

  /** The length of a file decides whether `create` searches its last bytes: it does so for every file of at
      most 512 or of exactly 1024 bytes, and not for those of any other length. */
  lemma SearchesTheEnd(n: nat)
    ensures (forall file | OfLength(file, n) :: SearchedBlock(file) == LastBlock(file)) <==> n <= 512 || n == 1024
  {
    if 512 < n < 1024 {
      var file := Zeros(n);
      assert OfLength(file, n) && |SearchedBlock(file)| < |LastBlock(file)|;
    } else if n > 1024 {
      var file := Zeros(n)[512 := 1];
      assert OfLength(file, n) && SearchedBlock(file)[0] == 1 && LastBlock(file)[0] == 0;
    }
  }
}
