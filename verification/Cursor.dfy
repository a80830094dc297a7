/** A file with one cursor, shared by every reader over it, and the buffered decompressors that read
    through it (scar-rs/scar/src/read.rs, scar-rs/scar/src/util.rs). */
module Cursor {
  import opened Bytes
  import opened Decimal
  import opened Codec

  class SharedFile {
    const data: bytes
    var pos: nat

    constructor (data: bytes)
      ensures this.data == data && pos == 0
    {
      this.data := data;
      pos := 0;
    }

    method Seek(target: nat)
      modifies this
      ensures pos == target
    {
      pos := target;
    }

    /** Reads some bytes at the cursor: at least one unless the cursor is at or past the end. */
    method Read() returns (chunk: bytes)
      modifies this
      ensures if old(pos) >= |data| then chunk == [] && pos == old(pos)
              else 0 < |chunk| && pos == old(pos) + |chunk| <= |data| && chunk == data[old(pos)..pos]
    {
      if pos >= |data| {
        return [];
      }
      var n :| 0 < n <= |data| - pos;
      chunk := data[pos..pos + n];
      pos := pos + n;
    }
  }

  /** The size of a `BufReader`'s buffer. */
  const CAPACITY: nat := 8192

  /** A `BufReader` over a decompressor that was created at offset `start` of the file. */
  class Decoder {
    const file: SharedFile
    const codec: Codec
    ghost const start: nat
    var fed: bytes      // compressed bytes the decompressor has read
    var pulled: nat     // decoded bytes that have left the decompressor
    var buf: bytes      // of those, the ones not consumed yet
    /** Whether the decompressor has filled the buffer each time, and no read has gone past the buffer: then the
        buffer is always refilled at a multiple of its size. */
    ghost var steady: bool

    ghost predicate Valid()
      reads this
    {
      && Incremental(codec)
      && fed <= Drop(file.data, start)
      && |buf| <= pulled <= |codec.decoded(fed)| && |buf| <= CAPACITY
      && (steady ==> InOneFill(pulled - |buf|, pulled, |Whole()|))
      && buf == codec.decoded(fed)[pulled - |buf|..pulled]
    }

    /** What is buffered came with one fill. */
    static predicate InOneFill(from: nat, to: nat, end: nat)
      requires from <= to
    {
      && (to % CAPACITY == 0 || to == end)
      && (from < to ==> from / CAPACITY == (to - 1) / CAPACITY)
    }

    /** The cursor is where this decompressor left it. */
    ghost predicate InSync()
      reads this, file
    {
      file.pos == start + |fed|
    }

    /** All that decoding from `start` yields. */
    ghost function Whole(): bytes {
      codec.decoded(Drop(file.data, start))
    }

    lemma FedIsPrefix()
      requires Valid()
      ensures codec.decoded(fed) <= Whole()
    {
      var input := Drop(file.data, start);
      assert input == fed + input[|fed|..];
    }

    /** What is still to be read. */
    ghost function Remaining(): (r: bytes)
      requires Valid()
      reads this
      ensures buf <= r
    {
      FedIsPrefix();
      Whole()[pulled - |buf|..]
    }

    constructor (file: SharedFile, codec: Codec)
      requires Incremental(codec)
      ensures this.file == file && this.codec == codec && start == file.pos
      ensures Valid() && InSync() && Remaining() == codec.decoded(Drop(file.data, file.pos))
      ensures buf == [] && steady
    {
      this.file := file;
      this.codec := codec;
      this.start := file.pos;
      fed, pulled, buf, steady := [], 0, [], true;
    }

    /** Makes the buffer non-empty unless the input has ended; how much it holds is up to the file
        and the decompressor. */
    method FillBuf()
      requires Valid() && InSync()
      modifies this, file
      ensures Valid() && InSync() && Remaining() == old(Remaining())
      ensures buf == [] <==> Remaining() == []
      ensures buf <= Remaining() && (steady ==> old(steady))
    {
      if buf == [] {
        while pulled == |codec.decoded(fed)| && file.pos < |file.data|
          invariant Valid() && InSync() && Remaining() == old(Remaining()) && buf == []
          invariant steady ==> old(steady)
          decreases |file.data| - file.pos
        {
          Feed();
        }
        FedIsPrefix();
        if pulled == |codec.decoded(fed)| {
          assert fed == Drop(file.data, start);
          return;
        }
        Fill();
      }
      FedIsPrefix();
    }

    /** The decompressor delivers some of what it has decoded. */
    method Fill()
      requires Valid() && InSync() && buf == [] && pulled < |codec.decoded(fed)|
      modifies this
      ensures Valid() && InSync() && Remaining() == old(Remaining()) && buf != []
      ensures steady ==> old(steady)
    {
      FedIsPrefix();
      var n :| 0 < n <= |codec.decoded(fed)| - pulled && n <= CAPACITY;
      buf := codec.decoded(fed)[pulled..pulled + n];
      steady := steady && (n == CAPACITY || pulled + n == |Whole()|);
      pulled := pulled + n;
    }

    method Feed()
      requires Valid() && InSync() && buf == [] && file.pos < |file.data|
      modifies this, file
      ensures Valid() && InSync() && Remaining() == old(Remaining()) && buf == []
      ensures file.pos > old(file.pos) && pulled == old(pulled) && steady == old(steady)
    {
      FedIsPrefix();
      ghost var was := fed;
      var chunk := file.Read();
      fed := fed + chunk;
      assert codec.decoded(was) <= codec.decoded(was + chunk);
    }

    method Consume(n: nat)
      requires Valid() && n <= |buf|
      modifies this
      ensures Valid() && Remaining() == old(Remaining())[n..] && buf == old(buf)[n..]
      ensures InSync() == old(InSync()) && steady == old(steady)
    {
      FedIsPrefix();
      ghost var at := pulled - |buf|;
      assert codec.decoded(fed)[at..pulled][n..] == codec.decoded(fed)[at + n..pulled];
      assert Remaining()[n..] == Whole()[at + n..];
      buf := buf[n..];
    }

    /** A read of at least the size of the buffer does not go through it. */
    ghost method NotSteady()
      requires Valid()
      modifies this`steady
      ensures Valid() && Remaining() == old(Remaining()) && InSync() == old(InSync()) && !steady
    {
      steady := false;
    }

    /** How much of the input comes before what remains. */
    ghost function Position(): nat
      requires Valid()
      reads this
    {
      pulled - |buf|
    }

    /** With steady fills, the place in the input decides how much of it lies in the buffer. */
    lemma HeldIs(n: nat)
      requires Valid() && steady && buf != [] && n <= |Remaining()|
      ensures Position() == |Whole()| - |Remaining()|
      ensures |buf| >= n <==> Position() % CAPACITY + n <= CAPACITY
    {
      FedIsPrefix();
      var p := pulled - |buf|;
      assert |Remaining()| == |Whole()| - p;
    }

    /** `read_exact` */
    method ReadExact(n: nat) returns (r: Option<bytes>)
      requires Valid() && InSync()
      modifies this, file
      ensures Valid() && InSync()
      ensures r.Some? <==> n <= |old(Remaining())|
      ensures r.Some? ==> r.value == old(Remaining())[..n] && Remaining() == old(Remaining())[n..]
      ensures steady ==> old(steady)
    {
      hide Decoder.Valid, Decoder.Remaining, Decoder.InSync;
      var got: bytes := [];
      ghost var s := Remaining();
      while |got| < n
        invariant Valid() && InSync() && (steady ==> old(steady))
        invariant |got| <= n && |got| <= |s| && got == s[..|got|] && Remaining() == s[|got|..]
      {
        if buf == [] && n - |got| >= CAPACITY {
          NotSteady();
        }
        FillBuf();
        if buf == [] {
          return None;
        }
        var k := if |buf| < n - |got| then |buf| else n - |got|;
        ghost var at := |got|;
        assert buf[..k] == s[at..at + k];
        assert s[..at + k] == s[..at] + s[at..at + k];
        got := got + buf[..k];
        Consume(k);
      }
      return Some(got);
    }

    /** `read_until(b'\n')` */
    method ReadLine() returns (line: bytes)
      requires Valid() && InSync()
      modifies this, file
      ensures Valid() && InSync()
      ensures line == FirstLine(old(Remaining())) && Remaining() == old(Remaining())[|line|..]
      ensures steady ==> old(steady)
    {
      hide Decoder.Valid, Decoder.Remaining, Decoder.InSync, LineEnd, FirstLine;
      line := [];
      ghost var s := Remaining();
      while true
        invariant Valid() && InSync() && (steady ==> old(steady))
        invariant line + Remaining() == s && LINE_FEED !in line
        decreases |Remaining()|
      {
        FillBuf();
        ghost var rest := Remaining();
        if buf == [] {
          FirstLineWhole(line);
          assert line + [] == line;
          return;
        }
        var k := LineEnd(buf);
        if k < |buf| {
          LineIn(line, buf, k, rest);
          line := line + buf[..k + 1];
          Consume(k + 1);
          return;
        }
        NoLineIn(line, buf, rest);
        line := line + buf;
        Consume(|buf|);
      }
    }

    /** `read_num_from_bufread`: the digits at the front, however the buffer splits them. */
    method ReadNumber() returns (num: u64, numLen: nat)
      requires Valid() && InSync()
      modifies this, file
      ensures Valid() && InSync()
      ensures num == ReadNum(old(Remaining())) && numLen == DigitRun(old(Remaining()))
      ensures Remaining() == old(Remaining())[numLen..] && (steady ==> old(steady))
    {
      hide Decoder.Valid, Decoder.Remaining, Decoder.InSync, Accumulate, DigitRun;
      num, numLen := 0, 0;
      AccumulateNothing(0);
      ghost var s := Remaining();
      while true
        invariant Valid() && InSync() && (steady ==> old(steady))
        invariant numLen <= |s| && Remaining() == s[numLen..]
        invariant forall i | 0 <= i < numLen :: IsDigit(s[i])
        invariant num == Accumulate(0, s[..numLen])
        decreases |s| - numLen
      {
        FillBuf();
        if buf == [] {
          DigitRunIs(s, numLen);
          return;
        }
        var count := 0;
        ghost var from, chunk := numLen, buf;
        while count < |buf|
          invariant buf == chunk
          invariant count <= |buf| && numLen == from + count
          invariant Valid() && InSync() && Remaining() == s[from..] && buf <= Remaining()
          invariant steady ==> old(steady)
          invariant numLen <= |s| && forall i | 0 <= i < numLen :: IsDigit(s[i])
          invariant num == Accumulate(0, s[..numLen])
        {
          var ch := buf[count];
          assert ch == s[numLen];
          if !IsDigit(ch) {
            Consume(count);
            DigitRunIs(s, numLen);
            return;
          }
          assert s[..numLen + 1] == s[..numLen] + [ch];
          AccumulateAppend(0, s[..numLen], ch);
          count := count + 1;
          num := Wrap(num * 10);
          num := Wrap(num + DigitValue(ch));
          numLen := numLen + 1;
        }
        Consume(count);
      }
    }
  }

  lemma FirstLineWhole(s: bytes)
    requires LINE_FEED !in s
    ensures FirstLine(s) == s
  {
  }

  /** The line ends inside the buffer. */
  lemma LineIn(line: bytes, buf: bytes, k: nat, rest: bytes)
    requires LINE_FEED !in line && buf <= rest && k < |buf| && LineEnd(buf) == k
    ensures FirstLine(line + rest) == line + buf[..k + 1]
    ensures (line + rest)[|line + buf[..k + 1]|..] == rest[k + 1..]
  {
    hide LineEnd, FirstLine;
    assert buf[..k + 1] == buf[..k] + [LINE_FEED];
    assert rest == buf[..k + 1] + rest[k + 1..];
    FirstLineFound(line + rest, line + buf[..k]);
  }

  lemma NoLineIn(line: bytes, buf: bytes, rest: bytes)
    requires LINE_FEED !in line && buf <= rest && LineEnd(buf) == |buf|
    ensures LINE_FEED !in line + buf
    ensures line + rest == line + buf + rest[|buf|..]
  {
    hide LineEnd;
  }

  lemma FirstLineFound(s: bytes, before: bytes)
    requires LINE_FEED !in before && before + [LINE_FEED] <= s
    ensures FirstLine(s) == before + [LINE_FEED]
  {
    assert s[|before|] == LINE_FEED;
    assert forall i | 0 <= i < |before| :: s[i] == before[i];
    LineEndUnique(s, |before|);
  }
}
