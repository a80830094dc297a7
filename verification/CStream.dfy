/** The stream wrappers of the C implementation: any reader, a limited reader over it, a block reader that
    looks one byte ahead, and the growing memory writer (scar-c/src/ioutil.c). */
module CStream {
  import opened Bytes

  function Least(a: nat, b: nat): nat {
    if a < b then a else b
  }

  /** A reader that hands out its data in chunks of any size, and may fail at any time. */
  class Source {
    const data: bytes
    var pos: nat
    /** Whether some read failed; whether some read failed or delivered less than it could have. */
    ghost var failed: bool
    ghost var cut: bool

    ghost predicate Valid()
      reads this
    {
      pos <= |data| && (failed ==> cut)
    }

    constructor (data: bytes)
      ensures Valid() && this.data == data && pos == 0 && !cut && !failed
    {
      this.data := data;
      pos := 0;
      cut, failed := false, false;
    }

    /** The seek of a `scar_io_seeker`; past the end there is nothing to read. */
    method Seek(to: nat)
      requires Valid()
      modifies this`pos
      ensures Valid() && pos == if to <= |data| then to else |data|
    {
      pos := if to <= |data| then to else |data|;
    }

    /** Returns -1 for failure, 0 at the end of the data, else how many bytes were read. */
    method Read(n: nat) returns (count: int, chunk: bytes)
      requires Valid()
      modifies this
      ensures Valid() && -1 <= count <= n
      ensures count == -1 ==> pos == old(pos)
      ensures count >= 0 ==> pos == old(pos) + count && chunk == data[old(pos)..pos]
      ensures count == 0 ==> n == 0 || pos == |data|
      ensures failed <==> old(failed) || count == -1
      ensures !cut ==> !old(cut) && count == Least(n, |data| - old(pos))
    {
      if * {
        cut, failed := true, true;
        return -1, [];
      }
      var most := if n < |data| - pos then n else |data| - pos;
      if most == 0 {
        return 0, [];
      }
      var k :| 0 < k <= most;
      cut := cut || k < most;
      count, chunk := k, data[pos..pos + k];
      pos := pos + k;
    }
  }

  /** What a `scar_io_reader` stands on: a source, a `scar_limited_reader` over any reader, or the reader
      that is embedded in a block reader. */
  datatype Kind = FromSource(src: Source) | Limited(inner: Reader) | Buffered(br: BlockReader)

  /** A `scar_io_reader`. */
  class Reader {
    const kind: Kind
    var limit: int
    ghost const source: Source
    /** Whether failures of the source are passed on; an embedded block reader turns them into an end. */
    ghost const loud: bool
    ghost const base: bytes
    ghost const size: nat
    ghost const depth: nat
    ghost const Repr: set<object>

    /** A limited reader has taken exactly `size - limit` bytes, so never more than `size`; with a limit below
        zero it takes nothing. */
    ghost predicate Valid()
      reads this, Repr
      decreases depth, 1
      ensures Valid() ==> this in Repr && source in Repr
    {
      && this in Repr && source in Repr
      && match kind
         case FromSource(src) => src == source && loud && src.Valid()
         case Limited(inner) => inner in Repr && inner.Repr <= Repr && LimitedParts(inner)
         case Buffered(br) =>
           && br in Repr && br.Repr <= Repr && this !in br.Repr && br.depth < depth
           && br.Valid() && br.r.source == source && !loud
    }

    /** What is still to come. */
    ghost function Stream(): bytes
      requires Valid()
      reads this, Repr
      decreases depth, 2
    {
      match kind
      case FromSource(src) => src.data[src.pos..]
      case Limited(inner) => Taken(inner.Stream(), limit)
      case Buffered(br) => br.Stream()
    }

    ghost predicate Failed()
      reads source
    {
      source.failed
    }

    /** Nothing that this reader delivered can be missing bytes because of a failure that it has hidden: no block
        reader below it has met one. */
    ghost predicate Trusted()
      requires Valid()
      reads this, Repr
      decreases depth, 2
      ensures loud || !source.failed ==> Trusted()
    {
      match kind
      case FromSource(_) => true
      case Limited(inner) => inner.Trusted()
      case Buffered(br) => br.Exact()
    }

    constructor Direct(src: Source)
      requires src.Valid()
      ensures Valid() && source == src && loud && Repr == {this, src} && Stream() == src.data[src.pos..]
      ensures kind == FromSource(src)
    {
      kind, limit, source, loud := FromSource(src), 0, src, true;
      base, size, depth, Repr := [], 0, 0, {this, src};
    }

    /** `scar_limited_reader_init`; the limit is a signed offset. */
    constructor Limit(inner: Reader, limit: int)
      requires inner.Valid()
      ensures Valid() && source == inner.source && loud == inner.loud && Repr == {this} + inner.Repr
      ensures Stream() == Taken(inner.Stream(), limit) && Trusted() == inner.Trusted()
      ensures kind == Limited(inner) && base == inner.Stream() && size == AtLeastNone(limit)
    {
      kind, this.limit, source, loud := Limited(inner), limit, inner.source, inner.loud;
      base, size, depth, Repr := inner.Stream(), AtLeastNone(limit), inner.depth + 1, {this} + inner.Repr;
    }

    /** The reader `br->r` of a block reader. */
    constructor Embedded(br: BlockReader)
      requires br.Valid()
      ensures Valid() && source == br.r.source && !loud && Repr == {this} + br.Repr
      ensures kind == Buffered(br) && Stream() == br.Stream() && Trusted() == br.Exact()
    {
      kind, limit, source, loud := Buffered(br), 0, br.r.source, false;
      base, size, depth, Repr := [], 0, br.depth + 1, {this} + br.Repr;
    }

    /** The call through the reader's function pointer. */
    method Read(n: nat) returns (count: int, chunk: bytes)
      requires Valid()
      modifies Repr
      decreases depth, 2
      ensures Valid() && -1 <= count <= n
      ensures (old(Failed()) ==> Failed()) && (Trusted() ==> old(Trusted()))
      ensures count == -1 ==> Failed() && loud
      ensures count >= 0 ==> |chunk| == count
      ensures |Stream()| + (if count > 0 then count else 0) <= |old(Stream())|
      ensures Trusted() && count == -1 ==> Stream() == old(Stream())
      ensures Trusted() && count >= 0 ==> chunk + Stream() == old(Stream())
      ensures Trusted() && count == 0 ==> n == 0 || Stream() == []
    {
      match kind {
        case FromSource(src) =>
          count, chunk := src.Read(n);
          if count >= 0 {
            Cut(src.data, old(src.pos), src.pos, |src.data|);
          }
        case Limited(inner) =>
          count, chunk := LimitedRead(inner, n);
        case Buffered(br) =>
          chunk := br.Read(n);
          count := |chunk|;
      }
    }

    /** `scar_limited_reader_read` */
    method LimitedRead(inner: Reader, n: nat) returns (count: int, chunk: bytes)
      requires Valid() && kind == Limited(inner)
      modifies Repr
      decreases depth, 1
      ensures Valid() && -1 <= count <= n
      ensures (old(Failed()) ==> Failed()) && (Trusted() ==> old(Trusted()))
      ensures count == -1 ==> Failed() && loud
      ensures count >= 0 ==> |chunk| == count
      ensures |Stream()| + (if count > 0 then count else 0) <= |old(Stream())|
      ensures Trusted() && count == -1 ==> Stream() == old(Stream())
      ensures Trusted() && count >= 0 ==> chunk + Stream() == old(Stream())
      ensures Trusted() && count == 0 ==> n == 0 || Stream() == []
    {
      hide Reader.Valid, Reader.Stream, Reader.Trusted, BlockReader.Valid, BlockReader.Stream, Taken;
      LimitedIs(inner);
      if limit <= 0 {
        return 0, [];
      }
      var len := if n > limit then limit else n;
      ghost var was, left := inner.Stream(), limit;
      count, chunk := inner.Read(len);
      if count > 0 {
        limit := limit - count;
      }
      if count >= 0 && inner.Trusted() {
        TakenRest(was, left, chunk, inner.Stream());
        BaseRest(base, size - left, count);
      }
      LimitedIs(inner);
    }

    /** What it means for a limited reader to be valid, and what it delivers. */
    ghost predicate LimitedParts(inner: Reader)
      reads this, source, inner, inner.Repr
      decreases depth, 0
      ensures LimitedParts(inner) ==>
                inner.depth < depth && inner.Valid() && inner.source == source && inner.loud == loud
    {
      && this !in inner.Repr && inner.depth < depth
      && inner.Valid() && inner.source == source && inner.loud == loud
      && limit <= size && (limit < 0 ==> size == 0)
      && (inner.Trusted() ==>
            size - AtLeastNone(limit) <= |base| && inner.Stream() == base[size - AtLeastNone(limit)..])
    }

    lemma LimitedIs(inner: Reader)
      requires kind == Limited(inner)
      ensures Valid() <==> this in Repr && source in Repr && inner in Repr && inner.Repr <= Repr && LimitedParts(inner)
      ensures Valid() ==> Stream() == Taken(inner.Stream(), limit) && Trusted() == inner.Trusted()
    {
    }
  }

  function AtLeastNone(n: int): nat {
    if n < 0 then 0 else n
  }

  /** At most the first `n` bytes. */
  function Taken(s: bytes, n: int): (r: bytes)
    ensures r <= s
    ensures |r| == if n <= 0 then 0 else Least(n, |s|)
  {
    if n <= 0 then [] else if n < |s| then s[..n] else s
  }

  lemma BaseRest(base: bytes, from: nat, count: nat)
    requires from + count <= |base|
    ensures base[from..][count..] == base[from + count..]
  {
  }

  lemma TakenRest(s: bytes, n: nat, chunk: bytes, rest: bytes)
    requires s == chunk + rest && |chunk| <= n
    ensures s[|chunk|..] == rest
    ensures Taken(s, n) == chunk + Taken(rest, n - |chunk|)
  {
  }

  lemma Cut(s: bytes, a: nat, b: nat, c: nat)
    requires a <= b <= c <= |s|
    ensures s[a..b] + s[b..c] == s[a..c]
  {
  }

  const EOF: int := -1

  lemma OneMore(got: bytes, rest: bytes)
    requires rest != []
    ensures got + [rest[0]] + Drop(rest, 1) == got + rest
    ensures |Drop(rest, 1)| == |rest| - 1
  {
  }

  lemma DropOne(s: bytes, n: nat)
    ensures n < |s| ==> Drop(s[n..], 1) == s[n + 1..]
  {
  }

  /** `scar_block_reader`: 512-byte blocks, with the next byte on display. */
  class BlockReader {
    const r: Reader
    const block: array<byte>
    var next: int
    var error: int
    var index: nat
    var bufcap: nat
    ghost const depth: nat
    ghost const Repr: set<object>

    ghost predicate Valid()
      reads this, Repr
      decreases depth, 0
      ensures Valid() ==> -1 <= error <= 0 && (next == EOF || (0 <= next < 256 && error == 0))
      ensures Valid() ==> this in Repr && block in Repr && r in Repr && r.source in Repr
      ensures Valid() ==> r.depth < depth && r.Valid() && (error != 0 ==> r.loud)
    {
      && this in Repr && block in Repr && r in Repr && r.Repr <= Repr
      && this !in r.Repr && block !in r.Repr && r.depth < depth
      && r.Valid()
      && block.Length == BLOCK_SIZE
      && index <= bufcap <= BLOCK_SIZE
      && -1 <= error <= 0
      && (next == EOF || (0 <= next < 256 && error == 0))
      && (next == EOF && error == 0 && r.Trusted() ==> r.Stream() == [])
      && (error != 0 ==> r.Failed() && r.loud)
    }

    ghost predicate Failed()
      reads r.source
    {
      r.source.failed
    }

    /** No byte of the stream has been lost: neither this block reader nor one below it has met a failure. */
    ghost predicate Exact()
      requires Valid()
      reads this, Repr
      decreases depth, 1
      ensures !r.source.failed ==> Exact()
      ensures Exact() ==> error == 0
      ensures r.loud ==> (Exact() <==> error == 0)
    {
      error == 0 && r.Trusted()
    }

    /** What is still to be delivered; nothing after an error. */
    ghost function Stream(): (s: bytes)
      requires Valid()
      reads this, Repr
      decreases depth, 1
      ensures s == [] <==> next == EOF
      ensures s != [] ==> s[0] as int == next
    {
      if next == EOF then [] else [next as byte] + block[index..bufcap] + r.Stream()
    }

    /** `scar_block_reader_init` */
    constructor (r: Reader)
      requires r.Valid()
      modifies r.Repr
      ensures Valid() && this.r == r && Repr == {this, block} + r.Repr && fresh(block)
      ensures old(r.Failed()) ==> Failed()
      ensures (Exact() ==> old(r.Trusted())) && (!r.loud ==> error == 0)
      ensures Exact() ==> Stream() == old(r.Stream())
      ensures |Stream()| <= |old(r.Stream())|
    {
      hide Reader.Valid, Reader.Stream, Reader.Trusted;
      this.r := r;
      var b := new byte[BLOCK_SIZE];
      block := b;
      next, error, index, bufcap := 0, 0, 0, 0;
      depth := r.depth + 1;
      Repr := {this, b} + r.Repr;
      new;
      Refill();
    }

    /** What the backing reader stores through the buffer pointer. */
    method Fill(chunk: bytes)
      requires |chunk| <= block.Length
      modifies block
      ensures block[..|chunk|] == chunk
    {
      forall i | 0 <= i < |chunk| {
        block[i] := chunk[i];
      }
    }

    /** `scar_block_reader_consume`: delivers one byte; the end of input is sticky. */
    method Consume()
      requires Valid()
      modifies Repr
      decreases depth, 0
      ensures Valid()
      ensures old(next) == EOF ==> next == EOF && error == old(error)
      ensures old(Failed()) ==> Failed()
      ensures Exact() ==> old(Exact())
      ensures Exact() ==> Stream() == Drop(old(Stream()), 1)
      ensures |Stream()| <= |Drop(old(Stream()), 1)|
    {
      hide Reader.Valid, Reader.Stream, Reader.Trusted;
      if next == EOF {
        return;
      }
      assert Stream()[1..] == block[index..bufcap] + r.Stream();
      if index >= bufcap {
        Refill();
        return;
      }
      next := block[index] as int;
      index := index + 1;
      assert [next as byte] + block[index..bufcap] == old(block[index..bufcap]);
    }

    /** The next block. */
    method Refill()
      requires Valid() && next != EOF && index >= bufcap
      modifies Repr
      decreases depth, 0, 0
      ensures Valid()
      ensures old(Failed()) ==> Failed()
      ensures Exact() ==> old(Exact())
      ensures Exact() ==> Stream() == old(r.Stream())
      ensures |Stream()| <= |old(r.Stream())|
    {
      hide Reader.Valid, Reader.Stream, Reader.Trusted;
      var n, chunk := r.Read(BLOCK_SIZE);
      if n < 1 {
        next := EOF;
        error := n;
      } else {
        Fill(chunk);
        index := 0;
        next := block[index] as int;
        index := index + 1;
        bufcap := n;
        assert [next as byte] + block[index..bufcap] == chunk;
      }
    }

    /** `scar_block_reader_skip` */
    method Skip(n: nat) returns (ok: bool)
      requires Valid()
      modifies Repr
      ensures Valid()
      ensures ok ==> n <= |old(Stream())| && (Exact() ==> Stream() == old(Stream())[n..])
      ensures !ok ==> next == EOF && (Exact() ==> n > |old(Stream())|)
      ensures |Stream()| <= |old(Stream())|
      ensures old(Failed()) ==> Failed()
      ensures Exact() ==> old(Exact())
    {
      hide BlockReader.Valid, BlockReader.Stream, Exact, Drop;
      ghost var s := Stream();
      var left: nat := n;
      ghost var k: nat := 0;
      while left > 0
        invariant Valid() && k + left == n
        invariant k + |Stream()| <= |s|
        invariant Exact() ==> Stream() == s[k..]
        invariant old(Failed()) ==> Failed()
        invariant Exact() ==> old(Exact())
      {
        if next == EOF {
          assert Stream() == [];
          return false;
        }
        OneMore([], Stream());
        DropOne(s, k);
        Consume();
        k := k + 1;
        left := left - 1;
      }
      return true;
    }

    /** `scar_block_reader_read` */
    method Read(n: nat) returns (got: bytes)
      requires Valid()
      modifies Repr
      decreases depth, 1
      ensures Valid() && |got| <= n
      ensures |got| + |Stream()| <= |old(Stream())|
      ensures |got| < n ==> next == EOF
      ensures Exact() ==> |got| == Least(n, |old(Stream())|) && got + Stream() == old(Stream())
      ensures old(Failed()) ==> Failed()
      ensures Exact() ==> old(Exact())
    {
      hide BlockReader.Valid, BlockReader.Stream, Exact, Drop;
      ghost var s := Stream();
      got := [];
      assert got + s == s;
      while |got| < n
        invariant Valid() && |got| <= n
        invariant |got| + |Stream()| <= |s|
        invariant Exact() ==> got + Stream() == s
        invariant old(Failed()) ==> Failed()
        invariant Exact() ==> old(Exact())
        decreases n - |got|
      {
        if next == EOF {
          return;
        }
        OneMore(got, Stream());
        got := got + [next as byte];
        Consume();
      }
    }
  }

  // ---------------------------------------------------------------- the memory writer

  /** `scar_mem_writer`: a buffer whose capacity doubles. */
  class MemWriter {
    var buf: array<byte>
    var len: nat

    ghost predicate Valid()
      reads this, buf
    {
      len <= buf.Length
    }

    ghost function Contents(): bytes
      requires Valid()
      reads this, buf
    {
      buf[..len]
    }

    constructor ()
      ensures Valid() && Contents() == [] && fresh(buf)
    {
      buf := new byte[0];
      len := 0;
    }

    /** `mem_writer_grow`: room for `n` more bytes, in at most twice what is needed (or 8). */
    method Grow(n: nat)
      requires Valid()
      modifies this
      ensures Valid() && Contents() == old(Contents()) && len == old(len)
      ensures len + n <= buf.Length
      ensures buf == old(buf) || (fresh(buf) && (buf.Length == 8 || buf.Length < 2 * (len + n)))
    {
      if buf.Length < len + n {
        var cap := buf.Length;
        if cap == 0 {
          cap := 8;
        }
        while cap < len + n
          invariant cap > 0 && cap >= buf.Length
          invariant cap == 8 || cap < 2 * (len + n)
          decreases len + n - cap
        {
          cap := cap * 2;
        }
        var bigger := new byte[cap];
        forall i | 0 <= i < len {
          bigger[i] := buf[i];
        }
        buf := bigger;
      }
    }

    /** `scar_mem_writer_write` */
    method Write(data: bytes)
      requires Valid()
      modifies this, buf
      ensures Valid() && Contents() == old(Contents()) + data
      ensures buf == old(buf) || fresh(buf)
    {
      Grow(|data|);
      ghost var was := Contents();
      forall i | 0 <= i < |data| {
        buf[len + i] := data[i];
      }
      len := len + |data|;
      assert buf[..len] == was + data;
    }

    /** `scar_mem_writer_put` */
    method Put(ch: byte)
      requires Valid()
      modifies this, buf
      ensures Valid() && Contents() == old(Contents()) + [ch]
      ensures buf == old(buf) || fresh(buf)
    {
      Grow(1);
      buf[len] := ch;
      len := len + 1;
    }
  }
}
