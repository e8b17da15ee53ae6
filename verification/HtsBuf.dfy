/** The chunked byte queue of src/htsbuf.c. */
module HtsBuf {
  import opened Wrappers

  /** An allocation of `size` bytes of which the first |data| are filled and the first `off`
      have been read. */
  datatype Chunk = Chunk(data: Bytes, size: nat, off: nat)

  const TWO_32: int := 0x1_0000_0000
  const ROOM: nat := 1000

  /** Unsigned 32-bit arithmetic. */
  function Wrap(x: int): int {
    x % TWO_32
  }

  lemma {:induction false} WrapStep(x: int, d: int)
    ensures Wrap(Wrap(x) + d) == Wrap(x + d)
  {
  }

  /** Taking x off y with some loss l leaves the exact difference only if the loss vanishes. */
  lemma {:induction false} WrapLoss(y: int, x: int, l: int)
    ensures Wrap(Wrap(y) - x - l) == Wrap(y - x) <==> Wrap(l) == 0
  {
    WrapStep(y, -x - l);
  }

  function Unread(ch: Chunk): Bytes
    requires ch.off <= |ch.data|
  {
    ch.data[ch.off..]
  }

  predicate Sound(q: seq<Chunk>) {
    forall i :: 0 <= i < |q| ==> q[i].off <= |q[i].data| <= q[i].size
  }

  function Contents(q: seq<Chunk>): Bytes
    requires Sound(q)
  {
    if q == [] then [] else Unread(q[0]) + Contents(q[1..])
  }

  lemma {:induction false} ContentsJoin(a: seq<Chunk>, b: seq<Chunk>)
    requires Sound(a) && Sound(b)
    ensures Contents(a + b) == Contents(a) + Contents(b)
  {
    if a == [] {
      assert a + b == b;
    } else {
      assert (a + b)[1..] == a[1..] + b;
      ContentsJoin(a[1..], b);
    }
  }

  function Min(a: nat, b: nat): nat {
    if a < b then a else b
  }

  /** The first n bytes, all of them if there are fewer. */
  function Take(x: Bytes, n: nat): Bytes {
    x[..Min(n, |x|)]
  }

  /** The chunks after reading or dropping n bytes; a chunk read to its end is freed. */
  function Consume(q: seq<Chunk>, n: nat): seq<Chunk>
    requires Sound(q)
  {
    if n == 0 || q == [] then q
    else if n < |Unread(q[0])| then [q[0].(off := q[0].off + n)] + q[1..]
    else Consume(q[1..], n - |Unread(q[0])|)
  }

  /** The room never filled in the chunks that are freed on the way: htsbuf_data_free takes
      it off hq_size as well. */
  function Lost(q: seq<Chunk>, n: nat): nat
    requires Sound(q)
  {
    if n == 0 || q == [] || n < |Unread(q[0])| then 0
    else q[0].size - |q[0].data| + Lost(q[1..], n - |Unread(q[0])|)
  }

  /** What fits goes into the last chunk. */
  function Filled(q: seq<Chunk>, buf: Bytes): seq<Chunk>
    requires Sound(q)
  {
    if q == [] then q
    else
      var hd := q[|q| - 1];
      q[|q| - 1 := hd.(data := hd.data + buf[..Min(hd.size - |hd.data|, |buf|)])]
  }

  /** What does not fit into the last chunk. */
  function Left(q: seq<Chunk>, buf: Bytes): Bytes
    requires Sound(q)
  {
    if q == [] then buf else buf[Min(q[|q| - 1].size - |q[|q| - 1].data|, |buf|)..]
  }

  function NewChunk(rest: Bytes): Chunk {
    Chunk(rest, if |rest| > ROOM then |rest| else ROOM, 0)
  }

  /** The chunks after appending. */
  function Appended(q: seq<Chunk>, buf: Bytes): seq<Chunk>
    requires Sound(q)
  {
    if Left(q, buf) == [] then Filled(q, buf) else Filled(q, buf) + [NewChunk(Left(q, buf))]
  }

  lemma {:induction false} FilledIs(q: seq<Chunk>, buf: Bytes)
    requires Sound(q)
    ensures Sound(Filled(q, buf)) && Contents(Filled(q, buf)) + Left(q, buf) == Contents(q) + buf
  {
    if q != [] {
      var c := Min(q[|q| - 1].size - |q[|q| - 1].data|, |buf|);
      LastGrows(q, buf[..c]);
      assert buf == buf[..c] + buf[c..];
      Regroup(Contents(q), buf[..c], buf[c..]);
    }
  }

  lemma {:induction false} AppendedIs(q: seq<Chunk>, buf: Bytes)
    requires Sound(q)
    ensures Sound(Appended(q, buf)) && Contents(Appended(q, buf)) == Contents(q) + buf
  {
    FilledIs(q, buf);
    var rest := Left(q, buf);
    if rest != [] {
      ContentsJoin(Filled(q, buf), [NewChunk(rest)]);
      assert Contents([NewChunk(rest)]) == rest;
    }
  }

  lemma {:induction false} ConsumeIs(q: seq<Chunk>, n: nat)
    requires Sound(q)
    ensures Sound(Consume(q, n))
    ensures Contents(Consume(q, n)) == Contents(q)[Min(n, |Contents(q)|)..]
  {
    if n > 0 && q != [] {
      var c := Unread(q[0]);
      if n < |c| {
        var r := Consume(q, n);
        assert r[1..] == q[1..];
        assert Contents(q)[n..] == c[n..] + Contents(q[1..]);
      } else {
        ConsumeIs(q[1..], n - |c|);
        assert Contents(q)[|c|..] == Contents(q[1..]);
      }
    }
  }

  /** Every chunk is filled to its end, as those of htsbuf_append_prealloc are. */
  predicate Full(q: seq<Chunk>) {
    forall i :: 0 <= i < |q| ==> |q[i].data| == q[i].size
  }

  lemma {:induction false} FullLosesNothing(q: seq<Chunk>, n: nat)
    requires Sound(q) && Full(q)
    ensures Lost(q, n) == 0
  {
    if n > 0 && q != [] && n >= |Unread(q[0])| {
      FullLosesNothing(q[1..], n - |Unread(q[0])|);
    }
  }

  class Queue {
    var chunks: seq<Chunk>
    var size: int

    constructor ()
      ensures Valid() && chunks == [] && size == 0
    {
      chunks, size := [], 0;
    }

    ghost predicate Valid()
      reads this
    {
      Sound(chunks) && 0 <= size < TWO_32
    }

    ghost function Bytes(): Bytes
      requires Valid()
      reads this
    {
      Contents(chunks)
    }

    /** hq_size is the length of the content, in 32 bits. */
    ghost predicate SizeExact()
      requires Valid()
      reads this
    {
      size == Wrap(|Bytes()|)
    }

    /** htsbuf_append: fills up the last chunk, then allocates at least 1000 bytes. */
    method Append(buf: Bytes)
      requires Valid()
      modifies this
      ensures Valid() && Bytes() == old(Bytes()) + buf && size == Wrap(old(size) + |buf|)
      ensures chunks == Appended(old(chunks), buf)
      ensures old(SizeExact()) ==> SizeExact()
    {
      WrapStep(|Bytes()|, |buf|);
      AppendedIs(chunks, buf);
      size := Wrap(size + |buf|);
      var rest := FillLast(buf);
      if rest != [] {
        chunks := chunks + [NewChunk(rest)];
      }
    }

    /** What fits into the last chunk goes there; the rest is returned. */
    method FillLast(buf: Bytes) returns (rest: Bytes)
      requires Sound(chunks)
      modifies this`chunks
      ensures chunks == Filled(old(chunks), buf) && rest == Left(old(chunks), buf)
    {
      rest := buf;
      if chunks != [] {
        var hd := chunks[|chunks| - 1];
        var c := Min(hd.size - |hd.data|, |buf|);
        chunks := chunks[|chunks| - 1 := hd.(data := hd.data + buf[..c])];
        rest := buf[c..];
      }
    }

    /** htsbuf_append_prealloc. */
    method AppendPrealloc(buf: Bytes)
      requires Valid()
      modifies this
      ensures Valid() && Bytes() == old(Bytes()) + buf && size == Wrap(old(size) + |buf|)
      ensures old(SizeExact()) ==> SizeExact()
      ensures old(Full(chunks)) ==> Full(chunks)
    {
      WrapStep(|Bytes()|, |buf|);
      size := Wrap(size + |buf|);
      ContentsJoin(chunks, [Chunk(buf, |buf|, 0)]);
      chunks := chunks + [Chunk(buf, |buf|, 0)];
    }

    /** One round of htsbuf_read and htsbuf_drop: at most `left` bytes of the first chunk; a
        chunk at its end is given to htsbuf_data_free. */
    method Advance(left: nat) returns (taken: Bytes)
      requires Valid() && chunks != [] && left > 0
      modifies this
      ensures Valid() && |taken| <= left && taken + Bytes() == old(Bytes())
      ensures Consume(chunks, left - |taken|) == Consume(old(chunks), left)
      ensures size == Wrap(old(size) - |taken| - (Lost(old(chunks), left) - Lost(chunks, left - |taken|)))
      ensures |taken| == left || |chunks| < old(|chunks|)
    {
      var hd := chunks[0];
      var c := Min(|hd.data| - hd.off, left);
      taken := hd.data[hd.off..hd.off + c];
      assert Unread(hd) == taken + hd.data[hd.off + c..];
      WrapStep(size - c, hd.off + c - hd.size);
      size := Wrap(size - c);
      if hd.off + c == |hd.data| {
        size := Wrap(size - (hd.size - (hd.off + c)));
        chunks := chunks[1..];
      } else {
        assert ([hd.(off := hd.off + c)] + chunks[1..])[1..] == chunks[1..];
        chunks := [hd.(off := hd.off + c)] + chunks[1..];
      }
    }

    /** The loop of htsbuf_read and htsbuf_drop. */
    method ReadLoop(len: nat) returns (buf: Bytes)
      requires Valid()
      modifies this
      ensures Valid() && buf + Bytes() == old(Bytes())
      ensures |buf| <= len && (|buf| < len ==> chunks == [])
      ensures chunks == Consume(old(chunks), len) && size == Wrap(old(size) - |buf| - Lost(old(chunks), len))
    {
      buf := [];
      var left: nat := len;
      ghost var lost: int := 0;
      while left > 0 && chunks != []
        invariant Valid() && 0 <= left && |buf| + left == len
        invariant Consume(chunks, left) == Consume(old(chunks), len)
        invariant buf + Bytes() == old(Bytes())
        invariant lost + Lost(chunks, left) == Lost(old(chunks), len)
        invariant size == Wrap(old(size) - |buf| - lost)
        decreases left, |chunks|
      {
        ghost var before := Lost(chunks, left);
        var taken := Advance(left);
        left := left - |taken|;
        ghost var more := before - Lost(chunks, left);
        WrapStep(old(size) - |buf| - lost, -|taken| - more);
        Regroup(buf, taken, Bytes());
        lost := lost + more;
        buf := buf + taken;
      }
    }

    /** htsbuf_read; htsbuf_drop is the same without the copy. */
    method Read(len: nat) returns (buf: Bytes)
      requires Valid()
      modifies this
      ensures Valid() && buf == Take(old(Bytes()), len) && buf + Bytes() == old(Bytes())
      ensures chunks == Consume(old(chunks), len)
      ensures size == Wrap(old(size) - |buf| - Lost(old(chunks), len))
      ensures old(SizeExact()) ==> (SizeExact() <==> Wrap(Lost(old(chunks), len)) == 0)
    {
      buf := ReadLoop(len);
      TakenFirst(buf, Bytes(), len);
      WrapLoss(old(|Bytes()|), |buf|, Lost(old(chunks), len));
    }

    /** htsbuf_peek. */
    method Peek(len: nat) returns (buf: Bytes)
      requires Valid()
      ensures buf == Take(Bytes(), len)
    {
      buf := [];
      var left: nat, i := len, 0;
      while left > 0 && i < |chunks|
        invariant 0 <= i <= |chunks| && |buf| + left == len
        invariant buf + Take(Contents(chunks[i..]), left) == Take(Bytes(), len)
        decreases |chunks| - i
      {
        var u := Unread(chunks[i]);
        var c := Min(|u|, left);
        assert chunks[i..][1..] == chunks[i + 1..];
        TakeSplits(buf, u, Contents(chunks[i + 1..]), left);
        buf := buf + u[..c];
        left := left - c;
        i := i + 1;
      }
    }

    /** The inner loop of htsbuf_find: where v comes first in a chunk, its end if it does not. */
    method FindInChunk(hd: Chunk, v: Byte) returns (i: nat)
      requires hd.off <= |hd.data|
      ensures hd.off <= i <= |hd.data| && v !in hd.data[hd.off..i] && (i < |hd.data| ==> hd.data[i] == v)
    {
      i := hd.off;
      while i < |hd.data|
        invariant hd.off <= i <= |hd.data| && v !in hd.data[hd.off..i]
      {
        if hd.data[i] == v {
          return;
        }
        assert hd.data[hd.off..i + 1] == hd.data[hd.off..i] + [hd.data[i]];
        i := i + 1;
      }
    }

    /** htsbuf_find: where the byte v comes first, -1 if it does not. */
    method Find(v: Byte) returns (at: int)
      requires Valid()
      ensures at == -1 ==> v !in Bytes()
      ensures at != -1 ==> 0 <= at < |Bytes()| && Bytes()[at] == v && v !in Bytes()[..at]
    {
      var o, k := 0, 0;
      assert Contents(chunks[..0]) == [];
      while k < |chunks|
        invariant 0 <= k <= |chunks| && o == |Contents(chunks[..k])| && v !in Contents(chunks[..k])
      {
        var hd := chunks[k];
        var i := FindInChunk(hd, v);
        if i < |hd.data| {
          FoundIn(chunks, k, i, v);
          return o + i - hd.off;
        }
        NotFoundIn(chunks, k, v);
        o := o + (|hd.data| - hd.off);
        k := k + 1;
      }
      assert chunks[..k] == chunks;
      at := -1;
    }

    /** htsbuf_appendq: the chunks of src move behind those of this queue. */
    method AppendQueue(src: Queue)
      requires Valid() && src.Valid() && src != this
      modifies this, src
      ensures Valid() && Bytes() == old(Bytes()) + old(src.Bytes())
      ensures src.Valid() && src.Bytes() == [] && src.SizeExact()
      ensures old(SizeExact()) && old(src.SizeExact()) ==> SizeExact()
    {
      WrapStep(|Bytes()|, src.size);
      WrapStep(|src.Bytes()|, |Bytes()|);
      size, src.size := Wrap(size + src.size), 0;
      ghost var all := chunks + src.chunks;
      ContentsJoin(chunks, src.chunks);
      while src.chunks != []
        invariant Sound(src.chunks) && chunks + src.chunks == all
        invariant size == old(Wrap(size + src.size)) && src.size == 0
        decreases |src.chunks|
      {
        var hd := src.chunks[0];
        src.chunks := src.chunks[1..];
        chunks := chunks + [hd];
      }
      assert chunks == all;
    }

    /** htsbuf_to_string: as many bytes as hq_size says. */
    method ToString() returns (r: Bytes)
      requires Valid()
      modifies this
      ensures Valid() && r == Take(old(Bytes()), old(size))
      ensures old(SizeExact()) && old(|Bytes()|) < TWO_32 ==> r == old(Bytes())
    {
      r := Read(size);
    }
  }

  lemma {:induction false} TakenFirst(x: Bytes, rest: Bytes, n: nat)
    requires |x| <= n && (|x| < n ==> rest == [])
    ensures x == Take(x + rest, n)
  {
  }

  lemma {:induction false} TakeSplits(done: Bytes, x: Bytes, y: Bytes, n: nat)
    ensures var c := Min(|x|, n); done + Take(x + y, n) == (done + x[..c]) + Take(y, n - c)
  {
  }

  lemma {:induction false} NextChunk(q: seq<Chunk>, k: nat)
    requires Sound(q) && k < |q|
    ensures Contents(q[..k + 1]) == Contents(q[..k]) + Unread(q[k])
    ensures Contents(q) == Contents(q[..k + 1]) + Contents(q[k + 1..])
  {
    assert q[..k + 1] == q[..k] + [q[k]] && q == q[..k + 1] + q[k + 1..];
    ContentsJoin(q[..k], [q[k]]);
    ContentsJoin(q[..k + 1], q[k + 1..]);
  }

  lemma {:induction false} NotFoundIn(q: seq<Chunk>, k: nat, v: Byte)
    requires Sound(q) && k < |q| && v !in Contents(q[..k]) && v !in Unread(q[k])
    ensures |Contents(q[..k + 1])| == |Contents(q[..k])| + |q[k].data| - q[k].off && v !in Contents(q[..k + 1])
  {
    NextChunk(q, k);
  }

  lemma {:induction false} FoundIn(q: seq<Chunk>, k: nat, i: nat, v: Byte)
    requires Sound(q) && k < |q| && q[k].off <= i < |q[k].data| && q[k].data[i] == v
    requires v !in Contents(q[..k]) && v !in q[k].data[q[k].off..i]
    ensures var at := |Contents(q[..k])| + i - q[k].off;
      at < |Contents(q)| && Contents(q)[at] == v && v !in Contents(q)[..at]
  {
    NextChunk(q, k);
    var at := |Contents(q[..k])| + i - q[k].off;
    assert Contents(q)[..at] == Contents(q[..k]) + q[k].data[q[k].off..i];
  }

  /** A byte that was appended and read leaves hq_size 999 below the empty content. */
  method SizeGoesWrong(b: Byte) returns (q: Queue)
    ensures q.Valid() && q.chunks == Consume(Appended([], [b]), 1)
    ensures q.Bytes() == [] && q.size == TWO_32 - 999 && !q.SizeExact()
  {
    q := new Queue();
    q.Append([b]);
    assert q.chunks == [Chunk([b], ROOM, 0)];
    OneByteLoses(b);
    var read := q.Read(1);
  }

  lemma {:induction false} OneByteLoses(b: Byte)
    ensures var q := [Chunk([b], ROOM, 0)]; Contents(q) == [b] && Consume(q, 1) == [] && Lost(q, 1) == 999
  {
    assert Unread(Chunk([b], ROOM, 0)) == [b];
  }

  lemma {:induction false} LastGrows(q: seq<Chunk>, x: Bytes)
    requires Sound(q) && q != [] && |q[|q| - 1].data| + |x| <= q[|q| - 1].size
    ensures var hd := q[|q| - 1]; var r := q[|q| - 1 := hd.(data := hd.data + x)];
      Sound(r) && Contents(r) == Contents(q) + x
  {
    var hd := q[|q| - 1];
    var (front, hd') := (q[..|q| - 1], hd.(data := hd.data + x));
    assert q == front + [hd] && q[|q| - 1 := hd'] == front + [hd'];
    ContentsJoin(front, [hd]);
    ContentsJoin(front, [hd']);
    assert Unread(hd') == Unread(hd) + x;
    assert Contents([hd]) == Unread(hd) && Contents([hd']) == Unread(hd');
  }
}
