/** Framed messages (htsmsg_binary2_serialize and _deserialize in src/htsmsg_binary2.c) and
    the database file made of them (src/epgdb.c). */
module EpgDb {
  import opened Wrappers
  import opened Htsmsg
  import opened Binary2Length
  import opened Binary2
  import opened Binary2Code

  /** A message and its length in front. */
  function Framed(m: Message): Bytes
    requires WellFormed(m)
  {
    SetLength(|Encode(m)|) + Encode(m)
  }

  /** What reading one framed message comes to: the message and the bytes it took, a refusal,
      or a length whose 32-bit sum wraps, after which bytes behind the buffer are read. */
  datatype Read = Got(msg: Message, used: nat) | Refused | Behind

  /** The sum of two 32-bit numbers in 32 bits. */
  function Sum32(x: nat, y: nat): int {
    if x + y < TWO_32 then x + y else x + y - TWO_32
  }

  /** htsmsg_binary2_deserialize on the bytes from i on. */
  function ReadFramed(b: Bytes, i: nat): (r: Read)
    requires i <= |b|
    ensures r.Got? ==> 0 < r.used <= |b| - i
  {
    if |b| - i >= TWO_32 || i == |b| then Refused
    else ReadBody(b, i, GetLength(b, i, |b|, 0).1, GetLength(b, i, |b|, 0).0)
  }

  /** The frame at i once its length has been read and the content starts at p. */
  function ReadBody(b: Bytes, i: nat, p: nat, len: nat): (r: Read)
    requires i < p <= |b|
    ensures r.Got? ==> 0 < r.used <= |b| - i
  {
    if Sum32(len, p - i) > |b| - i then Refused
    else if p + len > |b| then Behind
    else match Decode(b, p, p + len)
      case Bad => Refused
      case Ok(m) => Got(m, p + len - i)
  }

  // ---------------------------------------------------------------- one message

  lemma {:induction false} RefusedByLength(b: Bytes, i: nat, len: nat, p: nat)
    requires i < |b| && GetLength(b, i, |b|, 0) == (len, p)
    requires |b| < p + len < i + TWO_32
    ensures ReadFramed(b, i) == Refused
  {
  }

  /** The content of the frame at i lies in front of e, as the length that is read says. */
  ghost predicate ContentAt(content: Bytes, b: Bytes, i: nat, e: nat) {
    && i + |content| < e <= |b| < i + TWO_32
    && b[e - |content|..e] == content
    && GetLength(b, i, |b|, 0) == (|content|, e - |content|)
  }

  lemma {:induction false} FrameFound(content: Bytes, b: Bytes, i: nat, e: nat)
    requires |content| < TWO_32 && i <= e <= |b| < i + TWO_32 && b[i..e] == SetLength(|content|) + content
    ensures ContentAt(content, b, i, e)
  {
    Split(b, i, e, SetLength(|content|), content);
    LengthRoundTrip(|content|, b, i, |b|);
  }

  lemma {:induction false} ContentRead(content: Bytes, b: Bytes, i: nat, e: nat, m: Message)
    requires ContentAt(content, b, i, e) && Decode(b, e - |content|, e) == Ok(m)
    ensures ReadFramed(b, i) == Got(m, e - i)
  {
  }

  lemma {:induction false} ContentDecoded(m: Message, b: Bytes, i: nat, e: nat)
    requires StorableMessage(m) && ContentAt(Encode(m), b, i, e)
    ensures ReadFramed(b, i) == Got(Plain(m), e - i)
  {
    RoundTripAt(m, b, e - |Encode(m)|, e);
    ContentRead(Encode(m), b, i, e, Plain(m));
  }

  /** A framed message is read back, whatever follows it. */
  lemma {:induction false} FramedRoundTrip(m: Message, b: Bytes, i: nat, e: nat)
    requires StorableMessage(m)
    requires i <= e <= |b| < i + TWO_32 && b[i..e] == Framed(m)
    ensures ReadFramed(b, i) == Got(Plain(m), e - i)
  {
    FrameFound(Encode(m), b, i, e);
    ContentDecoded(m, b, i, e);
  }

  /** A frame that ends within its length. */
  lemma {:induction false} LengthCut(content: Bytes, b: Bytes, i: nat)
    requires |content| < TWO_31 && i < |b| < i + |SetLength(|content|)|
    requires b[i..] == SetLength(|content|)[..|b| - i]
    ensures ReadFramed(b, i) == Refused
  {
    assert b[i..|b|] == b[i..];
    LengthCutOff(|content|, b, i, |b|);
    RefusedByLength(b, i, GetLength(b, i, |b|, 0).0, |b|);
  }

  /** A frame that ends within its content. */
  lemma {:induction false} ContentCut(content: Bytes, b: Bytes, i: nat, p: nat)
    requires |content| < TWO_31 && i < p <= |b| < p + |content| && b[i..p] == SetLength(|content|)
    ensures ReadFramed(b, i) == Refused
  {
    LengthRoundTrip(|content|, b, i, |b|);
    LengthInFive(|content|);
    RefusedByLength(b, i, |content|, p);
  }

  lemma {:induction false} CutFrame(content: Bytes, b: Bytes, i: nat)
    requires |content| < TWO_31 && i <= |b| < i + |SetLength(|content|) + content|
    requires b[i..] == (SetLength(|content|) + content)[..|b| - i]
    ensures ReadFramed(b, i) == Refused
  {
    var (l, n) := (SetLength(|content|), |b| - i);
    if 0 < n < |l| {
      LengthCut(content, b, i);
    } else if |l| <= n {
      assert b[i..i + |l|] == b[i..][..|l|] == l;
      ContentCut(content, b, i, i + |l|);
    }
  }

  /** A framed message that is cut off anywhere is refused. */
  lemma {:induction false} CutOffIsRefused(m: Message, b: Bytes, i: nat)
    requires StorableMessage(m)
    requires i <= |b| < i + |Framed(m)| && b[i..] == Framed(m)[..|b| - i]
    ensures ReadFramed(b, i) == Refused
  {
    CutFrame(Encode(m), b, i);
  }

  // ---------------------------------------------------------------- the file

  datatype Loaded = Loaded(msgs: seq<Message>, end: Ending)
  datatype Ending = Finished | Corrupt | Unknown

  /** The loop of epg_init, for any way to read at a position: messages are read while more
      than four bytes remain. */
  function LoadWith(read: nat -> Read, size: nat, i: nat): Loaded
    requires i <= size
    decreases size - i
  {
    if size - i <= 4 then Loaded([], Finished)
    else match read(i)
      case Refused => Loaded([], Corrupt)
      case Behind => Loaded([], Unknown)
      case Got(m, used) =>
        if 0 < used <= size - i then Before(m, LoadWith(read, size, i + used)) else Loaded([], Unknown)
  }

  function Before(m: Message, rest: Loaded): Loaded {
    Loaded([m] + rest.msgs, rest.end)
  }

  function Reader(b: Bytes): nat -> Read {
    (i: nat) => if i <= |b| then ReadFramed(b, i) else Refused
  }

  function Load(b: Bytes): Loaded {
    LoadWith(Reader(b), |b|, 0)
  }

  predicate StorableMessage(m: Message) {
    WellFormed(m) && |Encode(m)| < TWO_31
  }

  ghost predicate Storable(ms: seq<Message>) {
    forall k :: 0 <= k < |ms| ==> StorableMessage(ms[k])
  }

  /** Frames from the n-th on, one behind the other. */
  function Stream(fs: seq<Bytes>, n: nat): Bytes
    requires n <= |fs|
    decreases |fs| - n
  {
    if n == |fs| then [] else fs[n] + Stream(fs, n + 1)
  }

  ghost function Frames(ms: seq<Message>): (fs: seq<Bytes>)
    requires Storable(ms)
    ensures |fs| == |ms|
  {
    seq(|ms|, k requires 0 <= k < |ms| => Framed(ms[k]))
  }

  /** The k-th frame is that of a message read back as the k-th of rs. */
  ghost predicate FrameOk(fs: seq<Bytes>, rs: seq<Message>, k: nat) {
    k < |fs| && k < |rs| && exists m :: StorableMessage(m) && fs[k] == Framed(m) && rs[k] == Plain(m)
  }

  ghost predicate FramesOk(fs: seq<Bytes>, rs: seq<Message>) {
    |fs| == |rs| && forall k :: 0 <= k < |fs| ==> FrameOk(fs, rs, k)
  }

  function AllPlain(ms: seq<Message>): (rs: seq<Message>)
    ensures |rs| == |ms|
  {
    seq(|ms|, k requires 0 <= k < |ms| => Plain(ms[k]))
  }

  lemma {:induction false} FramesAreOk(ms: seq<Message>)
    requires Storable(ms)
    ensures FramesOk(Frames(ms), AllPlain(ms))
  {
    forall k | 0 <= k < |ms| ensures FrameOk(Frames(ms), AllPlain(ms), k) {
      assert StorableMessage(ms[k]) && Frames(ms)[k] == Framed(ms[k]) && AllPlain(ms)[k] == Plain(ms[k]);
    }
  }

  /** How many frames from the n-th on are whole within the first `size` bytes. */
  function Whole(fs: seq<Bytes>, n: nat, size: nat): (k: nat)
    requires n <= |fs|
    ensures n + k <= |fs|
    decreases |fs| - n
  {
    if n == |fs| || size < |fs[n]| then 0 else 1 + Whole(fs, n + 1, size - |fs[n]|)
  }

  /** Every frame from the n-th on that is whole is read, and one that is cut off refused. */
  ghost predicate Reads(read: nat -> Read, size: nat, i: nat, fs: seq<Bytes>, rs: seq<Message>, n: nat)
    requires i <= size && n <= |fs| == |rs|
    decreases |fs| - n
  {
    if n == |fs| then i == size
    else if i == size then |fs[n]| > 0
    else if size - i < |fs[n]| then read(i) == Refused
    else |fs[n]| > 0 && read(i) == Got(rs[n], |fs[n]|) && Reads(read, size, i + |fs[n]|, fs, rs, n + 1)
  }

  lemma {:induction false} StreamHead(fs: seq<Bytes>, n: nat, b: Bytes, i: nat)
    requires n < |fs| && i <= |b| && b[i..] <= Stream(fs, n)
    ensures var f := fs[n];
      if |b| - i < |f| then b[i..] == f[..|b| - i]
      else b[i..i + |f|] == f && b[i + |f|..] <= Stream(fs, n + 1)
  {
    var f := fs[n];
    if |f| <= |b| - i {
      assert b[i..i + |f|] == b[i..][..|f|] == f;
      assert b[i + |f|..] == b[i..][|f|..];
      assert Stream(fs, n)[|f|..] == Stream(fs, n + 1);
    }
  }

  lemma {:induction false} FrameReads(fs: seq<Bytes>, rs: seq<Message>, n: nat, b: Bytes, i: nat)
    requires FrameOk(fs, rs, n) && i < |b| < i + TWO_32 && b[i..] <= Stream(fs, n)
    ensures |fs[n]| > 0
    ensures ReadFramed(b, i) == if |b| - i < |fs[n]| then Refused else Got(rs[n], |fs[n]|)
  {
    StreamHead(fs, n, b, i);
    var m :| StorableMessage(m) && fs[n] == Framed(m) && rs[n] == Plain(m);
    if |b| - i < |fs[n]| {
      CutOffIsRefused(m, b, i);
    } else {
      FramedRoundTrip(m, b, i, i + |fs[n]|);
    }
  }

  lemma {:induction false} FrameNotEmpty(fs: seq<Bytes>, rs: seq<Message>, n: nat)
    requires FrameOk(fs, rs, n)
    ensures |fs[n]| > 0
  {
  }

  /** Reading at i does what the n-th frame asks for, if that is where it starts. */
  ghost predicate ReadAt(read: nat -> Read, b: Bytes, i: nat, fs: seq<Bytes>, rs: seq<Message>, n: nat) {
    i <= |b| && n < |fs| == |rs| && b[i..] <= Stream(fs, n) ==>
      && |fs[n]| > 0
      && (i < |b| ==> read(i) == if |b| - i < |fs[n]| then Refused else Got(rs[n], |fs[n]|))
  }

  lemma {:induction false} FrameReader(fs: seq<Bytes>, rs: seq<Message>, n: nat, b: Bytes, i: nat)
    requires FrameOk(fs, rs, n) && |b| < TWO_32
    ensures ReadAt(Reader(b), b, i, fs, rs, n)
  {
    FrameNotEmpty(fs, rs, n);
    if i < |b| && b[i..] <= Stream(fs, n) {
      FrameReads(fs, rs, n, b, i);
    }
  }

  lemma {:induction false} AllReads(read: nat -> Read, fs: seq<Bytes>, rs: seq<Message>, n: nat, b: Bytes, i: nat)
    requires n <= |fs| == |rs| && i <= |b| && b[i..] <= Stream(fs, n)
    requires forall k: nat, j: nat :: ReadAt(read, b, j, fs, rs, k)
    ensures Reads(read, |b|, i, fs, rs, n)
    decreases |fs| - n
  {
    if n < |fs| {
      assert ReadAt(read, b, i, fs, rs, n);
      StreamHead(fs, n, b, i);
      if |fs[n]| <= |b| - i {
        AllReads(read, fs, rs, n + 1, b, i + |fs[n]|);
      }
    }
  }

  /** The start of a stream is read frame by frame. */
  lemma {:induction false} StreamReads(fs: seq<Bytes>, rs: seq<Message>, b: Bytes)
    requires FramesOk(fs, rs) && |b| < TWO_32 && b <= Stream(fs, 0)
    ensures Reads(Reader(b), |b|, 0, fs, rs, 0)
  {
    forall k: nat, j: nat ensures ReadAt(Reader(b), b, j, fs, rs, k) {
      if k < |fs| {
        assert FrameOk(fs, rs, k);
        FrameReader(fs, rs, k, b, j);
      }
    }
    assert b[0..] == b;
    AllReads(Reader(b), fs, rs, 0, b, 0);
  }

  lemma {:induction false} TakeStep(rs: seq<Message>, n: nat, k: nat)
    requires n < k <= |rs|
    ensures rs[n..k] == [rs[n]] + rs[n + 1..k]
  {
  }

  lemma {:induction false} LoadsPrefix(read: nat -> Read, size: nat, i: nat, fs: seq<Bytes>, rs: seq<Message>, n: nat)
    requires i <= size && n <= |fs| == |rs| && Reads(read, size, i, fs, rs, n)
    requires forall k :: n <= k < |fs| ==> 4 < |fs[k]|
    ensures LoadWith(read, size, i).msgs == rs[n..n + Whole(fs, n, size - i)]
    decreases |fs| - n
  {
    if n < |fs| && |fs[n]| <= size - i {
      LoadsPrefix(read, size, i + |fs[n]|, fs, rs, n + 1);
      TakeStep(rs, n, n + Whole(fs, n, size - i));
    }
  }

  /** A file cut off anywhere, as after a crash while it was written, yields exactly the
      messages that are whole in it, if none is shorter than five bytes. */
  lemma {:induction false} CutFileLoads(ms: seq<Message>, b: Bytes)
    requires Storable(ms) && |b| < TWO_32 && b <= Stream(Frames(ms), 0)
    requires forall k :: 0 <= k < |ms| ==> 4 < |Framed(ms[k])|
    ensures Load(b).msgs == AllPlain(ms)[..Whole(Frames(ms), 0, |b|)]
  {
    FramesAreOk(ms);
    FramesAreLong(ms);
    StreamReads(Frames(ms), AllPlain(ms), b);
    LoadsPrefix(Reader(b), |b|, 0, Frames(ms), AllPlain(ms), 0);
  }

  lemma {:induction false} FramesAreLong(ms: seq<Message>)
    requires Storable(ms) && forall k :: 0 <= k < |ms| ==> 4 < |Framed(ms[k])|
    ensures forall k :: 0 <= k < |ms| ==> 4 < |Frames(ms)[k]|
  {
  }

  lemma {:induction false} LastInStream(fs: seq<Bytes>, n: nat)
    requires n < |fs|
    ensures |fs[|fs| - 1]| <= |Stream(fs, n)|
    decreases |fs| - n
  {
    if n + 1 < |fs| {
      LastInStream(fs, n + 1);
    }
  }

  lemma {:induction false} SameTails(rs: seq<Message>, n: nat, x: seq<Message>)
    requires n < |rs|
    ensures [rs[n]] + x == rs[n..] <==> x == rs[n + 1..]
  {
    assert rs[n..] == [rs[n]] + rs[n + 1..];
    assert ([rs[n]] + x)[1..] == x && rs[n..][1..] == rs[n + 1..];
  }

  lemma {:induction false} LoadsWhole(read: nat -> Read, size: nat, i: nat, fs: seq<Bytes>, rs: seq<Message>, n: nat)
    requires i <= size && n < |fs| == |rs| && Reads(read, size, i, fs, rs, n)
    requires size - i == |Stream(fs, n)|
    ensures LoadWith(read, size, i).msgs == rs[n..] <==> 4 < |fs[|fs| - 1]|
    decreases |fs| - n
  {
    LastInStream(fs, n);
    if 4 < size - i {
      SameTails(rs, n, LoadWith(read, size, i + |fs[n]|).msgs);
      if n + 1 < |fs| {
        LoadsWhole(read, size, i + |fs[n]|, fs, rs, n + 1);
      }
    }
  }

  /** A file is read back to exactly the messages it was made of if and only if there are
      none, or the file is below 4 GiB and its last message has at least five bytes. */
  lemma {:induction false} LoadedIsSavedIff(ms: seq<Message>)
    requires Storable(ms)
    ensures var b := Stream(Frames(ms), 0);
      Load(b).msgs == AllPlain(ms) <==> ms == [] || (|b| < TWO_32 && 4 < |Framed(ms[|ms| - 1])|)
  {
    var (fs, rs) := (Frames(ms), AllPlain(ms));
    var b := Stream(fs, 0);
    if ms == [] || TWO_32 <= |b| {
      TooLargeLoadsNothing(b);
    } else {
      FramesAreOk(ms);
      StreamReads(fs, rs, b);
      LoadsWhole(Reader(b), |b|, 0, fs, rs, 0);
      assert fs[|fs| - 1] == Framed(ms[|ms| - 1]) && rs[0..] == rs;
    }
  }

  lemma {:induction false} TooLargeLoadsNothing(b: Bytes)
    requires b == [] || TWO_32 <= |b|
    ensures Load(b).msgs == []
  {
  }

  // ---------------------------------------------------------------- writing the file

  const MAXLEN: nat := 0x10000

  /** htsmsg_binary2_serialize: nothing for a message that is too long. */
  method Serialize(m: Message, maxlen: nat) returns (ok: bool, data: array<Byte>)
    requires StorableMessage(m)
    ensures fresh(data) && ok == (|Framed(m)| <= maxlen)
    ensures ok ==> data[..] == Framed(m)
  {
    var len := Count(m);
    var llen := LengthCount(len);
    if len + llen > maxlen {
      return false, new Byte[0];
    }
    data := new Byte[len + llen](_ => 0);
    ghost var was := data[..];
    var p := WriteLength(data, 0, len);
    Write(data, p, m);
    PutTwice(was, 0, SetLength(len), Encode(m));
    ok := true;
  }

  /** The messages from the n-th on that _epg_write keeps: those of at most 64 KiB. */
  ghost function Kept(ms: seq<Message>, n: nat): (k: seq<Message>)
    requires Storable(ms) && n <= |ms|
    ensures Storable(k)
    decreases |ms| - n
  {
    if n == |ms| then [] else (if |Framed(ms[n])| <= MAXLEN then [ms[n]] else []) + Kept(ms, n + 1)
  }

  lemma {:induction false} StreamShift(f: Bytes, fs: seq<Bytes>, n: nat)
    requires n <= |fs|
    ensures Stream([f] + fs, n + 1) == Stream(fs, n)
    decreases |fs| - n
  {
    if n < |fs| {
      assert ([f] + fs)[n + 1] == fs[n];
      StreamShift(f, fs, n + 1);
    }
  }

  /** The file of the messages that are kept from the n-th on. */
  ghost function FileFrom(ms: seq<Message>, n: nat): Bytes
    requires Storable(ms) && n <= |ms|
  {
    Stream(Frames(Kept(ms, n)), 0)
  }

  /** The calls of _epg_write that make the file. */
  method Save(ms: seq<Message>) returns (sb: Bytes)
    requires Storable(ms)
    ensures sb == Stream(Frames(Kept(ms, 0)), 0)
  {
    sb := [];
    var n := 0;
    while n < |ms|
      invariant n <= |ms| && sb + FileFrom(ms, n) == FileFrom(ms, 0)
    {
      sb := SaveNext(ms, n, sb);
      n := n + 1;
    }
  }

  /** One round: the n-th message is added to the file if it is kept. */
  method SaveNext(ms: seq<Message>, n: nat, sb: Bytes) returns (more: Bytes)
    requires Storable(ms) && n < |ms|
    ensures more + FileFrom(ms, n + 1) == sb + FileFrom(ms, n)
  {
    var ok, data := Serialize(ms[n], MAXLEN);
    if ok {
      KeptStream(ms, n, sb);
      more := sb + data[..];
    } else {
      KeptSkips(ms, n);
      more := sb;
    }
  }

  lemma {:induction false} KeptSkips(ms: seq<Message>, n: nat)
    requires Storable(ms) && n < |ms| && |Framed(ms[n])| > MAXLEN
    ensures FileFrom(ms, n) == FileFrom(ms, n + 1)
  {
    assert Kept(ms, n) == Kept(ms, n + 1);
  }

  lemma {:induction false} FrameAt(ms: seq<Message>, k: nat)
    requires Storable(ms) && k < |ms|
    ensures Frames(ms)[k] == Framed(ms[k])
  {
  }

  lemma {:induction false} FramesJoin(m: Message, ms: seq<Message>)
    requires StorableMessage(m) && Storable(ms) && Storable([m] + ms)
    ensures Frames([m] + ms) == [Framed(m)] + Frames(ms)
  {
    var (x, y) := (Frames([m] + ms), [Framed(m)] + Frames(ms));
    forall k | 0 <= k < |x| ensures x[k] == y[k] {
      FrameAt([m] + ms, k);
      if k > 0 {
        FrameAt(ms, k - 1);
      }
    }
  }

  lemma {:induction false} StreamJoin(f: Bytes, fs: seq<Bytes>)
    ensures Stream([f] + fs, 0) == f + Stream(fs, 0)
  {
    StreamShift(f, fs, 0);
  }

  lemma {:induction false} KeptStream(ms: seq<Message>, n: nat, sb: Bytes)
    requires Storable(ms) && n < |ms| && |Framed(ms[n])| <= MAXLEN
    ensures sb + FileFrom(ms, n) == sb + Framed(ms[n]) + FileFrom(ms, n + 1)
  {
    var k := Kept(ms, n + 1);
    assert Kept(ms, n) == [ms[n]] + k;
    FramesJoin(ms[n], k);
    StreamJoin(Framed(ms[n]), Frames(k));
    Regroup(sb, Framed(ms[n]), Stream(Frames(k), 0));
  }

  // ---------------------------------------------------------------- reading the file

  /** htsmsg_binary2_deserialize; the buffer is kept exactly when a field of the message
      points into it. */
  method Deserialize(b: Bytes, i: nat) returns (r: Read, kept: bool)
    requires i <= |b|
    ensures r == ReadFramed(b, i)
    ensures kept <==> r.Got? && PointsIn(r.msg)
  {
    kept := false;
    if |b| - i >= TWO_32 || |b| - i == 0 {
      return Refused, kept;
    }
    var l, p := ReadLength(b, i, |b|);
    var l2 := Sum32(l, p - i);
    if l2 > |b| - i {
      return Refused, kept;
    }
    if p + l > |b| {
      return Behind, kept;
    }
    var k, m := ReadFields(b, p, p + l);
    if k < 0 {
      return Refused, kept;
    }
    r, kept := Got(m, p + l - i), k > 0;
  }

  /** What is loaded from i on. */
  ghost function Rest(b: Bytes, i: nat): Loaded
    requires i <= |b|
  {
    LoadWith(Reader(b), |b|, i)
  }

  /** One round of the loop of epg_init: the next message, or the reason to stop. */
  method LoadNext(b: Bytes, i: nat, msgs: seq<Message>) returns (more: seq<Message>, j: nat, stop: Option<Ending>)
    requires i + 4 < |b|
    ensures stop.Some? ==> more == msgs && After(msgs, Rest(b, i)) == Loaded(msgs, stop.value)
    ensures stop.None? ==> i < j <= |b| && After(msgs, Rest(b, i)) == After(more, Rest(b, j))
  {
    var r, kept := Deserialize(b, i);
    assert Reader(b)(i) == r;
    more, j, stop := msgs, i, None;
    match r
    case Refused => stop := Some(Corrupt);
    case Behind => stop := Some(Unknown);
    case Got(m, used) =>
      more, j := msgs + [m], i + used;
      AfterBefore(msgs, m, Rest(b, j));
  }

  /** The loop of epg_init. */
  method LoadFile(b: Bytes) returns (loaded: Loaded)
    ensures loaded == Load(b)
  {
    var msgs: seq<Message> := [];
    var rp, remain := 0, |b|;
    while remain > 4
      invariant rp <= |b| && remain == |b| - rp
      invariant Load(b) == After(msgs, Rest(b, rp))
      decreases remain
    {
      var stop;
      msgs, rp, stop := LoadNext(b, rp, msgs);
      if stop.Some? {
        return Loaded(msgs, stop.value);
      }
      remain := |b| - rp;
    }
    loaded := Loaded(msgs, Finished);
  }

  function After(msgs: seq<Message>, rest: Loaded): Loaded {
    Loaded(msgs + rest.msgs, rest.end)
  }

  lemma {:induction false} AfterBefore(msgs: seq<Message>, m: Message, rest: Loaded)
    ensures After(msgs, Before(m, rest)) == After(msgs + [m], rest)
  {
    assert msgs + ([m] + rest.msgs) == (msgs + [m]) + rest.msgs;
  }
}
