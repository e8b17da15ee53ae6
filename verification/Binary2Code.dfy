/** The loops of src/htsmsg_binary2.c that count, write and read message trees, proved
    against Encode and Decode. */
module Binary2Code {
  import opened Wrappers
  import opened Htsmsg
  import opened Binary2Length
  import opened Binary2

  // ---------------------------------------------------------------- counting

  /** htsmsg_binary2_field_length. */
  method FieldLength(v: Value) returns (l: nat)
    requires WellFormedValue(v) && |Content(v)| < TWO_32
    ensures l == |Content(v)|
    decreases v, 1
  {
    match v
    case Map(m) => l := Count(m);
    case List(m) => l := Count(m);
    case Str(s) => l := |s|;
    case Uuid(_) => l := UUID_BIN_SIZE;
    case Bin(d) => l := |d|;
    case S64(n) =>
      var u := Unsigned(n);
      l := 0;
      while u != 0
        invariant l + |NumberBytes(u)| == |Content(v)|
        decreases u
      {
        l, u := l + 1, u / 0x100;
      }
    case Bool(b) => l := if b != 0 then 1 else 0;
  }

  function FieldBytes(name: Bytes, v: Value): Bytes
    requires WellFormedValue(v) && |name| < 256
  {
    Header(TypeOf(v), name, |Content(v)|) + Content(v)
  }

  lemma {:induction false} FieldSize(m: Message)
    requires WellFormed(m) && m.Field?
    ensures var l := |Content(m.value)|;
      && |FieldBytes(m.name, m.value)| == 2 + |SetLength(l)| + |m.name| + l
      && Encode(m) == FieldBytes(m.name, m.value) + Encode(m.next)
  {
  }

  function Add32(x: nat, y: nat): nat {
    (x + y) % TWO_32
  }

  lemma {:induction false} NoWrap(x: nat, y: nat)
    requires x + y < TWO_32
    ensures Add32(x, y) == x + y
  {
  }

  /** htsmsg_binary2_count, in 32-bit arithmetic. */
  method Count(m: Message) returns (len: nat)
    requires WellFormed(m) && |Encode(m)| < TWO_32
    ensures len == |Encode(m)|
    decreases m, 0
  {
    len := 0;
    var f := m;
    while f.Field?
      invariant WellFormed(f) && len + |Encode(f)| == |Encode(m)|
      invariant f == m || f < m
      decreases f
    {
      FieldSize(f);
      var l := FieldLength(f.value);
      var groups := LengthCount(l);
      NoWrap(len, 2 + groups);
      len := Add32(len, 2 + groups);
      NoWrap(len, |f.name|);
      len := Add32(len, |f.name|);
      NoWrap(len, l);
      len := Add32(len, l);
      f := f.next;
    }
  }

  // ---------------------------------------------------------------- writing

  /** The bytes s with those from p on replaced. */
  function Put(s: Bytes, p: nat, bytes: Bytes): (r: Bytes)
    requires p + |bytes| <= |s|
    ensures |r| == |s|
  {
    s[..p] + bytes + s[p + |bytes|..]
  }

  lemma {:induction false} PutTwice(s: Bytes, p: nat, x: Bytes, y: Bytes)
    requires p + |x| + |y| <= |s|
    ensures Put(Put(s, p, x), p + |x|, y) == Put(s, p, x + y)
  {
    var t := Put(s, p, x);
    assert t[..p + |x|] == s[..p] + x;
    assert t[p + |x| + |y|..] == s[p + |x| + |y|..];
  }

  lemma {:induction false} PutNext(s: Bytes, p: nat, x: Bytes, y: Byte)
    requires p + |x| < |s|
    ensures Put(s, p, x)[p + |x| := y] == Put(s, p, x + [y])
  {
    var t := Put(s, p, x);
    assert t[p + |x| := y] == Put(t, p + |x|, [y]);
    PutTwice(s, p, x, [y]);
  }

  /** memcpy. */
  method Copy(a: array<Byte>, p: nat, bytes: Bytes)
    requires p + |bytes| <= a.Length
    modifies a
    ensures a[..] == Put(old(a[..]), p, bytes)
  {
    for i := 0 to |bytes|
      invariant forall k :: 0 <= k < a.Length ==> a[k] == if p <= k < p + i then bytes[k - p] else old(a[k])
    {
      a[p + i] := bytes[i];
    }
  }

  /** htsmsg_binary2_set_length. */
  method WriteLength(a: array<Byte>, p: nat, len: nat) returns (q: nat)
    requires len < TWO_32 && p + |SetLength(len)| <= a.Length
    modifies a
    ensures q == p + |SetLength(len)| && a[..] == Put(old(a[..]), p, SetLength(len))
  {
    FormsAreGroups(len);
    q := WriteForm(a, p, len);
  }

  method WriteForm(a: array<Byte>, p: nat, len: nat) returns (q: nat)
    requires p + |FiveForms(len)| <= a.Length
    modifies a
    ensures q == p + |FiveForms(len)| && a[..] == Put(old(a[..]), p, FiveForms(len))
  {
    if len < 0x80 {
      Copy(a, p, [len]);
      q := p + 1;
    } else if len < 0x4000 {
      Copy(a, p, [0x80 + len / 0x80 % 0x80, len % 0x80]);
      q := p + 2;
    } else if len < 0x200000 {
      Copy(a, p, [0x80 + len / 0x4000 % 0x80, 0x80 + len / 0x80 % 0x80, len % 0x80]);
      q := p + 3;
    } else if len < 0x10000000 {
      Copy(a, p, [0x80 + len / 0x200000 % 0x80, 0x80 + len / 0x4000 % 0x80, 0x80 + len / 0x80 % 0x80, len % 0x80]);
      q := p + 4;
    } else {
      Copy(a, p, [0x80 + len / 0x10000000 % 0x80, 0x80 + len / 0x200000 % 0x80, 0x80 + len / 0x4000 % 0x80,
                  0x80 + len / 0x80 % 0x80, len % 0x80]);
      q := p + 5;
    }
  }

  method WriteHeader(a: array<Byte>, p: nat, t: Byte, name: Bytes, len: nat) returns (q: nat)
    requires |name| < 256 && len < TWO_32 && p + |Header(t, name, len)| <= a.Length
    modifies a
    ensures q == p + |Header(t, name, len)| && a[..] == Put(old(a[..]), p, Header(t, name, len))
  {
    ghost var was := a[..];
    Copy(a, p, [t, |name|]);
    q := WriteLength(a, p + 2, len);
    PutTwice(was, p, [t, |name|], SetLength(len));
    Copy(a, q, name);
    PutTwice(was, p, [t, |name|] + SetLength(len), name);
    q := q + |name|;
  }

  lemma {:induction false} NumberStep(done: Bytes, u: nat)
    requires u > 0
    ensures done + NumberBytes(u) == (done + [u % 0x100]) + NumberBytes(u / 0x100)
  {
  }

  method WriteNumber(a: array<Byte>, p: nat, number: nat, l: nat)
    requires l == |NumberBytes(number)| && p + l <= a.Length
    modifies a
    ensures a[..] == Put(old(a[..]), p, NumberBytes(number))
  {
    var u, i := number, 0;
    ghost var was, done: Bytes := a[..], [];
    while i < l
      invariant |done| == i <= l && done + NumberBytes(u) == NumberBytes(number)
      invariant a[..] == Put(was, p, done)
    {
      NumberStep(done, u);
      a[p + i] := u % 0x100;
      PutNext(was, p, done, u % 0x100);
      done := done + [u % 0x100];
      u, i := u / 0x100, i + 1;
    }
    assert done == NumberBytes(number);
  }

  /** The switch of htsmsg_binary2_write. */
  method WriteContent(a: array<Byte>, p: nat, v: Value, l: nat)
    requires WellFormedValue(v) && l == |Content(v)| < TWO_31 && p + l <= a.Length
    modifies a
    ensures a[..] == Put(old(a[..]), p, Content(v))
    decreases v, 1
  {
    match v
    case Map(m) => Write(a, p, m);
    case List(m) => Write(a, p, m);
    case Str(s) => Copy(a, p, s);
    case Uuid(id) => Copy(a, p, id);
    case Bin(d) => Copy(a, p, d);
    case S64(n) => WriteNumber(a, p, Unsigned(n), l);
    case Bool(b) =>
      if b != 0 {
        a[p] := 1;
      }
  }

  /** One round of the loop of htsmsg_binary2_write. */
  method WriteField(a: array<Byte>, p: nat, name: Bytes, v: Value) returns (q: nat)
    requires WellFormedValue(v) && |name| < 256 && |Content(v)| < TWO_31
    requires p + |FieldBytes(name, v)| <= a.Length
    modifies a
    ensures q == p + |FieldBytes(name, v)| && a[..] == Put(old(a[..]), p, FieldBytes(name, v))
    decreases v, 2
  {
    ghost var was := a[..];
    var l := FieldLength(v);
    q := WriteHeader(a, p, TypeOf(v), name, l);
    WriteContent(a, q, v, l);
    PutTwice(was, p, Header(TypeOf(v), name, l), Content(v));
    q := q + l;
  }

  lemma {:induction false} FieldStep(done: Bytes, f: Message)
    requires WellFormed(f) && f.Field?
    ensures done + Encode(f) == (done + FieldBytes(f.name, f.value)) + Encode(f.next)
    ensures |Content(f.value)| <= |FieldBytes(f.name, f.value)| <= |Encode(f)|
  {
    FieldSize(f);
    Regroup(done, FieldBytes(f.name, f.value), Encode(f.next));
  }

  /** htsmsg_binary2_write. */
  method Write(a: array<Byte>, start: nat, m: Message)
    requires WellFormed(m) && |Encode(m)| < TWO_31 && start + |Encode(m)| <= a.Length
    modifies a
    ensures a[..] == Put(old(a[..]), start, Encode(m))
    decreases m, 0
  {
    var p, f := start, m;
    ghost var was, done: Bytes, all := a[..], [], Encode(m);
    while f.Field?
      invariant WellFormed(f) && done + Encode(f) == all && p == start + |done|
      invariant a[..] == Put(was, start, done)
      invariant f == m || f < m
      decreases f
    {
      FieldStep(done, f);
      ghost var bytes := FieldBytes(f.name, f.value);
      p := WriteField(a, p, f.name, f.value);
      PutTwice(was, start, done, bytes);
      done := done + bytes;
      f := f.next;
    }
    assert done == all;
  }

  // ---------------------------------------------------------------- reading

  function Attach(m: Message, r: Result<Message>): Result<Message> {
    match r
    case Ok(next) => Ok(Concat(m, next))
    case Bad => Bad
  }

  lemma {:induction false} AttachTwice(m: Message, n: Message, r: Result<Message>)
    ensures Attach(Concat(m, n), r) == Attach(m, Attach(n, r))
  {
    if r.Ok? {
      ConcatAssociates(m, n, r.value);
    }
  }

  /** Whether a binary field points into the buffer the message was read from. */
  predicate PointsIn(m: Message) {
    m.Field? && (PointsInValue(m.value) || PointsIn(m.next))
  }

  predicate PointsInValue(v: Value) {
    match v
    case Map(m) => PointsIn(m)
    case List(m) => PointsIn(m)
    case Bin(_) => true
    case _ => false
  }

  lemma {:induction false} ConcatPointsIn(m: Message, n: Message)
    ensures PointsIn(Concat(m, n)) <==> PointsIn(m) || PointsIn(n)
  {
    if m.Field? {
      ConcatPointsIn(m.next, n);
    }
  }

  /** The loop that gathers a number from its highest byte down. */
  method ReadNumber(b: Bytes, start: nat, e: nat) returns (u: nat)
    requires start <= e <= |b|
    ensures u == NumberOf(b, start, e)
  {
    u := 0;
    if e - start <= TWO_31 {
      var i := e;
      while i > start
        invariant start <= i <= e && u == Gathered(b, i, e)
      {
        i := i - 1;
        u := (u * 0x100 + b[i]) % TWO_64;
      }
    }
  }

  /** The switch of htsmsg_binary2_des0; `bin` tells that the content points into the buffer. */
  method ReadContent(t: Byte, b: Bytes, i: nat, e: nat) returns (r: Result<Value>, bin: bool)
    requires i <= e <= |b|
    ensures r == DecodeValue(t, b, i, e)
    ensures r.Ok? ==> bin == PointsInValue(r.value)
    decreases e - i, 4
  {
    bin := false;
    if t == 3 {
      r := Ok(Str(CString(b[i..e])));
    } else if t == 8 {
      r := if e - i == UUID_BIN_SIZE then Ok(Uuid(b[i..e])) else Bad;
    } else if t == 4 {
      r, bin := Ok(Bin(b[i..e])), true;
    } else if t == 2 {
      var u := ReadNumber(b, i, e);
      r := Ok(S64(Signed(u)));
    } else if t == 1 || t == 5 {
      var k, sub := ReadFields(b, i, e);
      r := if k < 0 then Bad else if t == 1 then Ok(Map(sub)) else Ok(List(sub));
      bin := k > 0;
    } else if t == 7 {
      r := Ok(Bool(if e - i == 1 then b[i] else 0));
    } else {
      r := Bad;
    }
  }

  /** f is the field at i, as the function that decodes a field has it, and the next begins at j. */
  predicate FieldIs(b: Bytes, i: nat, e: nat, f: Result<Message>, bin: bool, j: nat)
    requires i + 2 < e <= |b|
  {
    match FieldAt(b, i, e)
    case Bad => f.Bad?
    case Ok(parts) =>
      var v := DecodeValue(b[i], b, parts.1, parts.2);
      f == AsField(b[parts.0..parts.1], v) && j == parts.2 && (v.Ok? ==> bin == PointsInValue(v.value))
  }

  /** One round of the loop of htsmsg_binary2_des0: the field at i and where the next begins. */
  method ReadField(b: Bytes, i: nat, e: nat) returns (f: Result<Message>, bin: bool, j: nat)
    requires i + 2 < e <= |b|
    ensures FieldIs(b, i, e, f, bin, j)
    decreases e - i, 2
  {
    bin, j := false, i;
    var (t, namelen) := (b[i], b[i + 1]);
    var len, p := ReadLength(b, i + 2, e);
    if e - p < namelen + len {
      return Bad, bin, j;
    }
    var c := p + namelen;
    j := c + len;
    var v;
    v, bin := ReadContent(t, b, c, j);
    f := AsField(b[p..c], v);
  }

  /** What a round has read is the first field of what is decoded. */
  lemma {:induction false} RoundRead(b: Bytes, i: nat, e: nat, f: Result<Message>, bin: bool, j: nat)
    requires i + 2 < e <= |b| && FieldIs(b, i, e, f, bin, j)
    ensures f.Bad? ==> Decode(b, i, e) == Bad
    ensures f.Ok? ==> i < j <= e && bin == PointsIn(f.value) && Decode(b, i, e) == Attach(f.value, Decode(b, j, e))
  {
    match FieldAt(b, i, e)
    case Bad => FieldRefused(b, i, e);
    case Ok((p, c, n)) =>
      FieldRead(b, i, e);
      AttachOne(b[p..c], DecodeValue(b[i], b, c, n), Decode(b, n, e));
  }

  function AsField(name: Bytes, v: Result<Value>): Result<Message> {
    if v.Ok? then Ok(Field(CString(name), v.value, End)) else Bad
  }

  lemma {:induction false} FieldRefused(b: Bytes, i: nat, e: nat)
    requires i + 2 < e <= |b| && FieldAt(b, i, e).Bad?
    ensures Decode(b, i, e) == Bad
  {
  }

  lemma {:induction false} FieldRead(b: Bytes, i: nat, e: nat)
    requires i + 2 < e <= |b| && FieldAt(b, i, e).Ok?
    ensures var (p, c, n) := FieldAt(b, i, e).value;
      Decode(b, i, e) == FieldThen(b[p..c], DecodeValue(b[i], b, c, n), Decode(b, n, e))
  {
  }

  lemma {:induction false} AttachOne(name: Bytes, v: Result<Value>, r: Result<Message>)
    ensures FieldThen(name, v, r) == if v.Ok? then Attach(AsField(name, v).value, r) else Bad
    ensures v.Ok? ==> PointsIn(AsField(name, v).value) == PointsInValue(v.value)
  {
    if r.Ok? {
      assert Concat(End, r.value) == r.value;
    }
  }

  /** htsmsg_binary2_des0: -1 for bytes that are refused, 1 for a message with a field that
      points into the buffer, 0 for any other. */
  method ReadFields(b: Bytes, start: nat, e: nat) returns (r: int, msg: Message)
    requires start <= e <= |b|
    ensures match Decode(b, start, e)
      case Bad => r == -1
      case Ok(m) => msg == m && r == (if PointsIn(m) then 1 else 0)
    decreases e - start, 3
  {
    msg, r := End, 0;
    var i := start;
    while e - i > 2
      invariant start <= i <= e
      invariant Decode(b, start, e) == Attach(msg, Decode(b, i, e))
      invariant r == (if PointsIn(msg) then 1 else 0)
    {
      var f, bin, j := ReadField(b, i, e);
      RoundRead(b, i, e, f, bin, j);
      if f.Bad? {
        return -1, End;
      }
      AttachTwice(msg, f.value, Decode(b, j, e));
      ConcatPointsIn(msg, f.value);
      msg := Concat(msg, f.value);
      r := if bin then 1 else r;
      i := j;
    }
    if i < e {
      r := -1;
    } else {
      ConcatEnd(msg);
    }
  }
}
