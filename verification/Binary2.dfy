/** The binary format of message trees (src/htsmsg_binary2.c): one byte of type, one byte of
    name length, the length of the content, the name, the content. */
module Binary2 {
  import opened Wrappers
  import opened Htsmsg
  import opened Binary2Length

  // ---------------------------------------------------------------- what is written

  function Unsigned(n: int): nat {
    n % TWO_64
  }

  function Signed(u: nat): int
    requires u < TWO_64
  {
    if u < TWO_63 then u else u - TWO_64
  }

  /** A number's bytes, the lowest first, down to the last that is not zero. */
  function NumberBytes(u: nat): Bytes {
    if u == 0 then [] else [u % 0x100] + NumberBytes(u / 0x100)
  }

  /** The content of a field as bytes. */
  function Content(v: Value): Bytes
    requires WellFormedValue(v)
  {
    match v
    case Map(m) => Encode(m)
    case List(m) => Encode(m)
    case Str(s) => s
    case Uuid(id) => id
    case Bin(d) => d
    case S64(n) => NumberBytes(Unsigned(n))
    case Bool(b) => if b != 0 then [1] else []
  }

  function Header(t: Byte, name: Bytes, len: nat): Bytes
    requires |name| < 256
  {
    [t, |name|] + SetLength(len) + name
  }

  function Encode(m: Message): Bytes
    requires WellFormed(m)
  {
    match m
    case End => []
    case Field(name, value, next) =>
      Header(TypeOf(value), name, |Content(value)|) + Content(value) + Encode(next)
  }

  // ---------------------------------------------------------------- what is read

  datatype Result<+T> = Ok(value: T) | Bad

  /** The number the bytes from i to e make in 64 bits.  The loop counts down in a C int, so
      it never starts for a content beyond 2^31 bytes. */
  function NumberOf(b: Bytes, i: nat, e: nat): nat
    requires i <= e <= |b|
  {
    if e - i <= TWO_31 then Gathered(b, i, e) else 0
  }

  function Gathered(b: Bytes, i: nat, e: nat): (u: nat)
    requires i <= e <= |b|
    ensures u < TWO_64
    decreases e - i
  {
    if i == e then 0 else (Gathered(b, i + 1, e) * 0x100 + b[i]) % TWO_64
  }

  function SubMessage(t: Byte, r: Result<Message>): Result<Value> {
    if r.Bad? then Bad else if t == 1 then Ok(Map(r.value)) else Ok(List(r.value))
  }

  /** The content between i and e of a field of type t. */
  function DecodeValue(t: Byte, b: Bytes, i: nat, e: nat): Result<Value>
    requires i <= e <= |b|
    decreases e - i, 1
  {
    if t == 1 || t == 5 then SubMessage(t, Decode(b, i, e))
    else if t == 2 then Ok(S64(Signed(NumberOf(b, i, e))))
    else if t == 3 then Ok(Str(CString(b[i..e])))
    else if t == 4 then Ok(Bin(b[i..e]))
    else if t == 7 then Ok(Bool(if e - i == 1 then b[i] else 0))
    else if t == 8 then if e - i == UUID_BIN_SIZE then Ok(Uuid(b[i..e])) else Bad
    else Bad
  }

  /** Where the name of the field at i starts and where its content starts and ends; Bad if
      they do not fit before e. */
  function FieldAt(b: Bytes, i: nat, e: nat): (r: Result<(nat, nat, nat)>)
    requires i + 2 < e <= |b|
    ensures r.Ok? ==> i + 2 < r.value.0 <= r.value.1 <= r.value.2 <= e
  {
    var (len, p) := GetLength(b, i + 2, e, 0);
    if e - p < b[i + 1] + len then Bad else Ok((p, p + b[i + 1], p + b[i + 1] + len))
  }

  /** A field in front of what follows it, if both are accepted. */
  function FieldThen(name: Bytes, v: Result<Value>, next: Result<Message>): Result<Message> {
    if v.Ok? && next.Ok? then Ok(Field(CString(name), v.value, next.value)) else Bad
  }

  /** htsmsg_binary2_des0 on the bytes from i to e. */
  function Decode(b: Bytes, i: nat, e: nat): Result<Message>
    requires i <= e <= |b|
    decreases e - i, 0
  {
    if e - i <= 2 then (if i == e then Ok(End) else Bad)
    else match FieldAt(b, i, e)
      case Bad => Bad
      case Ok((p, c, n)) => FieldThen(b[p..c], DecodeValue(b[i], b, c, n), Decode(b, n, e))
  }

  // ---------------------------------------------------------------- round trip

  /** The message with every truth value made 0 or 1, as htsmsg_add_bool stores it. */
  function PlainValue(v: Value): Value {
    match v
    case Map(m) => Map(Plain(m))
    case List(m) => List(Plain(m))
    case Bool(b) => Bool(if b != 0 then 1 else 0)
    case S64(_) => v
    case Str(_) => v
    case Bin(_) => v
    case Uuid(_) => v
  }

  function Plain(m: Message): Message {
    match m
    case End => End
    case Field(name, value, next) => Field(name, PlainValue(value), Plain(next))
  }

  lemma {:induction false} NumberRead(u: nat, b: Bytes, i: nat, e: nat)
    requires u < TWO_64 && i <= e <= |b| && b[i..e] == NumberBytes(u)
    ensures Gathered(b, i, e) == u
    decreases u
  {
    if u > 0 {
      assert b[i] == b[i..e][0];
      assert b[i + 1..e] == b[i..e][1..] == NumberBytes(u / 0x100);
      NumberRead(u / 0x100, b, i + 1, e);
    }
  }

  lemma {:induction false} SignedUnsigned(n: int)
    requires -TWO_63 <= n < TWO_63
    ensures Unsigned(n) < TWO_64 && Signed(Unsigned(n)) == n
  {
  }

  lemma {:induction false} Split(b: Bytes, i: nat, e: nat, x: Bytes, y: Bytes)
    requires i <= e <= |b| && b[i..e] == x + y
    ensures i + |x| <= e && b[i..i + |x|] == x && b[i + |x|..e] == y
  {
    assert b[i..i + |x|] == b[i..e][..|x|];
    assert b[i + |x|..e] == b[i..e][|x|..];
  }

  /** A header that was written is found again. */
  lemma {:induction false} HeaderFound(t: Byte, name: Bytes, len: nat, b: Bytes, i: nat, e: nat)
    requires |name| < 256 && len < TWO_32
    requires i + |Header(t, name, len)| + len <= e <= |b|
    requires b[i..i + |Header(t, name, len)|] == Header(t, name, len)
    ensures var c := i + |Header(t, name, len)|;
      && i + 2 < e && b[i] == t && FieldAt(b, i, e) == Ok((c - |name|, c, c + len)) && b[c - |name|..c] == name
  {
    var (l, c) := (SetLength(len), i + |Header(t, name, len)|);
    Split(b, i, c, [t, |name|] + l, name);
    Split(b, i, c - |name|, [t, |name|], l);
    assert b[i] == b[i..i + 2][0] && b[i + 1] == b[i..i + 2][1];
    LengthRoundTrip(len, b, i + 2, e);
  }

  lemma {:induction false} ValueRoundTrip(v: Value, b: Bytes, i: nat, e: nat)
    requires WellFormedValue(v) && i <= e <= |b| && e - i < TWO_31 && b[i..e] == Content(v)
    ensures DecodeValue(TypeOf(v), b, i, e) == Ok(PlainValue(v))
    decreases v, 1
  {
    match v
    case Map(m) => RoundTripAt(m, b, i, e);
    case List(m) => RoundTripAt(m, b, i, e);
    case Str(s) => CStringWhole(s);
    case S64(n) =>
      SignedUnsigned(n);
      NumberRead(Unsigned(n), b, i, e);
    case Bool(f) => assert f != 0 ==> b[i] == b[i..e][0];
    case Bin(_) =>
    case Uuid(_) =>
  }

  /** A field that was written, by its parts. */
  lemma {:induction false} FieldFound(t: Byte, name: Bytes, content: Bytes, rest: Bytes, b: Bytes, i: nat, e: nat)
    requires |name| < 256 && |content| < TWO_32 && i <= e <= |b|
    requires b[i..e] == Header(t, name, |content|) + content + rest
    ensures var c := i + |Header(t, name, |content|)|; var n := c + |content|;
      && i + 2 < c && n <= e && b[i] == t && FieldAt(b, i, e) == Ok((c - |name|, c, n))
      && b[c - |name|..c] == name && b[c..n] == content && b[n..e] == rest
  {
    var header := Header(t, name, |content|);
    Split(b, i, e, header + content, rest);
    Split(b, i, i + |header + content|, header, content);
    HeaderFound(t, name, |content|, b, i, e);
  }

  lemma {:induction false} PartsAt(m: Message, b: Bytes, i: nat, e: nat)
    requires WellFormed(m) && m.Field? && i <= e <= |b| && e - i < TWO_32 && b[i..e] == Encode(m)
    ensures i + 2 < e && FieldAt(b, i, e).Ok? && b[i] == TypeOf(m.value)
    ensures var (p, c, n) := FieldAt(b, i, e).value;
      b[p..c] == m.name && b[c..n] == Content(m.value) && b[n..e] == Encode(m.next)
  {
    var content := Content(m.value);
    FieldFound(TypeOf(m.value), m.name, content, Encode(m.next), b, i, e);
  }

  lemma {:induction false} DecodedField(b: Bytes, i: nat, e: nat, v: Value, next: Message)
    requires i + 2 < e <= |b| && FieldAt(b, i, e).Ok?
    requires var (p, c, n) := FieldAt(b, i, e).value; DecodeValue(b[i], b, c, n) == Ok(v) && Decode(b, n, e) == Ok(next)
    ensures var (p, c, n) := FieldAt(b, i, e).value; Decode(b, i, e) == Ok(Field(CString(b[p..c]), v, next))
  {
  }

  lemma {:induction false} RoundTripAt(m: Message, b: Bytes, i: nat, e: nat)
    requires WellFormed(m) && i <= e <= |b| && e - i < TWO_31 && b[i..e] == Encode(m)
    ensures Decode(b, i, e) == Ok(Plain(m))
    decreases m, 0
  {
    if m.Field? {
      PartsAt(m, b, i, e);
      var (_, c, n) := FieldAt(b, i, e).value;
      ValueRoundTrip(m.value, b, c, n);
      RoundTripAt(m.next, b, n, e);
      DecodedField(b, i, e, PlainValue(m.value), Plain(m.next));
      CStringWhole(m.name);
    }
  }

  /** Reading what was written gives the message back, its truth values as 0 or 1. */
  lemma {:induction false} RoundTrip(m: Message)
    requires WellFormed(m) && |Encode(m)| < TWO_31
    ensures Decode(Encode(m), 0, |Encode(m)|) == Ok(Plain(m))
  {
    RoundTripAt(m, Encode(m), 0, |Encode(m)|);
  }

  /** What is read back is written as the same bytes. */
  lemma {:induction false} PlainIsWrittenTheSame(m: Message)
    requires WellFormed(m)
    ensures WellFormed(Plain(m)) && Encode(Plain(m)) == Encode(m)
  {
    if m.Field? {
      PlainIsWrittenTheSame(m.next);
      match m.value
      case Map(sub) => PlainIsWrittenTheSame(sub);
      case List(sub) => PlainIsWrittenTheSame(sub);
      case _ =>
    }
  }

  // ---------------------------------------------------------------- any accepted bytes

  lemma {:induction false} SignedInRange(u: nat)
    requires u < TWO_64
    ensures -TWO_63 <= Signed(u) < TWO_63 && Unsigned(Signed(u)) == u
  {
  }

  function Power(k: nat): (r: nat)
    ensures 0 < r
  {
    if k == 0 then 1 else 0x100 * Power(k - 1)
  }

  lemma {:induction false} NumberBytesUpTo(u: nat, k: nat)
    requires u < Power(k)
    ensures |NumberBytes(u)| <= k
  {
    if u > 0 {
      NumberBytesUpTo(u / 0x100, k - 1);
    }
  }

  lemma {:induction false} GatheredBelow(b: Bytes, i: nat, e: nat)
    requires i <= e <= |b|
    ensures Gathered(b, i, e) < Power(e - i)
    decreases e - i
  {
    if i < e {
      GatheredBelow(b, i + 1, e);
    }
  }

  lemma {:induction false} NumberIsShort(b: Bytes, i: nat, e: nat)
    requires i <= e <= |b|
    ensures |NumberBytes(NumberOf(b, i, e))| <= e - i
  {
    if e - i <= TWO_31 {
      GatheredBelow(b, i, e);
      NumberBytesUpTo(NumberOf(b, i, e), e - i);
    }
  }

  lemma {:induction false} AcceptedValue(t: Byte, b: Bytes, i: nat, e: nat)
    requires i <= e <= |b| && DecodeValue(t, b, i, e).Ok?
    ensures var v := DecodeValue(t, b, i, e).value;
      TypeOf(v) == t && WellFormedValue(v) && |Content(v)| <= e - i
    decreases e - i, 1
  {
    if t == 1 || t == 5 {
      AcceptedIsNoLonger(b, i, e);
    } else if t == 2 {
      SignedInRange(NumberOf(b, i, e));
      NumberIsShort(b, i, e);
    } else if t == 3 {
      CStringEnds(b[i..e]);
    }
  }

  lemma {:induction false} HeaderIsNoLonger(t: Byte, b: Bytes, i: nat, e: nat, len: nat)
    requires i + 2 < e <= |b| && FieldAt(b, i, e).Ok?
    requires len <= FieldAt(b, i, e).value.2 - FieldAt(b, i, e).value.1
    ensures var (p, c, _) := FieldAt(b, i, e).value;
      c - p < 256 && |Header(t, b[p..c], len)| <= c - i && |Header(t, CString(b[p..c]), len)| <= c - i
  {
    var (p, c, n) := FieldAt(b, i, e).value;
    LengthIsShort(b, i + 2, e, 0, 0);
    ShorterLength(len, n - c);
  }

  /** Whatever bytes are accepted, the message read is well-formed and is written in at most
      as many. */
  lemma {:induction false} AcceptedIsNoLonger(b: Bytes, i: nat, e: nat)
    requires i <= e <= |b| && Decode(b, i, e).Ok?
    ensures WellFormed(Decode(b, i, e).value) && |Encode(Decode(b, i, e).value)| <= e - i
    decreases e - i, 0
  {
    if e - i > 2 {
      var (p, c, n) := FieldAt(b, i, e).value;
      AcceptedValue(b[i], b, c, n);
      AcceptedIsNoLonger(b, n, e);
      CStringEnds(b[p..c]);
      HeaderIsNoLonger(b[i], b, i, e, |Content(DecodeValue(b[i], b, c, n).value)|);
    }
  }

  /** So writing what was read and reading it again settles at once. */
  lemma {:induction false} ReadWriteRead(b: Bytes)
    requires Decode(b, 0, |b|).Ok? && |b| < TWO_31
    ensures var m := Decode(b, 0, |b|).value;
      WellFormed(m) && Decode(Encode(m), 0, |Encode(m)|) == Ok(Plain(m))
  {
    AcceptedIsNoLonger(b, 0, |b|);
    RoundTrip(Decode(b, 0, |b|).value);
  }
}
