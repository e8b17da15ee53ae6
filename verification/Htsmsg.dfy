/** Message trees (src/htsmsg.h, src/htsmsg.c) and their comparison. */
module Htsmsg {
  import opened Wrappers

  const TWO_31: int := 0x8000_0000
  const TWO_32: int := 0x1_0000_0000
  const TWO_63: int := 0x8000_0000_0000_0000
  const TWO_64: int := 0x1_0000_0000_0000_0000
  const UUID_BIN_SIZE: nat := 16

  /** The type and content of a field.  A text is the bytes before its terminating NUL if it
      has one; a truth value is a C int. */
  datatype Value =
    | Map(msg: Message)
    | S64(number: int)
    | Str(text: Bytes)
    | Bin(data: Bytes)
    | List(msg: Message)
    | Bool(flag: int)
    | Uuid(id: Bytes)

  /** A message is the linked list of its fields; a field without a name has the empty name. */
  datatype Message = End | Field(name: Bytes, value: Value, next: Message)

  /** The first NUL from i on, or the end. */
  function NulAt(b: Bytes, i: nat): (n: nat)
    requires i <= |b|
    ensures i <= n <= |b|
    decreases |b| - i
  {
    if i == |b| || b[i] == 0 then i else NulAt(b, i + 1)
  }

  /** The bytes before the first NUL, all of them if there is none. */
  function CString(b: Bytes): Bytes {
    b[..NulAt(b, 0)]
  }

  lemma {:induction false} NulIsFirst(b: Bytes, i: nat)
    requires i <= |b|
    ensures 0 !in b[i..NulAt(b, i)] && (NulAt(b, i) < |b| ==> b[NulAt(b, i)] == 0)
    decreases |b| - i
  {
    if i < |b| && b[i] != 0 {
      NulIsFirst(b, i + 1);
      assert b[i..NulAt(b, i)] == [b[i]] + b[i + 1..NulAt(b, i)];
    }
  }

  lemma {:induction false} CStringEnds(b: Bytes)
    ensures 0 !in CString(b)
  {
    NulIsFirst(b, 0);
  }

  lemma {:induction false} CStringWhole(b: Bytes)
    requires 0 !in b
    ensures CString(b) == b
  {
    NulIsFirst(b, 0);
  }

  function Concat(m: Message, n: Message): Message {
    match m
    case End => n
    case Field(name, value, next) => Field(name, value, Concat(next, n))
  }

  lemma {:induction false} ConcatAssociates(a: Message, b: Message, c: Message)
    ensures Concat(Concat(a, b), c) == Concat(a, Concat(b, c))
  {
    if a.Field? {
      ConcatAssociates(a.next, b, c);
    }
  }

  lemma {:induction false} ConcatEnd(a: Message)
    ensures Concat(a, End) == a
  {
    if a.Field? {
      ConcatEnd(a.next);
    }
  }

  /** What htsmsg_add_* can build: 64-bit numbers, texts and names without NUL, names of at
      most 255 bytes, UUIDs of 16 bytes. */
  predicate WellFormedValue(v: Value) {
    match v
    case Map(m) => WellFormed(m)
    case List(m) => WellFormed(m)
    case S64(n) => -TWO_63 <= n < TWO_63
    case Str(s) => 0 !in s
    case Uuid(id) => |id| == UUID_BIN_SIZE
    case Bin(_) => true
    case Bool(_) => true
  }

  predicate WellFormed(m: Message) {
    m.Field? ==> |m.name| < 256 && 0 !in m.name && WellFormedValue(m.value) && WellFormed(m.next)
  }

  // ---------------------------------------------------------------- comparison

  function TypeOf(v: Value): Byte {
    match v
    case Map(_) => 1
    case S64(_) => 2
    case Str(_) => 3
    case Bin(_) => 4
    case List(_) => 5
    case Bool(_) => 7
    case Uuid(_) => 8
  }

  /** What the comparison looks at: everything but the content of a UUID. */
  function SeenValue(v: Value): Value {
    match v
    case Map(m) => Map(Seen(m))
    case List(m) => List(Seen(m))
    case Str(s) => Str(CString(s))
    case Uuid(_) => Uuid([])
    case S64(_) => v
    case Bin(_) => v
    case Bool(_) => v
  }

  function Seen(m: Message): Message {
    match m
    case End => End
    case Field(name, value, next) => Field(CString(name), SeenValue(value), Seen(next))
  }

  /** htsmsg_cmp: 0 exactly when nothing it looks at differs. */
  method Compare(m1: Message, m2: Message) returns (r: int)
    ensures r == (if Seen(m1) == Seen(m2) then 0 else 1)
    decreases m1
  {
    var f1, f2 := m1, m2;
    while f1.Field?
      invariant Seen(m1) == Seen(m2) <==> Seen(f1) == Seen(f2)
      invariant f1 == m1 || f1 < m1
      decreases f1
    {
      if f2.End? || TypeOf(f1.value) != TypeOf(f2.value) {
        return 1;
      }
      if CString(f1.name) != CString(f2.name) {
        return 1;
      }
      var differ := CompareValue(f1.value, f2.value);
      if differ {
        return 1;
      }
      f1, f2 := f1.next, f2.next;
    }
    r := if f2.Field? then 1 else 0;
  }

  /** The switch of htsmsg_cmp; it has no case for a UUID. */
  method CompareValue(v1: Value, v2: Value) returns (differ: bool)
    requires TypeOf(v1) == TypeOf(v2)
    ensures differ <==> SeenValue(v1) != SeenValue(v2)
    decreases v1
  {
    match v1
    case Map(m) =>
      var r := Compare(m, v2.msg);
      differ := r != 0;
    case List(m) =>
      var r := Compare(m, v2.msg);
      differ := r != 0;
    case Str(s) => differ := CString(s) != CString(v2.text);
    case S64(n) => differ := n != v2.number;
    case Bool(b) => differ := b != v2.flag;
    case Bin(d) => differ := |d| != |v2.data| || d != v2.data;
    case Uuid(_) => differ := false;
  }

  predicate HasUuid(m: Message) {
    m.Field? && ((match m.value
                  case Map(sub) => HasUuid(sub)
                  case List(sub) => HasUuid(sub)
                  case Uuid(_) => true
                  case _ => false) || HasUuid(m.next))
  }

  lemma {:induction false} SeenWithoutUuid(m: Message)
    requires WellFormed(m) && !HasUuid(m)
    ensures Seen(m) == m
  {
    if m.Field? {
      CStringWhole(m.name);
      SeenWithoutUuid(m.next);
      match m.value
      case Map(sub) => SeenWithoutUuid(sub);
      case List(sub) => SeenWithoutUuid(sub);
      case Str(s) => CStringWhole(s);
      case _ =>
    }
  }

  lemma {:induction false} SeenKeepsUuids(m: Message)
    ensures HasUuid(Seen(m)) <==> HasUuid(m)
  {
    if m.Field? {
      SeenKeepsUuids(m.next);
      match m.value
      case Map(sub) => SeenKeepsUuids(sub);
      case List(sub) => SeenKeepsUuids(sub);
      case _ =>
    }
  }

  /** The same message with the first byte of every UUID changed. */
  function Altered(m: Message): Message {
    match m
    case End => End
    case Field(name, value, next) =>
      var v := match value
        case Map(sub) => Map(Altered(sub))
        case List(sub) => List(Altered(sub))
        case Uuid(id) => if id == [] then value else Uuid([if id[0] == 0 then 1 else 0] + id[1..])
        case _ => value;
      Field(name, v, Altered(next))
  }

  lemma {:induction false} AlteredLooksTheSame(m: Message)
    requires WellFormed(m)
    ensures WellFormed(Altered(m)) && Seen(Altered(m)) == Seen(m)
    ensures HasUuid(m) ==> Altered(m) != m
  {
    if m.Field? {
      AlteredLooksTheSame(m.next);
      match m.value
      case Map(sub) => AlteredLooksTheSame(sub);
      case List(sub) => AlteredLooksTheSame(sub);
      case Uuid(id) => assert ([if id[0] == 0 then 1 else 0] + id[1..])[0] != id[0];
      case _ =>
    }
  }

  /** Comparing equal means being equal exactly for the messages without a UUID: whatever
      has one compares equal to some other message. */
  lemma {:induction false} ComparisonIsEqualityIff(m: Message)
    requires WellFormed(m)
    ensures !HasUuid(m) <==> forall n :: WellFormed(n) && Seen(n) == Seen(m) ==> n == m
  {
    if HasUuid(m) {
      AlteredLooksTheSame(m);
    } else {
      SeenWithoutUuid(m);
      forall n | WellFormed(n) && Seen(n) == Seen(m) ensures n == m {
        SeenKeepsUuids(n);
        SeenWithoutUuid(n);
      }
    }
  }
}
