/** The escapers of src/htsbuf.c: JSON string literals and HTTP header values. */
module Escape {
  import opened Wrappers

  /** The escaped form of the bytes from i on. */
  function Escaped(esc: Byte -> Bytes, s: Bytes, i: nat): Bytes
    requires i <= |s|
    decreases |s| - i
  {
    if i == |s| then [] else esc(s[i]) + Escaped(esc, s, i + 1)
  }

  function Digit(d: nat, ten: Byte): Byte
    requires d < 16 && ten <= 0xF0
  {
    if d < 10 then 0x30 + d else ten + (d - 10)
  }

  function Then(x: Bytes, rest: Option<Bytes>): Option<Bytes> {
    if rest.Some? then Some(x + rest.value) else None
  }

  lemma {:induction false} Stands(b: Bytes, p: nat, e: Bytes)
    requires p + |e| <= |b| && b[p..p + |e|] == e
    ensures forall k :: p <= k < p + |e| ==> b[k] == e[k - p]
  {
    forall k | p <= k < p + |e| ensures b[k] == e[k - p] {
      assert b[k] == b[p..p + |e|][k - p];
    }
  }

  /** The bytes e stand at p, and behind them comes the rest. */
  lemma {:induction false} Parts(b: Bytes, p: nat, e: Bytes, rest: Bytes)
    requires p <= |b| && b[p..] == e + rest
    ensures p + |e| <= |b| && b[p..p + |e|] == e && b[p + |e|..] == rest
  {
    assert b[p..p + |e|] == b[p..][..|e|];
    assert b[p + |e|..] == b[p..][|e|..];
  }

  lemma {:induction false} NextEscaped(esc: Byte -> Bytes, s: Bytes, i: nat, tail: Bytes)
    requires i < |s|
    ensures Escaped(esc, s, i) + tail == esc(s[i]) + (Escaped(esc, s, i + 1) + tail)
    ensures s[i..] == [s[i]] + s[i + 1..]
  {
  }

  lemma {:induction false} NextInRun(out: Bytes, s: Bytes, run: nat, i: nat)
    requires run <= i < |s|
    ensures out + s[run..i + 1] == out + s[run..i] + [s[i]]
  {
  }

  // ---------------------------------------------------------------- JSON

  function JsonLetter(c: Byte): Byte {
    if c == 0x08 then 0x62
    else if c == 0x0C then 0x66
    else if c == 0x0A then 0x6E
    else if c == 0x0D then 0x72
    else if c == 0x09 then 0x74
    else c
  }

  /** One byte inside a literal. */
  function JsonByte(c: Byte): Bytes {
    if c == 0x22 || c == 0x5C then [0x5C, c]
    else if c >= 0x20 then [c]
    else if JsonLetter(c) != c then [0x5C, JsonLetter(c)]
    else [0x5C, 0x75, 0x30, 0x30, Digit(c / 0x10, 0x61), Digit(c % 0x10, 0x61)]
  }

  function Json(s: Bytes): Bytes {
    [0x22] + Escaped(JsonByte, s, 0) + [0x22]
  }

  /** htsbuf_append_and_escape_jsonstr; the runs between escapes are appended in one go. */
  method EscapeJson(s: Bytes) returns (out: Bytes)
    ensures out == Json(s)
  {
    out := [0x22];
    var str, i := 0, 0;
    while i < |s|
      invariant 0 <= str <= i <= |s|
      invariant out + s[str..i] + Escaped(JsonByte, s, i) == [0x22] + Escaped(JsonByte, s, 0)
    {
      var c := s[i];
      ghost var was := out + s[str..i];
      Regroup(was, JsonByte(c), Escaped(JsonByte, s, i + 1));
      NextInRun(out, s, str, i);
      if c == 0x22 || c == 0x5C || c < 0x20 {
        out := out + s[str..i];
        if c == 0x22 || c == 0x5C {
          out := out + [0x5C, c];
        } else if JsonLetter(c) != c {
          out := out + [0x5C, JsonLetter(c)];
        } else {
          out := out + [0x5C, 0x75, 0x30, 0x30, Digit(c / 0x10, 0x61), Digit(c % 0x10, 0x61)];
        }
        i := i + 1;
        str := i;
        assert out + s[str..i] == was + JsonByte(c);
      } else {
        i := i + 1;
      }
    }
    out := out + s[str..i];
    out := out + [0x22];
  }

  function FromHex(c: Byte): Option<nat> {
    if 0x30 <= c <= 0x39 then Some(c - 0x30)
    else if 0x61 <= c <= 0x66 then Some(c - 0x61 + 10)
    else if 0x41 <= c <= 0x46 then Some(c - 0x41 + 10)
    else None
  }

  /** The UTF-8 bytes of a code unit; halves of a surrogate pair are not decoded. */
  function Utf8(code: nat): Option<Bytes>
    requires code < 0x10000
  {
    if code < 0x80 then Some([code])
    else if code < 0x800 then Some([0xC0 + code / 0x40, 0x80 + code % 0x40])
    else if 0xD800 <= code < 0xE000 then None
    else Some([0xE0 + code / 0x1000, 0x80 + code / 0x40 % 0x40, 0x80 + code % 0x40])
  }

  function HexQuad(b: Bytes, p: nat): Option<Bytes>
    requires p + 4 <= |b|
  {
    var (w, x, y, z) := (FromHex(b[p]), FromHex(b[p + 1]), FromHex(b[p + 2]), FromHex(b[p + 3]));
    if w.None? || x.None? || y.None? || z.None? then None
    else Utf8(w.value * 0x1000 + x.value * 0x100 + y.value * 0x10 + z.value)
  }

  function FromLetter(c: Byte): Option<Byte> {
    if c == 0x22 || c == 0x5C || c == 0x2F then Some(c)
    else if c == 0x62 then Some(0x08)
    else if c == 0x66 then Some(0x0C)
    else if c == 0x6E then Some(0x0A)
    else if c == 0x72 then Some(0x0D)
    else if c == 0x74 then Some(0x09)
    else None
  }

  /** The string a literal denotes by section 7 of RFC 8259, from inside the literal at p up
      to the quotation mark, which must be the last byte; None if it is not a literal. */
  function DecodeJson(b: Bytes, p: nat): Option<Bytes>
    requires p <= |b|
    decreases |b| - p
  {
    if p == |b| then None
    else if b[p] == 0x22 then (if p + 1 == |b| then Some([]) else None)
    else if b[p] < 0x20 then None
    else if b[p] != 0x5C then Then([b[p]], DecodeJson(b, p + 1))
    else if p + 6 <= |b| && b[p + 1] == 0x75 then
      (var x := HexQuad(b, p + 2); if x.None? then None else Then(x.value, DecodeJson(b, p + 6)))
    else if p + 2 <= |b| then
      (var x := FromLetter(b[p + 1]); if x.None? then None else Then([x.value], DecodeJson(b, p + 2)))
    else None
  }

  lemma {:induction false} JsonByteDecoded(c: Byte, b: Bytes, p: nat)
    requires p + |JsonByte(c)| <= |b| && b[p..p + |JsonByte(c)|] == JsonByte(c)
    ensures DecodeJson(b, p) == Then([c], DecodeJson(b, p + |JsonByte(c)|))
  {
    var e := JsonByte(c);
    Stands(b, p, e);
    if |e| == 6 {
      assert b[p] == 0x5C && b[p + 1] == 0x75 && b[p + 2] == b[p + 3] == 0x30;
      assert b[p + 4] == Digit(c / 0x10, 0x61) && b[p + 5] == Digit(c % 0x10, 0x61);
      assert HexQuad(b, p + 2) == Some([c]);
    }
  }

  lemma {:induction false} BodyDecoded(s: Bytes, i: nat, b: Bytes, p: nat)
    requires i <= |s| && p <= |b| && b[p..] == Escaped(JsonByte, s, i) + [0x22]
    ensures DecodeJson(b, p) == Some(s[i..])
    decreases |s| - i
  {
    if i == |s| {
      assert b[p] == b[p..][0];
    } else {
      var e := JsonByte(s[i]);
      NextEscaped(JsonByte, s, i, [0x22]);
      Parts(b, p, e, Escaped(JsonByte, s, i + 1) + [0x22]);
      JsonByteDecoded(s[i], b, p);
      BodyDecoded(s, i + 1, b, p + |e|);
    }
  }

  /** Every string is written as a literal that denotes it. */
  lemma {:induction false} JsonRoundTrip(s: Bytes)
    ensures Json(s)[0] == 0x22 && DecodeJson(Json(s), 1) == Some(s)
  {
    assert Json(s)[1..] == Escaped(JsonByte, s, 0) + [0x22];
    BodyDecoded(s, 0, Json(s), 1);
    assert s[0..] == s;
  }

  // ---------------------------------------------------------------- UTF-8 stays UTF-8

  predicate Trail(b: Bytes, p: nat, n: nat) {
    p + n <= |b| && forall k :: p < k < p + n ==> 0x80 <= b[k] < 0xC0
  }

  /** The length of the UTF-8 sequence at p by section 4 of RFC 3629, 0 if there is none. */
  function SequenceLength(b: Bytes, p: nat): nat
    requires p < |b|
  {
    var c := b[p];
    if c < 0x80 then 1
    else if 0xC2 <= c <= 0xDF && Trail(b, p, 2) then 2
    else if 0xE0 <= c <= 0xEF && Trail(b, p, 3)
            && (c == 0xE0 ==> 0xA0 <= b[p + 1]) && (c == 0xED ==> b[p + 1] < 0xA0) then 3
    else if 0xF0 <= c <= 0xF4 && Trail(b, p, 4)
            && (c == 0xF0 ==> 0x90 <= b[p + 1]) && (c == 0xF4 ==> b[p + 1] < 0x90) then 4
    else 0
  }

  predicate IsUtf8(b: Bytes, p: nat)
    requires p <= |b|
    decreases |b| - p
  {
    p == |b| || (SequenceLength(b, p) > 0 && IsUtf8(b, p + SequenceLength(b, p)))
  }

  lemma {:induction false} AsciiFirst(b: Bytes, p: nat, n: nat)
    requires p + n <= |b| && IsUtf8(b, p + n) && forall k :: p <= k < p + n ==> b[k] < 0x80
    ensures IsUtf8(b, p)
    decreases n
  {
    if n > 0 {
      AsciiFirst(b, p + 1, n - 1);
    }
  }

  lemma {:induction false} FirstOfRun(s: Bytes, i: nat, n: nat)
    requires 0 < n && i + n <= |s|
    ensures s[i..i + n] == [s[i]] + s[i + 1..i + n]
  {
  }

  /** A run of bytes that are not escaped. */
  lemma {:induction false} RunIsPlain(esc: Byte -> Bytes, s: Bytes, i: nat, n: nat)
    requires i + n <= |s| && forall k :: i <= k < i + n ==> esc(s[k]) == [s[k]]
    ensures Escaped(esc, s, i) == s[i..i + n] + Escaped(esc, s, i + n)
    decreases n
  {
    if n > 0 {
      RunIsPlain(esc, s, i + 1, n - 1);
      FirstOfRun(s, i, n);
      Regroup([s[i]], s[i + 1..i + n], Escaped(esc, s, i + n));
    }
  }

  lemma {:induction false} SameSequence(s: Bytes, i: nat, b: Bytes, p: nat)
    requires i < |s| && p < |b| && SequenceLength(s, i) > 0
    requires p + SequenceLength(s, i) <= |b| && s[i..i + SequenceLength(s, i)] == b[p..p + SequenceLength(s, i)]
    ensures SequenceLength(b, p) == SequenceLength(s, i)
  {
    var n := SequenceLength(s, i);
    var e := s[i..i + n];
    Stands(s, i, e);
    Stands(b, p, e);
    assert e[0] == s[i] == b[p];
    if n > 1 {
      assert e[1] == s[i + 1] == b[p + 1];
    }
    forall k | p < k < p + n ensures 0x80 <= b[k] < 0xC0 {
      assert b[k] == e[k - p] == s[i + (k - p)];
    }
  }

  lemma {:induction false} AsciiIsUtf8(s: Bytes, i: nat, b: Bytes, p: nat)
    requires i < |s| && s[i] < 0x80 && p + |JsonByte(s[i])| <= |b|
    requires b[p..p + |JsonByte(s[i])|] == JsonByte(s[i]) && IsUtf8(b, p + |JsonByte(s[i])|)
    ensures IsUtf8(b, p)
  {
    Stands(b, p, JsonByte(s[i]));
    AsciiFirst(b, p, |JsonByte(s[i])|);
  }

  lemma {:induction false} LongIsUtf8(s: Bytes, i: nat, b: Bytes, p: nat)
    requires i < |s| && p < |b| && SequenceLength(s, i) > 0
    requires p + SequenceLength(s, i) <= |b| && s[i..i + SequenceLength(s, i)] == b[p..p + SequenceLength(s, i)]
    requires IsUtf8(b, p + SequenceLength(s, i))
    ensures IsUtf8(b, p)
  {
    SameSequence(s, i, b, p);
  }

  lemma {:induction false} LongParts(s: Bytes, i: nat, b: Bytes, p: nat)
    requires i < |s| && s[i] >= 0x80 && SequenceLength(s, i) > 0
    requires p <= |b| && b[p..] == Escaped(JsonByte, s, i) + [0x22]
    ensures var n := SequenceLength(s, i);
      p + n <= |b| && b[p..p + n] == s[i..i + n] && b[p + n..] == Escaped(JsonByte, s, i + n) + [0x22]
  {
    var n := SequenceLength(s, i);
    RunIsPlain(JsonByte, s, i, n);
    Regroup(s[i..i + n], Escaped(JsonByte, s, i + n), [0x22]);
    Parts(b, p, s[i..i + n], Escaped(JsonByte, s, i + n) + [0x22]);
  }

  /** The sequence at i has been written as the bytes from p to q. */
  ghost predicate Written(s: Bytes, i: nat, b: Bytes, p: nat, q: nat)
    requires i < |s| && i + SequenceLength(s, i) <= |s|
  {
    && p <= q <= |b|
    && b[q..] == Escaped(JsonByte, s, i + SequenceLength(s, i)) + [0x22]
    && (IsUtf8(b, q) ==> IsUtf8(b, p))
  }

  lemma {:induction false} AsciiWritten(s: Bytes, i: nat, b: Bytes, p: nat) returns (q: nat)
    requires i < |s| && s[i] < 0x80 && p <= |b| && b[p..] == Escaped(JsonByte, s, i) + [0x22]
    ensures Written(s, i, b, p, q)
  {
    q := p + |JsonByte(s[i])|;
    NextEscaped(JsonByte, s, i, [0x22]);
    Parts(b, p, JsonByte(s[i]), Escaped(JsonByte, s, i + 1) + [0x22]);
    if IsUtf8(b, q) {
      AsciiIsUtf8(s, i, b, p);
    }
  }

  lemma {:induction false} LongWritten(s: Bytes, i: nat, b: Bytes, p: nat) returns (q: nat)
    requires i < |s| && s[i] >= 0x80 && SequenceLength(s, i) > 0
    requires p <= |b| && b[p..] == Escaped(JsonByte, s, i) + [0x22]
    ensures Written(s, i, b, p, q)
  {
    q := p + SequenceLength(s, i);
    LongParts(s, i, b, p);
    if IsUtf8(b, q) {
      LongIsUtf8(s, i, b, p);
    }
  }

  lemma {:induction false} BodyIsUtf8(s: Bytes, i: nat, b: Bytes, p: nat)
    requires i <= |s| && p <= |b| && IsUtf8(s, i) && b[p..] == Escaped(JsonByte, s, i) + [0x22]
    ensures IsUtf8(b, p)
    decreases |s| - i
  {
    if i == |s| {
      assert b[p] == b[p..][0] && p + 1 == |b|;
    } else {
      var q;
      if s[i] < 0x80 {
        q := AsciiWritten(s, i, b, p);
      } else {
        q := LongWritten(s, i, b, p);
      }
      BodyIsUtf8(s, i + SequenceLength(s, i), b, q);
    }
  }

  /** The literal of a UTF-8 string is UTF-8. */
  lemma {:induction false} JsonIsUtf8(s: Bytes)
    requires IsUtf8(s, 0)
    ensures IsUtf8(Json(s), 0)
  {
    assert Json(s)[1..] == Escaped(JsonByte, s, 0) + [0x22];
    BodyIsUtf8(s, 0, Json(s), 1);
  }

  // ---------------------------------------------------------------- RFC 8187

  /** attr-char of section 3.2.1 of RFC 8187. */
  predicate AttrChar(c: Byte) {
    || 0x30 <= c <= 0x39 || 0x61 <= c <= 0x7A || 0x41 <= c <= 0x5A
    || c in {0x21, 0x23, 0x24, 0x26, 0x2B, 0x2D, 0x2E, 0x5E, 0x5F, 0x60, 0x7C, 0x7E}
  }

  function HeaderByte(c: Byte): Bytes {
    if AttrChar(c) then [c] else [0x25, Digit(c / 0x10, 0x41), Digit(c % 0x10, 0x41)]
  }

  /** htsbuf_append_and_escape_rfc8187. */
  method EscapeHeader(s: Bytes) returns (out: Bytes)
    ensures out == Escaped(HeaderByte, s, 0)
  {
    out := [];
    if s == [] {
      return;
    }
    var run, i := 0, 0;
    while i < |s|
      invariant 0 <= run <= i <= |s|
      invariant out + s[run..i] + Escaped(HeaderByte, s, i) == Escaped(HeaderByte, s, 0)
    {
      var c := s[i];
      ghost var was := out + s[run..i];
      Regroup(was, HeaderByte(c), Escaped(HeaderByte, s, i + 1));
      NextInRun(out, s, run, i);
      i := i + 1;
      if !AttrChar(c) {
        out := out + s[run..i - 1];
        out := out + [0x25, Digit(c / 0x10, 0x41), Digit(c % 0x10, 0x41)];
        run := i;
        assert out + s[run..i] == was + HeaderByte(c);
      }
    }
    out := out + s[run..i];
  }

  /** ext-value characters: attr-char and pct-encoded, with upper-case digits; decoded. */
  function DecodeHeader(b: Bytes, p: nat): Option<Bytes>
    requires p <= |b|
    decreases |b| - p
  {
    if p == |b| then Some([])
    else if AttrChar(b[p]) then Then([b[p]], DecodeHeader(b, p + 1))
    else if b[p] == 0x25 && p + 3 <= |b| && UpperHex(b[p + 1]) && UpperHex(b[p + 2]) then
      Then([FromHex(b[p + 1]).value * 0x10 + FromHex(b[p + 2]).value], DecodeHeader(b, p + 3))
    else None
  }

  predicate UpperHex(c: Byte) {
    0x30 <= c <= 0x39 || 0x41 <= c <= 0x46
  }

  lemma {:induction false} HeaderByteDecoded(c: Byte, b: Bytes, p: nat)
    requires p + |HeaderByte(c)| <= |b| && b[p..p + |HeaderByte(c)|] == HeaderByte(c)
    ensures DecodeHeader(b, p) == Then([c], DecodeHeader(b, p + |HeaderByte(c)|))
  {
    Stands(b, p, HeaderByte(c));
    if !AttrChar(c) {
      assert b[p] == 0x25 && b[p + 1] == Digit(c / 0x10, 0x41) && b[p + 2] == Digit(c % 0x10, 0x41);
      assert FromHex(b[p + 1]) == Some(c / 0x10) && FromHex(b[p + 2]) == Some(c % 0x10);
    }
  }

  lemma {:induction false} HeaderDecoded(s: Bytes, i: nat, b: Bytes, p: nat)
    requires i <= |s| && p <= |b| && b[p..] == Escaped(HeaderByte, s, i)
    ensures DecodeHeader(b, p) == Some(s[i..])
    decreases |s| - i
  {
    if i < |s| {
      var e := HeaderByte(s[i]);
      assert s[i..] == [s[i]] + s[i + 1..];
      Parts(b, p, e, Escaped(HeaderByte, s, i + 1));
      HeaderByteDecoded(s[i], b, p);
      HeaderDecoded(s, i + 1, b, p + |e|);
    } else {
      assert |b[p..]| == 0 && s[i..] == [];
    }
  }

  /** The header form consists of attr-char and %XX only and decodes to the string. */
  lemma {:induction false} HeaderRoundTrip(s: Bytes)
    ensures DecodeHeader(Escaped(HeaderByte, s, 0), 0) == Some(s)
  {
    var b := Escaped(HeaderByte, s, 0);
    assert b[0..] == b && s[0..] == s;
    HeaderDecoded(s, 0, b, 0);
  }
}
