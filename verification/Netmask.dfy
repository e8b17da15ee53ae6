/** Address prefixes (netmask_verify and the masks of access_set_prefix in src/access.c). */
module Netmask {
  import opened Wrappers

  type Addr4 = x: int | 0 <= x < 0x1_0000_0000
  type Addr6 = b: seq<Byte> | |b| == 16 witness [0, 0, 0, 0, 0, 0, 0, 0, 0, 0, 0, 0, 0, 0, 0, 0]

  datatype Source = In4(addr: Addr4) | In6(ip6: Addr6)

  /** An entry of the list; `network` has been masked when it was made. */
  datatype Entry = Net4(network: Addr4, prefixlen: nat) | Net6(net6: Addr6, prefix: int)

  /** x shifted right by k bits. */
  function Top(x: nat, k: nat): nat {
    if k == 0 then x else Top(x / 2, k - 1)
  }

  /** x with its low k bits cleared: x & (~0 << k). */
  function Cleared(x: nat, k: nat): (r: nat)
    ensures r <= x
  {
    if k == 0 then x else 2 * Cleared(x / 2, k - 1)
  }

  /** access_set_prefix for an IPv4 address. */
  function MakeNet4(addr: Addr4, prefixlen: nat): (e: Entry)
    requires prefixlen <= 32
    ensures e.Net4? && e.network <= addr
  {
    Net4(Cleared(addr, 32 - prefixlen), prefixlen)
  }

  // ---------------------------------------------------------------- bits

  /** The n low bits of x, the highest first. */
  function Bits(x: nat, n: nat): (b: seq<bool>)
    ensures |b| == n
  {
    if n == 0 then [] else Bits(x / 2, n - 1) + [x % 2 == 1]
  }

  function Bits6(b: seq<Byte>): (r: seq<bool>)
    ensures |r| == 8 * |b|
  {
    if b == [] then [] else Bits(b[0], 8) + Bits6(b[1..])
  }

  /** The bits of a source and of an entry agree on the entry's prefix. */
  predicate Agrees(x: seq<bool>, y: seq<bool>, p: nat) {
    p <= |x| && p <= |y| && x[..p] == y[..p]
  }

  lemma {:induction false} BitsOfTop(x: nat, n: nat, p: nat)
    requires p <= n
    ensures Bits(x, n)[..p] == Bits(Top(x, n - p), p)
  {
    if p < n {
      BitsOfTop(x / 2, n - 1, p);
    }
  }

  lemma {:induction false} SameBits(x: nat, y: nat, n: nat)
    requires Top(x, n) == 0 && Top(y, n) == 0
    ensures Bits(x, n) == Bits(y, n) <==> x == y
  {
    if n > 0 {
      SameBits(x / 2, y / 2, n - 1);
      if Bits(x, n) == Bits(y, n) {
        assert Bits(x, n)[..n - 1] == Bits(x / 2, n - 1) && Bits(y, n)[..n - 1] == Bits(y / 2, n - 1);
        assert Bits(x, n)[n - 1] == Bits(y, n)[n - 1];
      }
    }
  }

  lemma {:induction false} SameCleared(x: nat, y: nat, k: nat)
    ensures Cleared(x, k) == Cleared(y, k) <==> Top(x, k) == Top(y, k)
  {
    if k > 0 {
      SameCleared(x / 2, y / 2, k - 1);
    }
  }

  lemma {:induction false} ClearedTwice(x: nat, k: nat)
    ensures Cleared(Cleared(x, k), k) == Cleared(x, k)
  {
    if k > 0 {
      var half := Cleared(x / 2, k - 1);
      assert Cleared(x, k) / 2 == half;
      ClearedTwice(x / 2, k - 1);
    }
  }

  lemma {:induction false} TopTwice(x: nat, j: nat, k: nat)
    ensures Top(Top(x, j), k) == Top(x, j + k)
  {
    if j > 0 {
      TopTwice(x / 2, j - 1, k);
    }
  }

  /** Comparing under the mask is comparing the first p bits. */
  lemma {:induction false} MaskIsPrefix(x: nat, y: nat, n: nat, p: nat)
    requires p <= n && Top(x, n) == 0 && Top(y, n) == 0
    ensures Cleared(x, n - p) == Cleared(y, n - p) <==> Agrees(Bits(x, n), Bits(y, n), p)
  {
    BitsOfTop(x, n, p);
    BitsOfTop(y, n, p);
    TopTwice(x, n - p, p);
    TopTwice(y, n - p, p);
    SameBits(Top(x, n - p), Top(y, n - p), p);
    SameCleared(x, y, n - p);
  }

  lemma {:induction false} Fits4(x: Addr4)
    ensures Top(x, 32) == 0
  {
    TopTwice(x, 16, 16);
    Halves16(x);
    Halves16(x / 0x1_0000);
  }

  lemma {:induction false} Halves16(x: nat)
    ensures Top(x, 16) == x / 0x1_0000
  {
    TopTwice(x, 8, 8);
    Halves8(x);
    Halves8(x / 0x100);
  }

  lemma {:induction false} Halves8(x: nat)
    ensures Top(x, 8) == x / 0x100
  {
    TopTwice(x, 4, 4);
    Halves4(x);
    Halves4(x / 0x10);
  }

  lemma {:induction false} Halves4(x: nat)
    ensures Top(x, 4) == x / 0x10
  {
    TopTwice(x, 2, 2);
    Halves2(x);
    Halves2(x / 4);
  }

  lemma {:induction false} Halves2(x: nat)
    ensures Top(x, 2) == x / 4
  {
    TopTwice(x, 1, 1);
    assert Top(x, 1) == Top(x / 2, 0) == x / 2;
    assert Top(x / 2, 1) == Top(x / 2 / 2, 0) == x / 4;
  }

  // ---------------------------------------------------------------- IPv6

  /** The loop over whole bytes and the mask on the last one compare the first p bits. */
  method SamePrefix(a: seq<Byte>, m: seq<Byte>, p: nat) returns (same: bool)
    requires |a| == |m| && p <= 8 * |a|
    ensures same == Agrees(Bits6(a), Bits6(m), p)
  {
    var apos, slen := 0, p;
    while slen >= 8 && a[apos] == m[apos]
      invariant 0 <= apos && 8 * apos + slen == p && 0 <= slen
      invariant Agrees(Bits6(a), Bits6(m), p) == Agrees(Bits6(a[apos..]), Bits6(m[apos..]), slen)
      decreases slen
    {
      SkipByte(a[apos..], m[apos..], slen);
      assert a[apos..][1..] == a[apos + 1..] && m[apos..][1..] == m[apos + 1..];
      apos, slen := apos + 1, slen - 8;
    }
    if slen >= 8 {
      DifferentByte(a[apos..], m[apos..], slen);
      return false;
    }
    if slen == 0 {
      return true;
    }
    LastByte(a[apos..], m[apos..], slen);
    same := Cleared(a[apos], 8 - slen) == Cleared(m[apos], 8 - slen);
  }

  lemma {:induction false} Fits8(x: Byte)
    ensures Top(x, 8) == 0
  {
    Halves8(x);
  }

  lemma {:induction false} SkipByte(a: seq<Byte>, m: seq<Byte>, p: nat)
    requires a != [] && |a| == |m| && a[0] == m[0] && 8 <= p <= 8 * |a|
    ensures Agrees(Bits6(a), Bits6(m), p) == Agrees(Bits6(a[1..]), Bits6(m[1..]), p - 8)
  {
    var (x, y) := (Bits6(a[1..]), Bits6(m[1..]));
    var b := Bits(a[0], 8);
    assert (b + x)[..p] == b + x[..p - 8] && (b + y)[..p] == b + y[..p - 8];
    if (b + x)[..p] == (b + y)[..p] {
      assert (b + x)[..p][8..] == x[..p - 8] && (b + y)[..p][8..] == y[..p - 8];
    }
  }

  lemma {:induction false} DifferentByte(a: seq<Byte>, m: seq<Byte>, p: nat)
    requires a != [] && |a| == |m| && a[0] != m[0] && 8 <= p <= 8 * |a|
    ensures !Agrees(Bits6(a), Bits6(m), p)
  {
    Fits8(a[0]);
    Fits8(m[0]);
    SameBits(a[0], m[0], 8);
    assert Bits6(a)[..p][..8] == Bits(a[0], 8) && Bits6(m)[..p][..8] == Bits(m[0], 8);
  }

  lemma {:induction false} LastByte(a: seq<Byte>, m: seq<Byte>, p: nat)
    requires a != [] && |a| == |m| && p < 8
    ensures Agrees(Bits6(a), Bits6(m), p) <==> Cleared(a[0], 8 - p) == Cleared(m[0], 8 - p)
  {
    Fits8(a[0]);
    Fits8(m[0]);
    MaskIsPrefix(a[0], m[0], 8, p);
    assert Bits6(a)[..p] == Bits(a[0], 8)[..p] && Bits6(m)[..p] == Bits(m[0], 8)[..p];
  }

  // ---------------------------------------------------------------- the list

  /** An IPv4-mapped address by section 2.5.5.2 of RFC 4291. */
  predicate Mapped(b: Addr6) {
    (forall i :: 0 <= i < 10 ==> b[i] == 0) && b[10] == 0xFF && b[11] == 0xFF
  }

  function Embedded(b: Addr6): Addr4 {
    var w: int, x: int, y: int, z: int := b[12], b[13], b[14], b[15];
    w * 0x100_0000 + x * 0x1_0000 + y * 0x100 + z
  }

  /** An entry covers a source of its own family that agrees with it on its first prefixlen
      bits (section 3.1 of RFC 4632).  A mapped source is of the IPv4 family. */
  predicate Covers(e: Entry, src: Source) {
    match e
    case Net4(network, p) => p <= 32 && Covers4(network, p, src)
    case Net6(net6, p) =>
      0 <= p <= 128 && src.In6? && !Mapped(src.ip6) && Agrees(Bits6(src.ip6), Bits6(net6), p)
  }

  predicate Covers4(network: Addr4, p: nat, src: Source) {
    match src
    case In4(addr) => Agrees(Bits(addr, 32), Bits(network, 32), p)
    case In6(ip6) => Mapped(ip6) && Agrees(Bits(Embedded(ip6), 32), Bits(network, 32), p)
  }

  ghost predicate Accepted(ais: seq<Entry>, src: Source) {
    exists k :: 0 <= k < |ais| && Covers(ais[k], src)
  }

  predicate WellMade(e: Entry) {
    e.Net4? ==> e.prefixlen <= 32 && Cleared(e.network, 32 - e.prefixlen) == e.network
  }

  /** netmask_verify. */
  method Verify(ais: seq<Entry>, src: Source) returns (ok: bool)
    requires forall k :: 0 <= k < |ais| ==> WellMade(ais[k])
    ensures ok <==> Accepted(ais, src)
  {
    var isv4v6 := src.In6? && Mapped(src.ip6);
    for k := 0 to |ais|
      invariant forall i :: 0 <= i < k ==> !Covers(ais[i], src)
    {
      var ai := ais[k];
      assert WellMade(ai);
      if ai.Net4? && (src.In4? || isv4v6) {
        var b := if src.In4? then src.addr else Embedded(src.ip6);
        Fits4(b);
        Fits4(ai.network);
        MaskIsPrefix(b, ai.network, 32, ai.prefixlen);
        if Cleared(b, 32 - ai.prefixlen) == ai.network {
          return true;
        }
      } else if ai.Net6? && isv4v6 {
        continue;
      } else if ai.Net6? && src.In6? {
        if ai.prefix < 0 || ai.prefix > 128 {
          continue;
        }
        var same := SamePrefix(src.ip6, ai.net6, ai.prefix);
        if same {
          return true;
        }
      }
    }
    ok := false;
  }

  /** An entry made for an address covers exactly the addresses that agree with that address. */
  lemma {:induction false} MadeCovers(addr: Addr4, p: nat, b: Addr4)
    requires p <= 32
    ensures WellMade(MakeNet4(addr, p))
    ensures Covers(MakeNet4(addr, p), In4(b)) <==> Agrees(Bits(b, 32), Bits(addr, 32), p)
  {
    var network := Cleared(addr, 32 - p);
    ClearedTwice(addr, 32 - p);
    Fits4(addr);
    Fits4(b);
    Fits4(network);
    MaskIsPrefix(b, network, 32, p);
    MaskIsPrefix(b, addr, 32, p);
  }

  // ---------------------------------------------------------------- mapped addresses

  /** h followed by the k low bits of l. */
  function Followed(h: nat, l: nat, k: nat): nat {
    if k == 0 then h else 2 * Followed(h, l / 2, k - 1) + l % 2
  }

  lemma {:induction false} BitsFollowed(h: nat, l: nat, n: nat, k: nat)
    ensures Bits(Followed(h, l, k), n + k) == Bits(h, n) + Bits(l, k)
  {
    if k > 0 {
      BitsFollowed(h, l / 2, n, k - 1);
      assert Followed(h, l, k) / 2 == Followed(h, l / 2, k - 1);
    }
  }

  lemma {:induction false} FollowedTwice(h: nat, l: nat, j: nat, k: nat)
    ensures Followed(h, l, j + k) == Followed(Followed(h, Top(l, k), j), l, k)
  {
    if k > 0 {
      FollowedTwice(h, l / 2, j, k - 1);
    }
  }

  lemma {:induction false} Followed2(h: nat, l: nat)
    ensures Followed(h, l, 2) == 4 * h + l % 4
  {
    assert Followed(h, l, 2) == 2 * Followed(h, l / 2, 1) + l % 2;
    assert Followed(h, l / 2, 1) == 2 * Followed(h, l / 2 / 2, 0) + l / 2 % 2;
  }

  lemma {:induction false} Quarters(h: nat, l: nat)
    ensures 4 * (4 * h + l / 4 % 4) + l % 4 == 0x10 * h + l % 0x10
  {
  }

  lemma {:induction false} Followed4(h: nat, l: nat)
    ensures Followed(h, l, 4) == 0x10 * h + l % 0x10
  {
    calc {
      Followed(h, l, 4);
      { FollowedTwice(h, l, 2, 2); Halves2(l); }
      Followed(Followed(h, l / 4, 2), l, 2);
      { Followed2(h, l / 4); }
      Followed(4 * h + l / 4 % 4, l, 2);
      { Followed2(4 * h + l / 4 % 4, l); }
      4 * (4 * h + l / 4 % 4) + l % 4;
      { Quarters(h, l); }
      0x10 * h + l % 0x10;
    }
  }

  lemma {:induction false} Nibbles(h: nat, c: Byte)
    ensures 0x10 * (0x10 * h + c / 0x10 % 0x10) + c % 0x10 == 0x100 * h + c
  {
  }

  lemma {:induction false} Followed8(h: nat, c: Byte)
    ensures Followed(h, c, 8) == 0x100 * h + c
  {
    calc {
      Followed(h, c, 8);
      { FollowedTwice(h, c, 4, 4); Halves4(c); }
      Followed(Followed(h, c / 0x10, 4), c, 4);
      { Followed4(h, c / 0x10); }
      Followed(0x10 * h + c / 0x10 % 0x10, c, 4);
      { Followed4(0x10 * h + c / 0x10 % 0x10, c); }
      0x10 * (0x10 * h + c / 0x10 % 0x10) + c % 0x10;
      { Nibbles(h, c); }
      0x100 * h + c;
    }
  }

  /** Appending a byte appends its bits. */
  lemma {:induction false} ByteFollows(h: nat, c: Byte, n: nat)
    ensures Bits(0x100 * h + c, n + 8) == Bits(h, n) + Bits(c, 8)
  {
    Followed8(h, c);
    BitsFollowed(h, c, n, 8);
  }

  lemma {:induction false} Bits6Join(x: seq<Byte>, y: seq<Byte>)
    ensures Bits6(x + y) == Bits6(x) + Bits6(y)
  {
    if x == [] {
      assert x + y == y;
    } else {
      assert (x + y)[1..] == x[1..] + y;
      Bits6Join(x[1..], y);
    }
  }

  lemma {:induction false} Bits6Byte(c: Byte)
    ensures Bits6([c]) == Bits(c, 8)
  {
    assert Bits6([c][1..]) == [];
  }

  lemma {:induction false} NextByte(x: seq<Byte>, h: nat, c: Byte)
    requires Bits6(x) == Bits(h, 8 * |x|)
    ensures Bits6(x + [c]) == Bits(0x100 * h + c, 8 * |x| + 8)
  {
    Bits6Join(x, [c]);
    Bits6Byte(c);
    ByteFollows(h, c, 8 * |x|);
  }

  lemma {:induction false} FourBytes(w: Byte, x: Byte, y: Byte, z: Byte, v: nat)
    requires v == 0x100 * (0x100 * (0x100 * w + x) + y) + z
    ensures Bits6([w] + [x] + [y] + [z]) == Bits(v, 32)
  {
    var (two, three) := (0x100 * w + x, 0x100 * (0x100 * w + x) + y);
    TwoBytes(w, x);
    NextByte([w] + [x], two, y);
    NextByte([w] + [x] + [y], three, z);
  }

  lemma {:induction false} TwoBytes(w: Byte, x: Byte)
    ensures Bits6([w] + [x]) == Bits(0x100 * w + x, 16)
  {
    Bits6Byte(w);
    NextByte([w], w, x);
  }

  /** The IPv4 address of a mapped one is what its last 32 bits say. */
  lemma {:induction false} EmbeddedIsLastBits(b: Addr6)
    ensures Bits6(b)[96..] == Bits(Embedded(b), 32)
  {
    var front: seq<Byte> := b[..12];
    var last := [b[12]] + [b[13]] + [b[14]] + [b[15]];
    assert b == front + last;
    Bits6Join(front, last);
    FourBytes(b[12], b[13], b[14], b[15], Embedded(b));
  }

  /** On every list a mapped source gets the verdict of its IPv4 address, and that is whether
      some IPv4 entry agrees with its bits from the 97th on. */
  lemma {:induction false} MappedIsPlain(ais: seq<Entry>, b: Addr6)
    requires Mapped(b)
    ensures Accepted(ais, In6(b)) <==> Accepted(ais, In4(Embedded(b)))
    ensures Accepted(ais, In6(b)) <==>
      exists k :: 0 <= k < |ais| && ais[k].Net4? && ais[k].prefixlen <= 32
                  && Agrees(Bits6(b)[96..], Bits(ais[k].network, 32), ais[k].prefixlen)
  {
    EmbeddedIsLastBits(b);
    assert forall k :: 0 <= k < |ais| ==> (Covers(ais[k], In6(b)) <==> Covers(ais[k], In4(Embedded(b))));
  }
}
