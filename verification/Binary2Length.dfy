/** The lengths of the binary message format (src/htsmsg_binary2.c): groups of seven bits. */
module Binary2Length {
  import opened Wrappers
  import opened Htsmsg

  // ---------------------------------------------------------------- what is written

  /** The groups of n in front of the last, the highest first, with their top bits set. */
  function Lead(n: nat): (b: Bytes)
    ensures b != []
  {
    if n < 0x80 then [0x80 + n] else Lead(n / 0x80) + [0x80 + n % 0x80]
  }

  /** A length: its groups of seven bits, all but the last with the top bit set. */
  function SetLength(len: nat): (b: Bytes)
    ensures b != []
  {
    if len < 0x80 then [len] else Lead(len / 0x80) + [len % 0x80]
  }

  /** The five forms htsmsg_binary2_set_length writes. */
  function FiveForms(len: nat): Bytes {
    if len < 0x80 then [len]
    else if len < 0x4000 then [0x80 + len / 0x80 % 0x80, len % 0x80]
    else if len < 0x200000 then [0x80 + len / 0x4000 % 0x80, 0x80 + len / 0x80 % 0x80, len % 0x80]
    else if len < 0x10000000 then
      [0x80 + len / 0x200000 % 0x80, 0x80 + len / 0x4000 % 0x80, 0x80 + len / 0x80 % 0x80, len % 0x80]
    else
      [0x80 + len / 0x10000000 % 0x80, 0x80 + len / 0x200000 % 0x80, 0x80 + len / 0x4000 % 0x80,
       0x80 + len / 0x80 % 0x80, len % 0x80]
  }

  lemma {:induction false} Halved(len: nat)
    ensures len / 0x80 / 0x80 == len / 0x4000 && len / 0x80 / 0x4000 == len / 0x200000
    ensures len / 0x200000 / 0x80 == len / 0x10000000
  {
  }

  lemma {:induction false} OneGroup(n: nat)
    requires n < 0x80
    ensures n % 0x80 == n && Lead(n) == [0x80 + n]
  {
  }

  lemma {:induction false} LeadTwo(n: nat)
    requires 0x80 <= n < 0x4000
    ensures Lead(n) == [0x80 + n / 0x80, 0x80 + n % 0x80]
  {
  }

  lemma {:induction false} LeadFour(n: nat)
    requires 0x4000 <= n < 0x2000000
    ensures Lead(n) == Lead(n / 0x4000) + [0x80 + n / 0x80 % 0x80, 0x80 + n % 0x80]
  {
    assert n / 0x80 / 0x80 == n / 0x4000;
    assert Lead(n / 0x80) == Lead(n / 0x4000) + [0x80 + n / 0x80 % 0x80];
  }

  lemma {:induction false} ShortForms(len: nat)
    requires 0x80 <= len < 0x200000
    ensures FiveForms(len) == SetLength(len)
  {
    Halved(len);
    if 0x4000 <= len {
      LeadTwo(len / 0x80);
    }
  }

  lemma {:induction false} LongForm(len: nat)
    requires 0x200000 <= len < TWO_32
    ensures SetLength(len) == Lead(len / 0x200000) + [0x80 + len / 0x4000 % 0x80, 0x80 + len / 0x80 % 0x80, len % 0x80]
  {
    Halved(len);
    LeadFour(len / 0x80);
  }

  lemma {:induction false} LongForms(len: nat)
    requires 0x200000 <= len < TWO_32
    ensures FiveForms(len) == SetLength(len)
  {
    LongForm(len);
    Halved(len);
    if 0x10000000 <= len {
      LeadTwo(len / 0x200000);
      OneGroup(len / 0x10000000);
    } else {
      OneGroup(len / 0x200000);
    }
  }

  /** For every 32-bit length one of the five forms has exactly its groups. */
  lemma {:induction false} FormsAreGroups(len: nat)
    requires len < TWO_32
    ensures FiveForms(len) == SetLength(len)
  {
    if 0x200000 <= len {
      LongForms(len);
    } else if 0x80 <= len {
      ShortForms(len);
    }
  }

  // ---------------------------------------------------------------- what is read

  /** htsmsg_binary2_get_length from p to at most `end`, with r gathered so far in 32 bits; a
      length that is cut off keeps what has been gathered. */
  function GetLength(b: Bytes, p: nat, end: nat, r: nat): (res: (nat, nat))
    requires p <= end <= |b|
    ensures p <= res.1 <= end && (p < end ==> p < res.1)
    decreases end - p
  {
    if p == end then (r, p)
    else if b[p] < 0x80 then (r + b[p], p + 1)
    else GetLength(b, p + 1, end, (r + b[p] % 0x80) * 0x80 % TWO_32)
  }

  method ReadLength(b: Bytes, start: nat, end: nat) returns (r: nat, p: nat)
    requires start <= end <= |b|
    ensures (r, p) == GetLength(b, start, end, 0)
  {
    r, p := 0, start;
    while p != end
      invariant start <= p <= end
      invariant GetLength(b, start, end, 0) == GetLength(b, p, end, r)
      decreases end - p
    {
      var c := b[p];
      p := p + 1;
      r := r + c % 0x80;
      if c < 0x80 {
        return;
      }
      r := r * 0x80 % TWO_32;
    }
  }

  // ---------------------------------------------------------------- counting

  /** How many groups of seven bits a length takes. */
  function Groups(len: nat): nat {
    if len == 0 then 0 else 1 + Groups(len / 0x80)
  }

  /** htsmsg_binary2_length_count. */
  method LengthCount(len: nat) returns (r: nat)
    requires len < TWO_32
    ensures r == |SetLength(len)|
  {
    LengthCounted(len);
    if len == 0 {
      return 1;
    }
    var rest := len;
    r := 0;
    while rest > 0
      invariant r + Groups(rest) == Groups(len)
    {
      r, rest := r + 1, rest / 0x80;
    }
  }

  lemma {:induction false} LeadCounted(n: nat)
    requires 0 < n
    ensures |Lead(n)| == Groups(n)
  {
    if n < 0x80 {
      assert Groups(n / 0x80) == 0;
    } else {
      LeadCounted(n / 0x80);
    }
  }

  lemma {:induction false} LengthCounted(len: nat)
    ensures |SetLength(len)| == if len == 0 then 1 else Groups(len)
  {
    if len < 0x80 {
      assert Groups(len / 0x80) == 0;
    } else {
      LeadCounted(len / 0x80);
    }
  }

  // ---------------------------------------------------------------- round trip

  /** A group with the top bit set is appended to those gathered. */
  lemma {:induction false} GroupRead(b: Bytes, p: nat, end: nat, n: nat)
    requires p < end <= |b| && b[p] == 0x80 + n % 0x80 && n * 0x80 < TWO_32
    ensures GetLength(b, p, end, n / 0x80 * 0x80) == GetLength(b, p + 1, end, n * 0x80)
  {
    var g := n % 0x80;
    assert n / 0x80 * 0x80 + g == n && (0x80 + g) % 0x80 == g;
    assert GetLength(b, p, end, n / 0x80 * 0x80) == GetLength(b, p + 1, end, n * 0x80 % TWO_32);
  }

  /** Reading the leading groups of a length gathers them. */
  lemma {:induction false} LeadRead(n: nat, b: Bytes, p: nat, end: nat)
    requires n * 0x80 < TWO_32 && p + |Lead(n)| <= end <= |b| && b[p..p + |Lead(n)|] == Lead(n)
    ensures GetLength(b, p, end, 0) == GetLength(b, p + |Lead(n)|, end, n * 0x80)
  {
    var k := |Lead(n)| - 1;
    assert b[p + k] == b[p..p + k + 1][k] == 0x80 + n % 0x80;
    if n < 0x80 {
      assert n / 0x80 == 0;
    } else {
      assert b[p..p + k] == b[p..p + k + 1][..k] == Lead(n / 0x80);
      LeadRead(n / 0x80, b, p, end);
    }
    GroupRead(b, p + k, end, n);
  }

  /** Reading undoes writing for every 32-bit length, and stops just behind it. */
  lemma {:induction false} LengthRoundTrip(len: nat, b: Bytes, p: nat, end: nat)
    requires len < TWO_32
    requires p + |SetLength(len)| <= end <= |b| && b[p..p + |SetLength(len)|] == SetLength(len)
    ensures GetLength(b, p, end, 0) == (len, p + |SetLength(len)|)
  {
    var k := |SetLength(len)| - 1;
    assert b[p + k] == b[p..p + k + 1][k] == len % 0x80;
    if 0x80 <= len {
      assert b[p..p + k] == b[p..p + k + 1][..k] == Lead(len / 0x80);
      LeadRead(len / 0x80, b, p, end);
    }
  }

  /** The first k leading groups are the leading groups of a smaller number. */
  lemma {:induction false} LeadCut(n: nat, k: nat) returns (m: nat)
    requires 0 < n && 0 < k <= |Lead(n)|
    ensures 0 < m <= n && Lead(n)[..k] == Lead(m)
  {
    if k == |Lead(n)| {
      m := n;
    } else {
      m := LeadCut(n / 0x80, k);
    }
  }

  lemma {:induction false} LeadIsShort(n: nat)
    requires n < 0x2000000
    ensures |Lead(n)| <= 4
  {
    assert n / 0x80 / 0x80 / 0x80 < 0x80;
    if 0x80 <= n {
      assert |Lead(n)| == |Lead(n / 0x80)| + 1;
      if 0x80 <= n / 0x80 {
        assert |Lead(n / 0x80)| == |Lead(n / 0x80 / 0x80)| + 1;
      }
    }
  }

  /** A length that is cut off reads as more than the bytes there are: its leading group is
      not zero. */
  lemma {:induction false} LengthCutOff(len: nat, b: Bytes, p: nat, end: nat)
    requires len < TWO_32 && p < end <= |b| && end - p < |SetLength(len)|
    requires b[p..end] == SetLength(len)[..end - p]
    ensures GetLength(b, p, end, 0).1 == end && end - p < GetLength(b, p, end, 0).0 <= len
  {
    var k := end - p;
    assert SetLength(len)[..k] == Lead(len / 0x80)[..k];
    var m := LeadCut(len / 0x80, k);
    LeadRead(m, b, p, end);
    LeadIsShort(m);
  }

  // ---------------------------------------------------------------- any length that was read

  /** 128 to the power k; five groups hold every 32-bit length. */
  function Bound(k: nat): nat {
    if k == 0 then 1 else if k == 1 then 0x80 else if k == 2 then 0x4000 else if k == 3 then 0x200000
    else if k == 4 then 0x10000000 else 0x8_0000_0000
  }

  lemma {:induction false} Shifted(y: nat)
    ensures y * 0x80 % TWO_32 == 0x80 * (y % 0x2000000)
  {
  }

  lemma {:induction false} GroupsGathered(r: nat, c: Byte, k: nat)
    requires r < Bound(k + 1) && r % 0x80 == 0 && r < TWO_32
    ensures var x := (r + c % 0x80) * 0x80 % TWO_32; x % 0x80 == 0 && x < Bound(k + 2)
    ensures c < 0x80 ==> r + c < Bound(k + 1) && r + c < TWO_32
  {
    Shifted(r + c % 0x80);
  }

  lemma {:induction false} GroupsBelow(len: nat, k: nat)
    requires len < Bound(k) && len < TWO_32 && 0 < k
    ensures |SetLength(len)| <= k
  {
    if k < 5 {
      FormsAreGroups(len);
    } else {
      LengthInFive(len);
    }
  }

  lemma {:induction false} LengthInFive(len: nat)
    requires len < TWO_32
    ensures |SetLength(len)| <= 5
  {
    FormsAreGroups(len);
  }

  /** A length that was read takes no more groups than it was read from; one that was cut off
      may take one more. */
  lemma {:induction false} LengthIsShort(b: Bytes, p: nat, end: nat, r: nat, k: nat)
    requires p <= end <= |b| && r % 0x80 == 0 && r < TWO_32 && r < Bound(k + 1)
    ensures var (len, q) := GetLength(b, p, end, r);
      len < TWO_32 && (|SetLength(len)| <= k + (q - p) || (q == end && |SetLength(len)| == k + (q - p) + 1))
    decreases end - p
  {
    if p == end {
      GroupsBelow(r, k + 1);
    } else {
      GroupsGathered(r, b[p], k);
      if b[p] >= 0x80 {
        LengthIsShort(b, p + 1, end, (r + b[p] % 0x80) * 0x80 % TWO_32, k + 1);
      } else {
        GroupsBelow(r + b[p], k + 1);
      }
    }
  }

  lemma {:induction false} ShorterLength(x: nat, y: nat)
    requires x <= y < TWO_32
    ensures |SetLength(x)| <= |SetLength(y)|
  {
    FormsAreGroups(x);
    FormsAreGroups(y);
  }
}
