/** Which addresses count as the public internet. Addresses carry no zone. */
module SafeDial {

  /** A 32-bit or 128-bit address as a number, or netip's zero Addr. */
  datatype Addr = Invalid | V4(n: nat) | V6(n: nat)

  const TWO32: nat := 0x1_0000_0000
  const TWO128: nat := 0x1_0000_0000_0000_0000_0000_0000_0000_0000

  /** A prefix by family, base address and number of fixed leading bits. */
  datatype Prefix = Prefix4(base: nat, bits: nat) | Prefix6(base: nat, bits: nat)

  function Pow2(k: nat): nat {
    if k == 0 then 1 else 2 * Pow2(k - 1)
  }

  lemma {:induction false} Pow2Positive(k: nat)
    ensures Pow2(k) > 0
  {
    if k > 0 {
      Pow2Positive(k - 1);
    }
  }

  /** The number of addresses in the prefix. */
  function Size(p: Prefix): (n: nat)
    requires p.bits <= (if p.Prefix4? then 32 else 128)
    ensures n > 0
  {
    var k := (if p.Prefix4? then 32 else 128) - p.bits;
    Pow2Positive(k);
    Pow2(k)
  }

  predicate ValidPrefix(p: Prefix) {
    p.bits <= if p.Prefix4? then 32 else 128
  }

  /** netip.Prefix.Contains: same family, same leading bits. */
  predicate Contains(p: Prefix, a: Addr)
    requires ValidPrefix(p)
  {
    match (p, a)
    case (Prefix4(base, _), V4(n)) => n / Size(p) == base / Size(p)
    case (Prefix6(base, _), V6(n)) => n / Size(p) == base / Size(p)
    case _ => false
  }

  type Table = t: seq<Prefix> | forall i :: 0 <= i < |t| ==> ValidPrefix(t[i]) witness []

  predicate AnyContains(t: Table, a: Addr) {
    exists i :: 0 <= i < |t| && Contains(t[i], a)
  }

  const V4_EMBEDDING: Table := [
    Prefix6(0x0064_ff9b_0000_0000_0000_0000_0000_0000, 96),
    Prefix6(0x0064_ff9b_0001_0000_0000_0000_0000_0000, 48),
    Prefix6(0, 96)]

  const BLOCKED: Table := [
    Prefix4(0x0000_0000, 8),
    Prefix4(0x6440_0000, 10),
    Prefix4(0xc000_0000, 24),
    Prefix4(0xc058_6300, 24),
    Prefix4(0xc000_0200, 24),
    Prefix4(0xc612_0000, 15),
    Prefix4(0xc633_6400, 24),
    Prefix4(0xcb00_7100, 24),
    Prefix4(0xf000_0000, 4),
    Prefix6(0x0100_0000_0000_0000_0000_0000_0000_0000, 64),
    Prefix6(0x2001_0000_0000_0000_0000_0000_0000_0000, 32),
    Prefix6(0x2001_0020_0000_0000_0000_0000_0000_0000, 28),
    Prefix6(0x2001_0db8_0000_0000_0000_0000_0000_0000, 32),
    Prefix6(0x2002_0000_0000_0000_0000_0000_0000_0000, 16)]

  /** Addr.Unmap: ::ffff:a.b.c.d becomes a.b.c.d. */
  function Unmap(a: Addr): Addr {
    if a.V6? && a.n / TWO32 == 0xffff then V4(a.n % TWO32) else a
  }

  // The netip.Addr predicates, on an unmapped address.

  function Octet(n: nat, i: nat): nat
    requires i < 4
  {
    if i == 0 then n / 0x100_0000 else if i == 1 then n / 0x1_0000 % 256 else if i == 2 then n / 256 % 256 else n % 256
  }

  /** The leading 16 bits of an IPv6 address. */
  function Lead16(n: nat): nat {
    n / 0x1_0000_0000_0000_0000_0000_0000_0000
  }

  predicate IsUnspecified(a: Addr) {
    !a.Invalid? && a.n == 0
  }

  predicate IsLoopback(a: Addr) {
    match a
    case V4(n) => Octet(n, 0) == 127
    case V6(n) => n == 1
    case Invalid => false
  }

  predicate IsPrivate(a: Addr) {
    match a
    case V4(n) =>
      Octet(n, 0) == 10 || (Octet(n, 0) == 172 && 16 <= Octet(n, 1) < 32) || (Octet(n, 0) == 192 && Octet(n, 1) == 168)
    case V6(n) => Lead16(n) / 0x200 == 0xfc00 / 0x200
    case Invalid => false
  }

  predicate IsLinkLocalUnicast(a: Addr) {
    match a
    case V4(n) => Octet(n, 0) == 169 && Octet(n, 1) == 254
    case V6(n) => Lead16(n) / 0x40 == 0xfe80 / 0x40
    case Invalid => false
  }

  predicate IsLinkLocalMulticast(a: Addr) {
    match a
    case V4(n) => Octet(n, 0) == 224 && Octet(n, 1) == 0 && Octet(n, 2) == 0
    case V6(n) => Lead16(n) / 0x100 == 0xff && Lead16(n) % 0x10 == 2
    case Invalid => false
  }

  predicate IsInterfaceLocalMulticast(a: Addr) {
    a.V6? && Lead16(a.n) / 0x100 == 0xff && Lead16(a.n) % 0x10 == 1
  }

  predicate IsMulticast(a: Addr) {
    match a
    case V4(n) => Octet(n, 0) / 16 == 0xe
    case V6(n) => Lead16(n) / 0x100 == 0xff
    case Invalid => false
  }

  predicate Special(a: Addr) {
    || IsUnspecified(a) || IsLoopback(a) || IsPrivate(a) || IsLinkLocalUnicast(a)
    || IsLinkLocalMulticast(a) || IsInterfaceLocalMulticast(a) || IsMulticast(a)
  }

  lemma EmbeddingIsV6(a: Addr)
    ensures AnyContains(V4_EMBEDDING, a) ==> a.V6?
  {
  }

  /** One unwrapping is always enough: the embedded address is IPv4, which no embedding prefix contains. */
  predicate IsPublic(a: Addr)
    decreases if a.V6? then 1 else 0
  {
    if a.Invalid? then false
    else
      var ip := Unmap(a);
      EmbeddingIsV6(ip);
      if AnyContains(V4_EMBEDDING, ip) then IsPublic(V4(ip.n % TWO32))
      else !Special(ip) && !AnyContains(BLOCKED, ip)
  }

  // ----- what it amounts to -----

  lemma {:induction false} Pow2Add(a: nat, b: nat)
    ensures Pow2(a + b) == Pow2(a) * Pow2(b)
  {
    if a > 0 {
      Pow2Add(a - 1, b);
    }
  }

  lemma Pow2Small()
    ensures Pow2(4) == 0x10 && Pow2(8) == 0x100 && Pow2(16) == 0x1_0000 && Pow2(17) == 0x2_0000 && Pow2(22) == 0x40_0000
    ensures Pow2(24) == 0x100_0000 && Pow2(28) == 0x1000_0000 && Pow2(32) == TWO32
  {
  }

  lemma Pow2Large()
    ensures Pow2(64) == 0x1_0000_0000_0000_0000 && Pow2(80) == 0x1_0000_0000_0000_0000_0000
    ensures Pow2(96) == 0x1_0000_0000_0000_0000_0000_0000 && Pow2(100) == 0x10_0000_0000_0000_0000_0000_0000
    ensures Pow2(112) == 0x1_0000_0000_0000_0000_0000_0000_0000
  {
    Pow2Small();
    Pow2Add(32, 32);
    Pow2Add(64, 16);
    Pow2Add(64, 32);
    Pow2Add(96, 4);
    Pow2Add(96, 16);
  }

  datatype Range = Range(lo: nat, hi: nat)

  predicate InAny(ranges: seq<Range>, n: nat) {
    exists i :: 0 <= i < |ranges| && ranges[i].lo <= n <= ranges[i].hi
  }

  /** In increasing order, and no two meet. */
  predicate Disjoint(ranges: seq<Range>) {
    && (forall i :: 0 <= i < |ranges| ==> ranges[i].lo <= ranges[i].hi)
    && (forall i, j :: 0 <= i < j < |ranges| ==> ranges[i].hi < ranges[j].lo)
  }

  /** The IPv4 addresses that are not public. */
  const V4_BLOCKED_RANGES: seq<Range> := [
    Range(0x0000_0000, 0x00ff_ffff),   // 0.0.0.0/8
    Range(0x0a00_0000, 0x0aff_ffff),   // 10.0.0.0/8
    Range(0x6440_0000, 0x647f_ffff),   // 100.64.0.0/10
    Range(0x7f00_0000, 0x7fff_ffff),   // 127.0.0.0/8
    Range(0xa9fe_0000, 0xa9fe_ffff),   // 169.254.0.0/16
    Range(0xac10_0000, 0xac1f_ffff),   // 172.16.0.0/12
    Range(0xc000_0000, 0xc000_00ff),   // 192.0.0.0/24
    Range(0xc000_0200, 0xc000_02ff),   // 192.0.2.0/24
    Range(0xc058_6300, 0xc058_63ff),   // 192.88.99.0/24
    Range(0xc0a8_0000, 0xc0a8_ffff),   // 192.168.0.0/16
    Range(0xc612_0000, 0xc613_ffff),   // 198.18.0.0/15
    Range(0xc633_6400, 0xc633_64ff),   // 198.51.100.0/24
    Range(0xcb00_7100, 0xcb00_71ff),   // 203.0.113.0/24
    Range(0xe000_0000, 0xffff_ffff)]   // 224.0.0.0/3

  /** The IPv6 addresses that carry no IPv4 address and are not public. */
  const V6_BLOCKED_RANGES: seq<Range> := [
    Range(0x0100_0000_0000_0000_0000_0000_0000_0000, 0x0100_0000_0000_0000_ffff_ffff_ffff_ffff),
    Range(0x2001_0000_0000_0000_0000_0000_0000_0000, 0x2001_0000_ffff_ffff_ffff_ffff_ffff_ffff),
    Range(0x2001_0020_0000_0000_0000_0000_0000_0000, 0x2001_002f_ffff_ffff_ffff_ffff_ffff_ffff),
    Range(0x2001_0db8_0000_0000_0000_0000_0000_0000, 0x2001_0db8_ffff_ffff_ffff_ffff_ffff_ffff),
    Range(0x2002_0000_0000_0000_0000_0000_0000_0000, 0x2002_ffff_ffff_ffff_ffff_ffff_ffff_ffff),
    Range(0xfc00_0000_0000_0000_0000_0000_0000_0000, 0xfdff_ffff_ffff_ffff_ffff_ffff_ffff_ffff),
    Range(0xfe80_0000_0000_0000_0000_0000_0000_0000, 0xfebf_ffff_ffff_ffff_ffff_ffff_ffff_ffff),
    Range(0xff00_0000_0000_0000_0000_0000_0000_0000, 0xffff_ffff_ffff_ffff_ffff_ffff_ffff_ffff)]

  /** The IPv6 addresses that carry an IPv4 address in their low 32 bits. */
  const V6_EMBEDDING_RANGES: seq<Range> := [
    Range(0, 0xffff_ffff),
    Range(0xffff_0000_0000, 0xffff_ffff_ffff),
    Range(0x0064_ff9b_0000_0000_0000_0000_0000_0000, 0x0064_ff9b_0000_0000_0000_0000_ffff_ffff),
    Range(0x0064_ff9b_0001_0000_0000_0000_0000_0000, 0x0064_ff9b_0001_ffff_ffff_ffff_ffff_ffff)]

  lemma RangesAreDisjoint()
    ensures Disjoint(V4_BLOCKED_RANGES) && Disjoint(V6_BLOCKED_RANGES) && Disjoint(V6_EMBEDDING_RANGES)
    ensures forall n :: !(InAny(V6_BLOCKED_RANGES, n) && InAny(V6_EMBEDDING_RANGES, n))
  {
    NeighboursSuffice(V4_BLOCKED_RANGES);
    NeighboursSuffice(V6_BLOCKED_RANGES);
    NeighboursSuffice(V6_EMBEDDING_RANGES);
  }

  predicate Ascending(ranges: seq<Range>) {
    && (forall i :: 0 <= i < |ranges| ==> ranges[i].lo <= ranges[i].hi)
    && (forall j :: 0 < j < |ranges| ==> ranges[j - 1].hi < ranges[j].lo)
  }

  lemma NeighboursSuffice(ranges: seq<Range>)
    requires Ascending(ranges)
    ensures Disjoint(ranges)
  {
    forall i: nat, j: nat | i < j < |ranges|
      ensures ranges[i].hi < ranges[j].lo
    {
      Before(ranges, i, j);
    }
  }

  lemma {:induction false} Before(ranges: seq<Range>, i: nat, j: nat)
    requires Ascending(ranges) && i < j < |ranges|
    ensures ranges[i].hi < ranges[j].lo
  {
    if i < j - 1 {
      Before(ranges, i, j - 1);
    }
  }

  /** A prefix whose base is aligned is the range that starts there. */
  predicate Spans(p: Prefix, lo: nat, hi: nat) {
    ValidPrefix(p) && p.base == lo && lo % Size(p) == 0 && hi == lo + Size(p) - 1
  }

  lemma SpansContains(p: Prefix, lo: nat, hi: nat, a: Addr)
    requires Spans(p, lo, hi)
    ensures Contains(p, a) <==> (if p.Prefix4? then a.V4? else a.V6?) && lo <= a.n <= hi
  {
    if !a.Invalid? {
      SameQuotient(a.n, lo, Size(p));
    }
  }

  lemma SameQuotient(n: nat, lo: nat, size: nat)
    requires size > 0 && lo % size == 0
    ensures n / size == lo / size <==> lo <= n < lo + size
  {
    var q := lo / size;
    assert lo == q * size;
    if n / size == q {
      assert n == size * q + n % size;
    }
    if lo <= n < lo + size {
      QuotientIs(n, q, size);
    }
  }

  lemma QuotientIs(n: nat, q: nat, size: nat)
    requires size > 0 && q * size <= n < q * size + size
    ensures n / size == q
  {
    var r := n / size;
    assert n == r * size + n % size;
    assert r < q ==> (r + 1) * size <= q * size;
    assert r > q ==> (q + 1) * size <= r * size;
  }

  /** The ranges of the prefixes in BLOCKED, in the table's order. */
  const BLOCKED_SPANS: seq<Range> := [
    Range(0x0000_0000, 0x00ff_ffff),
    Range(0x6440_0000, 0x647f_ffff),
    Range(0xc000_0000, 0xc000_00ff),
    Range(0xc058_6300, 0xc058_63ff),
    Range(0xc000_0200, 0xc000_02ff),
    Range(0xc612_0000, 0xc613_ffff),
    Range(0xc633_6400, 0xc633_64ff),
    Range(0xcb00_7100, 0xcb00_71ff),
    Range(0xf000_0000, 0xffff_ffff),
    Range(0x0100_0000_0000_0000_0000_0000_0000_0000, 0x0100_0000_0000_0000_ffff_ffff_ffff_ffff),
    Range(0x2001_0000_0000_0000_0000_0000_0000_0000, 0x2001_0000_ffff_ffff_ffff_ffff_ffff_ffff),
    Range(0x2001_0020_0000_0000_0000_0000_0000_0000, 0x2001_002f_ffff_ffff_ffff_ffff_ffff_ffff),
    Range(0x2001_0db8_0000_0000_0000_0000_0000_0000, 0x2001_0db8_ffff_ffff_ffff_ffff_ffff_ffff),
    Range(0x2002_0000_0000_0000_0000_0000_0000_0000, 0x2002_ffff_ffff_ffff_ffff_ffff_ffff_ffff)]

  lemma V4Spans(i: nat)
    requires i < 9
    ensures |BLOCKED_SPANS| == |BLOCKED| == 14 && BLOCKED[i].Prefix4?
    ensures Spans(BLOCKED[i], BLOCKED_SPANS[i].lo, BLOCKED_SPANS[i].hi)
  {
    Pow2Small();
  }

  lemma V6Spans(i: nat)
    requires 9 <= i < |BLOCKED|
    ensures |BLOCKED_SPANS| == |BLOCKED| == 14 && BLOCKED[i].Prefix6?
    ensures Spans(BLOCKED[i], BLOCKED_SPANS[i].lo, BLOCKED_SPANS[i].hi)
  {
    Pow2Large();
    if i == 9 {
      Aligned6(0x0100_0000_0000_0000, 64, 0x1_0000_0000_0000_0000);
    } else if i == 10 {
      Aligned6(0x2001_0000, 96, 0x1_0000_0000_0000_0000_0000_0000);
    } else if i == 11 {
      Aligned6(0x2001_002, 100, 0x10_0000_0000_0000_0000_0000_0000);
    } else if i == 12 {
      Aligned6(0x2001_0db8, 96, 0x1_0000_0000_0000_0000_0000_0000);
    } else {
      Aligned6(0x2002, 112, 0x1_0000_0000_0000_0000_0000_0000_0000);
    }
  }

  /** The IPv6 prefix that leaves `k` bits free, from its `q`-th block of that size. */
  lemma Aligned6(q: nat, k: nat, size: nat)
    requires k <= 128 && size == Pow2(k)
    ensures size > 0 && Spans(Prefix6(q * size, 128 - k), q * size, q * size + size - 1)
  {
    Pow2Positive(k);
    QuotientIs(q * size, q, size);
    assert q * size == q * size / size * size + q * size % size;
  }

  lemma BlockedContains(i: nat, a: Addr)
    requires i < |BLOCKED|
    ensures |BLOCKED_SPANS| == |BLOCKED| == 14
    ensures Contains(BLOCKED[i], a) <==>
      (if i < 9 then a.V4? else a.V6?) && BLOCKED_SPANS[i].lo <= a.n <= BLOCKED_SPANS[i].hi
  {
    if i < 9 {
      V4Spans(i);
    } else {
      V6Spans(i);
    }
    SpansContains(BLOCKED[i], BLOCKED_SPANS[i].lo, BLOCKED_SPANS[i].hi, a);
  }

  lemma V4Table(n: nat)
    ensures AnyContains(BLOCKED, V4(n)) <==> InAny(BLOCKED_SPANS[..9], n)
  {
    if AnyContains(BLOCKED, V4(n)) {
      var i :| 0 <= i < |BLOCKED| && Contains(BLOCKED[i], V4(n));
      BlockedContains(i, V4(n));
      assert BLOCKED_SPANS[..9][i] == BLOCKED_SPANS[i];
    }
    if InAny(BLOCKED_SPANS[..9], n) {
      var i :| 0 <= i < 9 && BLOCKED_SPANS[..9][i].lo <= n <= BLOCKED_SPANS[..9][i].hi;
      BlockedContains(i, V4(n));
    }
  }

  lemma V6Table(n: nat)
    ensures AnyContains(BLOCKED, V6(n)) <==> InAny(BLOCKED_SPANS[9..], n)
  {
    if AnyContains(BLOCKED, V6(n)) {
      var i :| 0 <= i < |BLOCKED| && Contains(BLOCKED[i], V6(n));
      BlockedContains(i, V6(n));
      assert BLOCKED_SPANS[9..][i - 9] == BLOCKED_SPANS[i];
    }
    if InAny(BLOCKED_SPANS[9..], n) {
      var i :| 0 <= i < 5 && BLOCKED_SPANS[9..][i].lo <= n <= BLOCKED_SPANS[9..][i].hi;
      BlockedContains(i + 9, V6(n));
    }
  }

  lemma V4Special(n: nat)
    requires n < TWO32
    ensures Special(V4(n)) <==>
      || n == 0 || 0x7f00_0000 <= n <= 0x7fff_ffff || 0x0a00_0000 <= n <= 0x0aff_ffff || 0xac10_0000 <= n <= 0xac1f_ffff
      || 0xc0a8_0000 <= n <= 0xc0a8_ffff || 0xa9fe_0000 <= n <= 0xa9fe_ffff || 0xe000_0000 <= n <= 0xefff_ffff
  {
  }

  lemma V6Special(n: nat)
    requires n < TWO128
    ensures Special(V6(n)) <==>
      || n <= 1
      || 0xfc00_0000_0000_0000_0000_0000_0000_0000 <= n <= 0xfdff_ffff_ffff_ffff_ffff_ffff_ffff_ffff
      || 0xfe80_0000_0000_0000_0000_0000_0000_0000 <= n <= 0xfebf_ffff_ffff_ffff_ffff_ffff_ffff_ffff
      || 0xff00_0000_0000_0000_0000_0000_0000_0000 <= n
  {
  }

  lemma Within(ranges: seq<Range>, i: nat, n: nat)
    requires i < |ranges| && ranges[i].lo <= n <= ranges[i].hi
    ensures InAny(ranges, n)
  {
  }

  lemma V4RangesCovered(i: nat, n: nat)
    requires i < |V4_BLOCKED_RANGES| && V4_BLOCKED_RANGES[i].lo <= n <= V4_BLOCKED_RANGES[i].hi
    ensures Special(V4(n)) || InAny(BLOCKED_SPANS[..9], n)
  {
    V4Special(n);
    var table := [0, 9, 1, 9, 9, 9, 2, 4, 3, 9, 5, 6, 7, 8];
    if table[i] < 9 && !(0xe000_0000 <= n < 0xf000_0000) {
      Within(BLOCKED_SPANS[..9], table[i], n);
    }
  }

  lemma V4SpansCovered(i: nat, n: nat)
    requires i < 9 && BLOCKED_SPANS[i].lo <= n <= BLOCKED_SPANS[i].hi
    ensures InAny(V4_BLOCKED_RANGES, n)
  {
    var index := [0, 2, 6, 8, 7, 10, 11, 12, 13];
    Within(V4_BLOCKED_RANGES, index[i], n);
  }

  lemma V4SpecialCovered(n: nat)
    requires n < TWO32 && Special(V4(n))
    ensures InAny(V4_BLOCKED_RANGES, n)
  {
    V4Special(n);
    var k := if n == 0 then 0 else if n <= 0x0aff_ffff then 1 else if n <= 0x7fff_ffff then 3
             else if n <= 0xa9fe_ffff then 4 else if n <= 0xac1f_ffff then 5 else if n <= 0xc0a8_ffff then 9 else 13;
    Within(V4_BLOCKED_RANGES, k, n);
  }

  /** The named IPv4 classes and the prefix table together make up the disjoint ranges. */
  lemma V4Union(n: nat)
    requires n < TWO32
    ensures InAny(V4_BLOCKED_RANGES, n) <==> Special(V4(n)) || InAny(BLOCKED_SPANS[..9], n)
  {
    if i :| 0 <= i < |V4_BLOCKED_RANGES| && V4_BLOCKED_RANGES[i].lo <= n <= V4_BLOCKED_RANGES[i].hi {
      V4RangesCovered(i, n);
    } else if Special(V4(n)) {
      V4SpecialCovered(n);
    } else if i :| 0 <= i < 9 && BLOCKED_SPANS[..9][i].lo <= n <= BLOCKED_SPANS[..9][i].hi {
      V4SpansCovered(i, n);
    }
  }

  /** The prefix tests on IPv4 are membership in the union of disjoint ranges. */
  lemma V4PublicIff(n: nat)
    requires n < TWO32
    ensures IsPublic(V4(n)) <==> !InAny(V4_BLOCKED_RANGES, n)
  {
    EmbeddingIsV6(V4(n));
    V4Table(n);
    V4Union(n);
  }

  lemma EmbeddingSpans()
    ensures |V4_EMBEDDING| == 3
    ensures Spans(V4_EMBEDDING[0], 0x0064_ff9b_0000_0000_0000_0000_0000_0000, 0x0064_ff9b_0000_0000_0000_0000_ffff_ffff)
    ensures Spans(V4_EMBEDDING[1], 0x0064_ff9b_0001_0000_0000_0000_0000_0000, 0x0064_ff9b_0001_ffff_ffff_ffff_ffff_ffff)
    ensures Spans(V4_EMBEDDING[2], 0, 0xffff_ffff)
  {
    Pow2Small();
    Pow2Large();
    Aligned6(0x0064_ff9b_0000_0000_0000_0000, 32, TWO32);
    Aligned6(0x0064_ff9b_0001, 80, 0x1_0000_0000_0000_0000_0000);
    Aligned6(0, 32, TWO32);
  }

  lemma EmbeddingContains(n: nat)
    ensures AnyContains(V4_EMBEDDING, V6(n)) <==>
      || 0x0064_ff9b_0000_0000_0000_0000_0000_0000 <= n <= 0x0064_ff9b_0000_0000_0000_0000_ffff_ffff
      || 0x0064_ff9b_0001_0000_0000_0000_0000_0000 <= n <= 0x0064_ff9b_0001_ffff_ffff_ffff_ffff_ffff
      || n <= 0xffff_ffff
  {
    var t := V4_EMBEDDING;
    EmbeddingSpans();
    SpansContains(t[0], 0x0064_ff9b_0000_0000_0000_0000_0000_0000, 0x0064_ff9b_0000_0000_0000_0000_ffff_ffff, V6(n));
    SpansContains(t[1], 0x0064_ff9b_0001_0000_0000_0000_0000_0000, 0x0064_ff9b_0001_ffff_ffff_ffff_ffff_ffff, V6(n));
    SpansContains(t[2], 0, 0xffff_ffff, V6(n));
    assert AnyContains(t, V6(n)) <==> Contains(t[0], V6(n)) || Contains(t[1], V6(n)) || Contains(t[2], V6(n));
  }

  /** The upper 96 bits of a compatible, a mapped, or either kind of NAT64 address, whatever its middle bits. */
  predicate EmbeddingHigh(high: nat) {
    || high == 0 || high == 0xffff || high == 0x0064_ff9b_0000_0000_0000_0000
    || 0x0064_ff9b_0001_0000_0000_0000 <= high <= 0x0064_ff9b_0001_ffff_ffff_ffff
  }

  /** Carries an IPv4 address: IPv4-mapped, or under one of the embedding prefixes. */
  lemma EmbeddingRanges(n: nat)
    ensures InAny(V6_EMBEDDING_RANGES, n) <==> n / TWO32 == 0xffff || AnyContains(V4_EMBEDDING, V6(n))
    ensures InAny(V6_EMBEDDING_RANGES, n) <==> EmbeddingHigh(n / TWO32)
  {
    EmbeddingContains(n);
    var r := V6_EMBEDDING_RANGES;
    assert InAny(r, n) <==>
      || (r[0].lo <= n <= r[0].hi) || (r[1].lo <= n <= r[1].hi)
      || (r[2].lo <= n <= r[2].hi) || (r[3].lo <= n <= r[3].hi);
  }

  lemma V6Union(n: nat)
    requires TWO32 <= n < TWO128
    ensures InAny(V6_BLOCKED_RANGES, n) <==> Special(V6(n)) || InAny(BLOCKED_SPANS[9..], n)
  {
    V6Special(n);
    var r, t := V6_BLOCKED_RANGES, BLOCKED_SPANS[9..];
    assert |r| == 8 && |t| == 5;
    if i :| 0 <= i < 8 && r[i].lo <= n <= r[i].hi {
      if i < 5 {
        Within(t, i, n);
      }
    }
    if i :| 0 <= i < 5 && t[i].lo <= n <= t[i].hi {
      Within(r, i, n);
    }
    if Special(V6(n)) {
      var k := if n <= 0xfdff_ffff_ffff_ffff_ffff_ffff_ffff_ffff then 5
               else if n <= 0xfebf_ffff_ffff_ffff_ffff_ffff_ffff_ffff then 6 else 7;
      Within(r, k, n);
    }
  }

  /** Every wrapper of an IPv4 address gets the verdict of that address. */
  lemma WrapperHasEmbeddedVerdict(n: nat)
    requires EmbeddingHigh(n / TWO32)
    ensures IsPublic(V6(n)) == IsPublic(V4(n % TWO32))
  {
    EmbeddingRanges(n);
    EmbeddingIsV6(V4(n % TWO32));
  }

  /** On IPv6: the embedded address decides where there is one, disjoint ranges elsewhere. */
  lemma V6PublicIff(n: nat)
    requires n < TWO128
    ensures IsPublic(V6(n)) <==>
      if InAny(V6_EMBEDDING_RANGES, n) then !InAny(V4_BLOCKED_RANGES, n % TWO32) else !InAny(V6_BLOCKED_RANGES, n)
  {
    EmbeddingRanges(n);
    if InAny(V6_EMBEDDING_RANGES, n) {
      WrapperHasEmbeddedVerdict(n);
      V4PublicIff(n % TWO32);
    } else {
      EmbeddingContains(n);
      V6Table(n);
      V6Union(n);
    }
  }
}
