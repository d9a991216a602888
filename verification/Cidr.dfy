// `Cidr` of src/wintun/ipset.rs: address blocks in the sense of section 3.1 of
// RFC 4632, their order, and what a list of blocks covers.  Arithmetic that
// would leave 32 bits (where the program stops) yields None.
module Cidrs {
  import opened Common
  import opened Bits

  datatype Cidr = Cidr(ip: U32, prefix: nat)
  {
    // A block the program can compute the mask of: `1 << (32 - prefix)` fits.
    ghost predicate Valid() {
      1 <= prefix <= 32 && Aligned(ip, 32 - prefix) && ip + Pow2(32 - prefix) <= WORD
    }

    function Mask(): nat
      requires 1 <= prefix <= 32
    {
      Pow2Word(); Pow2Monotone(32 - prefix, 32);
      WORD - Pow2(32 - prefix)
    }

    // ip .. ip + !mask
    function Range(): (r: (nat, nat))
      requires 1 <= prefix <= 32
      ensures r == (ip, ip + Pow2(32 - prefix) - 1)
    {
      (ip, ip + (WORD - 1 - Mask()))
    }

    ghost predicate Has(a: int)
      requires 1 <= prefix <= 32
    {
      Range().0 <= a <= Range().1
    }

    // The block of twice the size that this one is half of.
    ghost function ParentStart(): nat
      requires prefix <= 32
    {
      ClearLow(ip, 33 - prefix)
    }

    ghost function ParentEnd(): int
      requires prefix <= 32
    {
      ParentStart() + Pow2(33 - prefix) - 1
    }

    // `Ord::cmp`: by address, larger prefix (smaller block) first.
    predicate Before(other: Cidr) {
      ip < other.ip || (ip == other.ip && prefix >= other.prefix)
    }
  }

  // `Cidr::new`: masks the address; prefix 0 or above 32 has no 32-bit shift.
  function New(ip: U32, prefix: nat): (c: Option<Cidr>)
    ensures c.Some? <==> 1 <= prefix <= 32
    ensures c.Some? ==> c.value.prefix == prefix && c.value.Valid() && c.value.Has(ip)
    ensures c.Some? && Aligned(ip, 32 - prefix) ==> c.value.ip == ip
  {
    if 1 <= prefix <= 32 then
      ClearLowAligned(ip, 32 - prefix);
      if Aligned(ip, 32 - prefix) then
        AlignedIsClear(ip, 32 - prefix); BlockFits(ip, 32 - prefix);
        Some(Cidr(ip, prefix))
      else BlockFits(ClearLow(ip, 32 - prefix), 32 - prefix); Some(Cidr(ClearLow(ip, 32 - prefix), prefix))
    else None
  }

  // An aligned block starting inside 32 bits ends inside 32 bits.
  lemma BlockFits(ip: nat, k: nat)
    requires ip < WORD && Aligned(ip, k) && k <= 32
    ensures ip + Pow2(k) <= WORD
  {
    Pow2Word();
    ZeroAligned(32);
    AlignedShift(0, 32, 32);
    AlignedWeaken(Pow2(32), 32, k);
    AlignedApart(ip, Pow2(32), k);
  }

  lemma ZeroAligned(k: nat)
    ensures Aligned(0, k)
  {}

  ghost predicate AllValid(s: seq<Cidr>) {
    forall i :: 0 <= i < |s| ==> s[i].Valid()
  }

  // The addresses a list of blocks denotes.
  ghost predicate Covers(s: seq<Cidr>, a: int)
    requires AllValid(s)
  {
    exists i :: 0 <= i < |s| && s[i].Has(a)
  }

  ghost function Holder(s: seq<Cidr>, a: int): (i: nat)
    requires AllValid(s) && Covers(s, a)
    ensures i < |s| && s[i].Has(a)
  {
    var i :| 0 <= i < |s| && s[i].Has(a);
    i
  }

  ghost predicate CoversExactly(s: seq<Cidr>, left: int, right: int) {
    && AllValid(s)
    && forall a {:trigger Covers(s, a)} :: Covers(s, a) <==> left <= a <= right
  }

  ghost predicate Sorted(s: seq<Cidr>) {
    forall i, j :: 0 <= i < j < |s| ==> s[i].Before(s[j])
  }

  // The order of the blocks in terms of their ranges: by start, shorter ones first.
  lemma OrderOfRanges(s: seq<Cidr>)
    requires AllValid(s)
    ensures Sorted(s) <==> forall i, j :: 0 <= i < j < |s| ==> InRangeOrder(s[i].Range(), s[j].Range())
  {
    forall i, j | 0 <= i < j < |s| ensures s[i].Before(s[j]) <==> InRangeOrder(s[i].Range(), s[j].Range()) {
      if s[i].ip == s[j].ip { BlockSizes(s[i], s[j]); }
    }
  }

  predicate InRangeOrder(r: (int, int), q: (int, int)) {
    r.0 < q.0 || (r.0 == q.0 && r.1 <= q.1)
  }

  // The longer the prefix, the smaller the block.
  lemma BlockSizes(c: Cidr, d: Cidr)
    requires c.Valid() && d.Valid() && c.ip == d.ip
    ensures c.prefix >= d.prefix <==> c.Range().1 <= d.Range().1
  {
    if c.prefix >= d.prefix { Pow2Monotone(32 - c.prefix, 32 - d.prefix); }
    else { Pow2Monotone(32 - d.prefix, 32 - c.prefix); }
  }

  // Ascending blocks with no address in common.
  ghost predicate Separated(s: seq<Cidr>)
    requires AllValid(s)
  {
    forall i, j :: 0 <= i < j < |s| ==> s[i].Range().1 < s[j].Range().0
  }

  // `Vec::sort`
  function Sort(s: seq<Cidr>): (r: seq<Cidr>)
    ensures Sorted(r) && multiset(r) == multiset(s)
  {
    if s == [] then [] else
      assert multiset(s) == multiset{s[0]} + multiset(s[1..]) by { assert s == [s[0]] + s[1..]; }
      Insert(s[0], Sort(s[1..]))
  }

  function Insert(c: Cidr, s: seq<Cidr>): (r: seq<Cidr>)
    requires Sorted(s)
    ensures Sorted(r) && multiset(r) == multiset{c} + multiset(s)
  {
    if s == [] || c.Before(s[0]) then
      FirstBefore(c, s);
      [c] + s
    else
      SortedTail(s);
      var t := Insert(c, s[1..]);
      SortedCons(c, s, t);
      [s[0]] + t
  }

  lemma SortedTail(s: seq<Cidr>)
    requires Sorted(s) && s != []
    ensures Sorted(s[1..])
  {}

  lemma FirstBefore(c: Cidr, s: seq<Cidr>)
    requires Sorted(s) && (s == [] || c.Before(s[0]))
    ensures forall x :: x in s ==> c.Before(x)
  {
    forall x | x in s ensures c.Before(x) {
      var i :| 0 <= i < |s| && s[i] == x;
      if i > 0 { assert s[0].Before(s[i]); }
    }
  }

  lemma SortedCons(c: Cidr, s: seq<Cidr>, t: seq<Cidr>)
    requires s != [] && Sorted(s) && s[0].Before(c)
    requires Sorted(t) && multiset(t) == multiset{c} + multiset(s[1..])
    ensures Sorted([s[0]] + t) && multiset([s[0]] + t) == multiset{c} + multiset(s)
  {
    assert s == [s[0]] + s[1..];
    forall i | 0 <= i < |t| ensures s[0].Before(t[i]) {
      assert t[i] in multiset(t);
      FirstBefore(s[0], s);
    }
  }

  // Rearranging a list changes neither its members nor what it covers.
  lemma SameMembers(s: seq<Cidr>, r: seq<Cidr>)
    requires multiset(r) == multiset(s)
    ensures |r| == |s| && forall c :: c in r <==> c in s
  {
    assert |multiset(r)| == |r| && |multiset(s)| == |s|;
    forall c ensures c in r <==> c in s { assert c in multiset(r) <==> c in multiset(s); }
  }

  lemma SameCover(s: seq<Cidr>, r: seq<Cidr>)
    requires multiset(r) == multiset(s) && AllValid(s)
    ensures AllValid(r) && forall a :: Covers(r, a) <==> Covers(s, a)
  {
    SameMembers(s, r);
    forall i | 0 <= i < |r| ensures r[i].Valid() { assert r[i] in s; }
    forall a ensures Covers(r, a) <==> Covers(s, a) {
      if Covers(r, a) { var i :| 0 <= i < |r| && r[i].Has(a); assert r[i] in s; }
      if Covers(s, a) { var i :| 0 <= i < |s| && s[i].Has(a); assert s[i] in r; }
    }
  }

  // Blocks are laminar: a block meeting a block at least as large lies inside it,
  lemma Laminar(c: Cidr, d: Cidr, a: int)
    requires c.Valid() && d.Valid() && c.prefix >= d.prefix && c.Has(a) && d.Has(a)
    ensures d.Range().0 <= c.Range().0 && c.Range().1 <= d.Range().1
  {
    var k, l := 32 - c.prefix, 32 - d.prefix;
    AlignedWeaken(d.ip, l, k);
    AlignedShift(d.ip, l, k);
    if c.ip < d.ip { AlignedApart(c.ip, d.ip, k); }
    if c.ip < d.ip + Pow2(l) { AlignedApart(c.ip, d.ip + Pow2(l), k); }
  }

  // and a block meeting a smaller one contains that one's parent, of twice the size.
  lemma ContainsParent(c: Cidr, d: Cidr, a: int)
    requires c.Valid() && d.Valid() && c.prefix > d.prefix && c.Has(a) && d.Has(a)
    ensures d.Range().0 <= c.ParentStart() && c.ParentEnd() <= d.Range().1
  {
    var k, l := 33 - c.prefix, 32 - d.prefix;
    Laminar(c, d, a);
    ParentInside(c.ip, d.ip, k, l);
  }

  lemma ParentInside(x: nat, y: nat, k: nat, l: nat)
    requires Aligned(y, l) && k <= l && y <= x < y + Pow2(l)
    ensures y <= ClearLow(x, k) && ClearLow(x, k) + Pow2(k) <= y + Pow2(l)
  {
    var p := ClearLow(x, k);
    ClearLowAligned(x, k);
    AlignedWeaken(y, l, k);
    AlignedShift(y, l, k);
    AlignedApartIfLess(p, y + Pow2(l), k);
    AlignedApartIfLess(p, y, k);
  }

  // A block inside [left, right] whose parent is not inside it.
  ghost predicate Maximal(c: Cidr, left: int, right: int) {
    && c.Valid()
    && left <= c.Range().0 && c.Range().1 <= right
    && !(left <= c.ParentStart() && c.ParentEnd() <= right)
  }

  // A maximal block contains every block inside [left, right] that it meets.
  lemma MaximalSwallows(c: Cidr, d: Cidr, a: int, left: int, right: int)
    requires Maximal(c, left, right)
    requires d.Valid() && left <= d.Range().0 && d.Range().1 <= right && c.Has(a) && d.Has(a)
    ensures c.Range().0 <= d.Range().0 && d.Range().1 <= c.Range().1
  {
    if c.prefix > d.prefix { ContainsParent(c, d, a); } else { Laminar(d, c, a); }
  }

  // Disjoint maximal blocks: no list of blocks covering the same range is shorter,
  // because each of them must hold a separate member of that list.
  lemma MaximalIsMinimal(s: seq<Cidr>, other: seq<Cidr>, left: int, right: int)
    requires AllValid(s) && Separated(s)
    requires forall i :: 0 <= i < |s| ==> Maximal(s[i], left, right)
    requires CoversExactly(other, left, right)
    ensures |s| <= |other|
  {
    forall i | 0 <= i < |s| ensures Covers(other, s[i].ip) { assert s[i].Range().0 == s[i].ip; }
    var f := seq(|s|, i requires 0 <= i < |s| => Holder(other, s[i].ip));
    forall i, j | 0 <= i < j < |s| ensures f[i] != f[j] {
      MemberInside(other, f[i], left, right);
      MemberInside(other, f[j], left, right);
      MaximalSwallows(s[i], other[f[i]], s[i].ip, left, right);
      MaximalSwallows(s[j], other[f[j]], s[j].ip, left, right);
    }
    Pigeonhole(f, |other|);
  }

  lemma MemberInside(other: seq<Cidr>, i: nat, left: int, right: int)
    requires CoversExactly(other, left, right) && i < |other|
    ensures left <= other[i].Range().0 && other[i].Range().1 <= right
  {
    var d := other[i];
    assert d.Has(d.Range().0) && d.Has(d.Range().1);
    assert Covers(other, d.Range().0) && Covers(other, d.Range().1);
  }

  lemma {:induction false} Pigeonhole(f: seq<int>, m: nat)
    requires forall i :: 0 <= i < |f| ==> 0 <= f[i] < m
    requires forall i, j :: 0 <= i < j < |f| ==> f[i] != f[j]
    ensures |f| <= m
    decreases |f|
  {
    if f != [] {
      var last, g := f[|f| - 1], f[..|f| - 1];
      // close the hole left by `last`
      var h := seq(|g|, i requires 0 <= i < |g| => if g[i] > last then g[i] - 1 else g[i]);
      Pigeonhole(h, m - 1);
    }
  }
}
