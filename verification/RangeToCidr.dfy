// `range_to_cidr` of src/wintun/ipset.rs: cutting an address range into aligned
// power-of-two blocks with two bit-driven loops.
module RangeToCidrs {
  import opened Common
  import opened Bits
  import opened Cidrs

  // Blocks laid end to end from `from` to `to`, none of which can be enlarged
  // inside [left, right].
  ghost predicate Tiles(s: seq<Cidr>, left: int, right: int, from: int, to: int) {
    if s == [] then from == to + 1
    else
      && Maximal(s[0], left, right) && s[0].Range().0 == from
      && Tiles(s[1..], left, right, s[0].Range().1 + 1, to)
  }

  ghost predicate AllMaximal(s: seq<Cidr>, left: int, right: int) {
    forall i :: 0 <= i < |s| ==> Maximal(s[i], left, right)
  }

  lemma {:induction false} TilesMembers(s: seq<Cidr>, left: int, right: int, from: int, to: int)
    requires Tiles(s, left, right, from, to)
    ensures AllMaximal(s, left, right) && from <= to + 1
    ensures forall i :: 0 <= i < |s| ==> from <= s[i].Range().0 && s[i].Range().1 <= to
  {
    if s != [] {
      TilesMembers(s[1..], left, right, s[0].Range().1 + 1, to);
      assert forall i :: 0 < i < |s| ==> s[i] == s[1..][i - 1];
    }
  }

  lemma {:induction false} TilesSeparated(s: seq<Cidr>, left: int, right: int, from: int, to: int)
    requires Tiles(s, left, right, from, to)
    ensures AllValid(s) && Separated(s) && Sorted(s)
  {
    TilesMembers(s, left, right, from, to);
    if s != [] {
      TilesSeparated(s[1..], left, right, s[0].Range().1 + 1, to);
      TilesMembers(s[1..], left, right, s[0].Range().1 + 1, to);
      assert forall i :: 0 < i < |s| ==> s[i] == s[1..][i - 1];
    }
  }

  lemma {:induction false} TilesCover(s: seq<Cidr>, left: int, right: int, from: int, to: int, a: int)
    requires Tiles(s, left, right, from, to) && AllValid(s)
    ensures Covers(s, a) <==> from <= a <= to
  {
    TilesMembers(s, left, right, from, to);
    if s != [] && from <= a <= to {
      if s[0].Has(a) { assert Covers(s, a); }
      else {
        TilesCover(s[1..], left, right, s[0].Range().1 + 1, to, a);
        var i :| 0 <= i < |s[1..]| && s[1..][i].Has(a);
        assert s[i + 1].Has(a);
      }
    }
  }

  lemma {:induction false} TilesConcat(s: seq<Cidr>, r: seq<Cidr>, left: int, right: int, from: int, mid: int, to: int)
    requires Tiles(s, left, right, from, mid) && Tiles(r, left, right, mid + 1, to)
    ensures Tiles(s + r, left, right, from, to)
  {
    if s == [] { assert s + r == r; }
    else {
      TilesConcat(s[1..], r, left, right, s[0].Range().1 + 1, mid, to);
      assert (s + r)[1..] == s[1..] + r;
    }
  }

  // The order of blocks is total and antisymmetric, so sorting has one result only.
  lemma {:induction false} OneOrder(s: seq<Cidr>, r: seq<Cidr>)
    requires Sorted(s) && Sorted(r) && multiset(s) == multiset(r)
    ensures s == r
    decreases |s|
  {
    SameMembers(s, r);
    if s != [] {
      assert s[0] in r && r[0] in s;
      LeastFirst(s, r[0]);
      LeastFirst(r, s[0]);
      Remaining(s);
      Remaining(r);
      OneOrder(s[1..], r[1..]);
      SameParts(s, r);
    }
  }

  lemma SameParts(s: seq<Cidr>, r: seq<Cidr>)
    requires s != [] && r != [] && s[0] == r[0] && s[1..] == r[1..]
    ensures s == r
  {
    assert s == [s[0]] + s[1..] && r == [r[0]] + r[1..];
  }

  lemma Remaining(s: seq<Cidr>)
    requires s != []
    ensures multiset(s[1..]) == multiset(s) - multiset{s[0]}
  {
    assert s == [s[0]] + s[1..];
  }

  lemma LeastFirst(s: seq<Cidr>, c: Cidr)
    requires Sorted(s) && c in s
    ensures s[0].Before(c) && (c.Before(s[0]) ==> c == s[0])
  {}

  // The u32 arithmetic of `range_to_cidr` stays in range exactly here: a range
  // from 0 makes `right = r - 1` underflow, a range to 2^32 - 1 makes
  // `1 << shift` shift by 32; one-address and empty ranges are fine everywhere.
  predicate InRange(left: U32, right: U32) {
    left >= right || (1 <= left && right < U32_MAX)
  }

  // State of the first loop: `high` tiles (right, right0] with maximal blocks, and
  // what is cut off so far is smaller than the alignment 2^top of the new edge.
  ghost predicate HighPart(high: seq<Cidr>, left0: int, right0: int, right: int, top: nat) {
    && Tiles(high, left0, right0, right + 1, right0)
    && right >= 0 && Aligned(right + 1, top) && right0 - right < Pow2(top)
  }

  // State of the second loop, mirrored: `low` tiles [left0, left).
  ghost predicate LowPart(low: seq<Cidr>, left0: int, right0: int, left: int, right: int, bot: nat) {
    && Tiles(low, left0, right0, left0, left - 1)
    && (left <= right ==> left >= 0 && Aligned(left, bot) && left - left0 < Pow2(bot))
  }

  // The aligned block of size 2^k that ends at `right` starts before `left`.
  predicate WholeBlockBelow(left: U32, right: U32, k: nat) {
    k <= 31 && Pow2(k) <= right + 1 && Aligned(right + 1 - Pow2(k), k) && right + 1 - Pow2(k) < left
  }

  // The block cut off at the right edge: it ends there, cannot be enlarged, and
  // leaves an edge aligned to twice its size.
  lemma HighBlock(left0: U32, right0: U32, right: U32, top: nat)
    requires right <= right0 < U32_MAX && top <= 31
    requires Aligned(right + 1, top) && right0 - right < Pow2(top)
    ensures var s := TrailingOnes(right, 32); var r := ClearLow(right, s);
      && top <= s < 32 && r <= right && r + Pow2(s) == right + 1
      && Aligned(r, s) && Aligned(r, s + 1)
      && right0 - r + 1 < Pow2(s + 1)
      && New(r, 32 - s) == Some(Cidr(r, 32 - s))
      && (left0 <= r ==> Maximal(Cidr(r, 32 - s), left0, right0))
      && (r > 0 ==> s <= 30)
  {
    var s := TrailingOnes(right, 32);
    var r := ClearLow(right, s);
    Pow2Word();
    TrailingOnesBlock(right, 32);
    TrailingOnesAtLeast(right, 32, top);
    Pow2Monotone(top, s);
    if r > 0 && s == 31 { ZeroAligned(31); AlignedApart(0, r, 31); assert false; }
    AlignedIsClear(r, s + 1);
  }

  lemma HighStep(high: seq<Cidr>, left0: U32, right0: U32, right: U32, top: nat, s: nat, r: nat)
    requires right <= right0 < U32_MAX && top <= 31 && HighPart(high, left0, right0, right, top)
    requires s == TrailingOnes(right, 32) && r == ClearLow(right, s)
    ensures top <= s < 32 && r <= right && New(r, 32 - s) == Some(Cidr(r, 32 - s))
    ensures left0 <= r && r > 0 ==> s <= 30 && HighPart([Cidr(r, 32 - s)] + high, left0, right0, r - 1, s + 1)
    ensures left0 > r ==> WholeBlockBelow(left0, right, s)
  {
    HighBlock(left0, right0, right, top);
    if left0 <= r { assert ([Cidr(r, 32 - s)] + high)[1..] == high; }
  }

  // State of the first loop, with the blocks in the order pushed.
  ghost predicate CutSoFar(cidrs: seq<Cidr>, high: seq<Cidr>, left: U32, right0: U32, right: U32, top: nat) {
    && right <= right0 && (right < right0 ==> left <= right0 < U32_MAX)
    && multiset(cidrs) == multiset(high) && |cidrs| <= top <= 31
    && (left > right0 ==> cidrs == []) && (left <= right0 ==> left <= right + 1)
    && HighPart(high, left, right0, right, top)
  }

  lemma CutStep(cidrs: seq<Cidr>, high: seq<Cidr>, left: U32, right0: U32, right: U32, top: nat, s: nat, r: nat)
    requires CutSoFar(cidrs, high, left, right0, right, top) && right0 < U32_MAX
    requires s == TrailingOnes(right, 32) && r == ClearLow(right, s)
    ensures s < 32 && r <= right && New(r, 32 - s) == Some(Cidr(r, 32 - s))
    ensures left <= r && r > 0 ==>
      CutSoFar(cidrs + [Cidr(r, 32 - s)], [Cidr(r, 32 - s)] + high, left, right0, r - 1, s + 1)
    ensures left > r ==> WholeBlockBelow(left, right, s)
  {
    HighStep(high, left, right0, right, top, s, r);
  }

  lemma CutStart(left: U32, right0: U32)
    ensures CutSoFar([], [], left, right0, right0, 0)
  {}

  // What the first loop leaves when the next block does not fit.
  lemma CutEnd(cidrs: seq<Cidr>, high: seq<Cidr>, left: U32, right0: U32, right: U32, top: nat, whole: nat)
    requires CutSoFar(cidrs, high, left, right0, right, top) && left != right0 && right < U32_MAX
    requires WholeBlockBelow(left, right, whole)
    ensures InRange(left, right0) && multiset(cidrs) == multiset(high) && |cidrs| <= 31
    ensures right <= right0 && Tiles(high, left, right0, right + 1, right0)
    ensures left > right0 ==> cidrs == [] && right == right0
    ensures left < right0 ==> left <= right + 1
  {}

  lemma ShiftOverflows(right: U32)
    ensures TrailingOnes(right, 32) <= 32
    ensures TrailingOnes(right, 32) == 32 <==> right == U32_MAX
  {
    Pow2Word();
    TrailingOnesBlock(right, 32);
  }

  // The block cut off at the left edge: it is smaller than the whole block below
  // `right`, so it fits, and its size grows from one cut to the next.
  lemma LowBlock(left0: U32, left: U32, right: U32, bot: nat, k: nat, s: nat, next: nat)
    requires 1 <= left0 <= left <= right && bot <= 31 && WholeBlockBelow(left, right, k)
    requires Aligned(left, bot) && left - left0 < Pow2(bot)
    requires s == TrailingZeros(left, 32) && next == left + Pow2(s)
    ensures bot <= s < k && left - left0 < Pow2(s) && next <= right + 1
    ensures Aligned(next, s + 1) && next - left0 < Pow2(s + 1)
  {
    Pow2Word();
    TrailingZerosBlock(left, 32);
    TrailingZerosAtLeast(left, 32, bot);
    Pow2Monotone(bot, s);
    var r := right + 1 - Pow2(k);
    if s >= k { AlignedWeaken(left, s, k); AlignedApart(r, left, k); assert false; }
    AlignedWeaken(r, k, s);
    AlignedShift(r, k, s);
    AlignedApart(left, right + 1, s);
    AlignedShift(left - Pow2(s), s + 1, s + 1);
    assert left - Pow2(s) + Pow2(s + 1) == next;
  }

  lemma LowBlockMaximal(left0: U32, right0: U32, left: U32, s: nat)
    requires 1 <= left0 <= left && left - left0 < Pow2(s)
    requires s == TrailingZeros(left, 32) && left + Pow2(s) <= right0 + 1
    ensures s < 32 && New(left, 32 - s) == Some(Cidr(left, 32 - s))
    ensures Maximal(Cidr(left, 32 - s), left0, right0)
    ensures Cidr(left, 32 - s).Range() == (left, left + Pow2(s) - 1)
  {
    LowBlockParent(left, s);
    LowBlockValid(left, s);
  }

  lemma LowBlockValid(left: U32, s: nat)
    requires s < 32 && Aligned(left, s)
    ensures New(left, 32 - s) == Some(Cidr(left, 32 - s)) && Cidr(left, 32 - s).Valid()
  {
    Pow2Word();
  }

  // Twice the block would start before it.
  lemma LowBlockParent(left: U32, s: nat)
    requires left > 0 && s == TrailingZeros(left, 32)
    ensures s < 32 && Aligned(left, s) && Pow2(s) <= left && ClearLow(left, s + 1) == left - Pow2(s)
  {
    Pow2Word();
    TrailingZerosBlock(left, 32);
    ClearLowUnique(left, left - Pow2(s), s + 1);
  }

  lemma LowStep(low: seq<Cidr>, left0: U32, right0: U32, left: U32, right: U32, bot: nat, k: nat, s: nat, next: int)
    requires 1 <= left0 <= left <= right <= right0 && bot <= 31 && k <= 31
    requires LowPart(low, left0, right0, left, right, bot)
    requires WholeBlockBelow(left, right, k)
    requires s == TrailingZeros(left, 32) && next == left + Pow2(s)
    ensures bot <= s < k && next <= right + 1 && New(left, 32 - s) == Some(Cidr(left, 32 - s))
    ensures LowPart(low + [Cidr(left, 32 - s)], left0, right0, next, right, s + 1)
  {
    LowBlock(left0, left, right, bot, k, s, next);
    LowBlockMaximal(left0, right0, left, s);
    LowPartGrows(low, Cidr(left, 32 - s), left0, right0, left, right, next, s + 1);
  }

  lemma LowPartGrows(low: seq<Cidr>, c: Cidr, left0: U32, right0: U32, left: U32, right: U32, next: int, bot: nat)
    requires Tiles(low, left0, right0, left0, left - 1) && Maximal(c, left0, right0)
    requires c.Range().0 == left && c.Range().1 == next - 1
    requires 0 <= next && Aligned(next, bot) && next - left0 < Pow2(bot)
    ensures LowPart(low + [c], left0, right0, next, right, bot)
  {
    TilesAppend(low, c, left0, right0, left0, left - 1);
  }

  lemma TilesAppend(s: seq<Cidr>, c: Cidr, left: int, right: int, from: int, to: int)
    requires Tiles(s, left, right, from, to) && Maximal(c, left, right) && c.Range().0 == to + 1
    ensures Tiles(s + [c], left, right, from, c.Range().1)
  {
    assert [c][1..] == [];
    TilesConcat(s, [c], left, right, from, to, c.Range().1);
  }

  // Ascending, disjoint, maximal blocks covering exactly [left, right], and no
  // list of blocks that covers it is shorter.
  ghost predicate Decomposition(s: seq<Cidr>, left: int, right: int) {
    && CoversExactly(s, left, right) && Separated(s) && Sorted(s)
    && AllMaximal(s, left, right)
    && forall other :: CoversExactly(other, left, right) ==> |s| <= |other|
  }

  // What the two tiled parts give the sorted vector.
  lemma Finish(cidrs: seq<Cidr>, low: seq<Cidr>, high: seq<Cidr>, left: U32, mid: int, right: U32)
    requires multiset(cidrs) == multiset(low + high)
    requires Tiles(low, left, right, left, mid) && Tiles(high, left, right, mid + 1, right)
    ensures Decomposition(Sort(cidrs), left, right) && |Sort(cidrs)| == |cidrs|
  {
    var tiles := low + high;
    TilesConcat(low, high, left, right, left, mid, right);
    TilesMembers(tiles, left, right, left, right);
    TilesSeparated(tiles, left, right, left, right);
    forall a ensures Covers(tiles, a) <==> left <= a <= right { TilesCover(tiles, left, right, left, right, a); }
    SameMembers(cidrs, tiles);
    OneOrder(Sort(cidrs), tiles);
    forall other | CoversExactly(other, left, right) ensures |tiles| <= |other| {
      MaximalIsMinimal(tiles, other, left, right);
    }
  }

  lemma OneAddress(a: U32)
    ensures Decomposition([New(a, 32).value], a, a)
  {
    var c := New(a, 32).value;
    assert [c] + [] == [c];
    Finish([c], [c], [], a, a, a);
    OneOrder(Sort([c]), [c]);
  }

  lemma EmptyRange(left: U32, right: U32)
    requires left > right
    ensures Decomposition(Sort([]), left, right)
  {}

  method RangeToCidr(left: U32, right: U32) returns (res: Option<seq<Cidr>>)
    ensures res.Some? <==> InRange(left, right)
    ensures res.Some? <==> left >= right || (left != 0 && right != 0xFFFF_FFFF)
    ensures res.Some? ==> Decomposition(res.value, left, right)
    ensures res.Some? ==> |res.value| <= 62
  {
    if left == right {
      OneAddress(left);
      return Some([New(left, 32).value]);
    }
    var high, edge, tiles, whole := CutHigh(left, right);
    if edge.None? { return None; }
    var low := CutLow(left, right, edge.value, whole);
    if left < right {
      assert multiset(high + low) == multiset(low + tiles);
      Finish(high + low, low, tiles, left, edge.value, right);
    }
    else { EmptyRange(left, right); }
    res := Some(Sort(high + low));
  }

  // The first loop: cut blocks off the right edge while they fit.  Returns them in
  // the order pushed, and the new right edge; `tiles` has the same blocks ascending.
  method CutHigh(left: U32, right0: U32)
    returns (cidrs: seq<Cidr>, edge: Option<U32>, ghost tiles: seq<Cidr>, ghost whole: nat)
    requires left != right0
    ensures edge.Some? <==> InRange(left, right0)
    ensures edge.Some? ==> multiset(cidrs) == multiset(tiles) && |cidrs| <= 31
    ensures edge.Some? ==> edge.value <= right0 && Tiles(tiles, left, right0, edge.value + 1, right0)
    ensures edge.Some? && left > right0 ==> cidrs == [] && edge.value == right0
    ensures edge.Some? && left < right0 ==> left <= edge.value + 1 && WholeBlockBelow(left, edge.value, whole)
  {
    var right: U32 := right0;
    cidrs, tiles := [], [];
    ghost var top: nat := 0;
    CutStart(left, right0);
    while true
      invariant CutSoFar(cidrs, tiles, left, right0, right, top)
      decreases right
    {
      ShiftOverflows(right);
      var shift := TrailingOnes(right, 32);
      if shift == 32 { return cidrs, None, tiles, 0; }  // `1 << shift` overflows
      var r := ClearLow(right, shift);
      CutStep(cidrs, tiles, left, right0, right, top, shift, r);
      if left > r {
        CutEnd(cidrs, tiles, left, right0, right, top, shift);
        return cidrs, Some(right), tiles, shift;
      }
      var block := New(r, 32 - shift).value;
      cidrs := cidrs + [block];
      if r == 0 { return cidrs, None, tiles, 0; }  // `right = r - 1` underflows
      tiles, top, right := [block] + tiles, shift + 1, r - 1;
    }
  }

  // State of the second loop.
  ghost predicate LowSoFar(cidrs: seq<Cidr>, left0: U32, right0: U32, left: U32, right: U32, bot: nat) {
    && left0 <= left && (left0 > right0 ==> left == left0 && cidrs == [])
    && (left0 < right0 ==> left <= right + 1) && |cidrs| <= bot <= 31
    && LowPart(cidrs, left0, right0, left, right, bot)
  }

  lemma LowStart(left0: U32, right0: U32, right: U32)
    requires left0 < right0 ==> left0 <= right + 1
    ensures LowSoFar([], left0, right0, left0, right, 0)
  {}

  lemma LowRound(cidrs: seq<Cidr>, left0: U32, right0: U32, left: U32, right: U32,
                 bot: nat, whole: nat, s: nat, next: nat)
    requires LowSoFar(cidrs, left0, right0, left, right, bot) && left <= right <= right0 && left0 != right0
    requires InRange(left0, right0) && (left0 < right0 ==> WholeBlockBelow(left0, right, whole))
    requires s == TrailingZeros(left, 32) && next == left + Pow2(s)
    ensures s <= 30 && next <= right + 1 && New(left, 32 - s) == Some(Cidr(left, 32 - s))
    ensures LowSoFar(cidrs + [Cidr(left, 32 - s)], left0, right0, next, right, s + 1)
  {
    LowStep(cidrs, left0, right0, left, right, bot, whole, s, next);
  }

  lemma LowEnd(cidrs: seq<Cidr>, left0: U32, right0: U32, left: U32, right: U32, bot: nat)
    requires LowSoFar(cidrs, left0, right0, left, right, bot) && left > right
    ensures |cidrs| <= 31 && (left0 > right0 ==> cidrs == [])
    ensures left0 < right0 ==> Tiles(cidrs, left0, right0, left0, right)
  {}

  // The second loop: cut blocks off the left edge up to `right`.
  method CutLow(left0: U32, right0: U32, right: U32, ghost whole: nat) returns (cidrs: seq<Cidr>)
    requires right <= right0 && InRange(left0, right0) && left0 != right0
    requires left0 < right0 ==> left0 <= right + 1 && WholeBlockBelow(left0, right, whole)
    requires left0 > right0 ==> right == right0
    ensures left0 > right0 ==> cidrs == []
    ensures left0 < right0 ==> Tiles(cidrs, left0, right0, left0, right)
    ensures |cidrs| <= 31
  {
    var left: U32 := left0;
    cidrs := [];
    ghost var bot: nat := 0;
    LowStart(left0, right0, right);
    while left <= right
      invariant LowSoFar(cidrs, left0, right0, left, right, bot)
    {
      var shift := TrailingZeros(left, 32);
      var next := left + Pow2(shift);
      LowRound(cidrs, left0, right0, left, right, bot, whole, shift, next);
      cidrs := cidrs + [New(left, 32 - shift).value];
      bot := shift + 1;
      left := next;
    }
    LowEnd(cidrs, left0, right0, left, right, bot);
  }
}
