// `IPSet` of src/wintun/ipset.rs: a list of address blocks and its complement.
module IpSets {
  import opened Common
  import opened Bits
  import opened Cidrs
  import opened RangeToCidrs

  // Address a lies strictly between block i and whatever comes before it.
  ghost predicate Gap(s: seq<Cidr>, i: int, a: int)
    requires AllValid(s) && 0 <= i < |s|
  {
    (if i == 0 then 0 else s[i - 1].Range().1) < a < s[i].Range().0
  }

  ghost predicate InGaps(s: seq<Cidr>, a: int)
    requires AllValid(s)
  {
    exists i :: 0 <= i < |s| && Gap(s, i, a)
  }

  ghost function LastEnd(s: seq<Cidr>): int
    requires AllValid(s)
  {
    if s == [] then 0 else s[|s| - 1].Range().1
  }

  // Wherever the next block leaves a gap, no earlier block reaches into it.
  predicate GapsClear(s: seq<Cidr>)
    requires forall i :: 0 <= i < |s| ==> 1 <= s[i].prefix <= 32
  {
    forall j, i, k :: 0 <= j <= i && k == i + 1 < |s| && s[i].Range().1 + 1 < s[k].Range().0
      ==> s[j].Range().1 <= s[i].Range().1
  }

  // Exactly the addresses of [1, last right end] outside every block.
  ghost predicate GapsAreComplement(s: seq<Cidr>)
    requires AllValid(s)
  {
    forall a {:trigger InGaps(s, a)} :: InGaps(s, a) <==> 1 <= a <= LastEnd(s) && !Covers(s, a)
  }

  // `!set` is the complement up to the last right end if and only if the sorted
  // blocks are GapsClear; a block nested in a longer one may break this.
  lemma ComplementIffGapsClear(s: seq<Cidr>)
    requires AllValid(s) && Sorted(s)
    ensures GapsAreComplement(s) <==> GapsClear(s)
  {
    if GapsClear(s) {
      forall a ensures InGaps(s, a) <==> 1 <= a <= LastEnd(s) && !Covers(s, a) {
        if InGaps(s, a) { GapOutside(s, a); }
        if 1 <= a <= LastEnd(s) && !Covers(s, a) { OutsideGap(s, a, 0); }
      }
    } else {
      ClearNecessary(s);
    }
  }

  lemma ClearNecessary(s: seq<Cidr>)
    requires AllValid(s) && Sorted(s) && !GapsClear(s)
    ensures exists a :: InGaps(s, a) && Covers(s, a)
  {
    var j, i, k :| 0 <= j <= i && k == i + 1 < |s| && s[i].Range().1 + 1 < s[k].Range().0
      && s[j].Range().1 > s[i].Range().1;
    var a := s[i].Range().1 + 1;
    assert Gap(s, k, a);
    assert j < i ==> s[j].Before(s[i]);
    assert s[j].Has(a);
    assert InGaps(s, a) && Covers(s, a);
  }

  lemma GapOutside(s: seq<Cidr>, a: int)
    requires AllValid(s) && Sorted(s) && GapsClear(s) && InGaps(s, a)
    ensures 1 <= a <= LastEnd(s) && !Covers(s, a)
  {
    var i :| 0 <= i < |s| && Gap(s, i, a);
    forall j | 0 <= j < |s| ensures !s[j].Has(a) {
      if j > i { assert s[i].Before(s[j]); }
      if j < i { assert s[i - 1].Range().1 + 1 < s[i].Range().0; assert s[j].Range().1 <= s[i - 1].Range().1; }
    }
    if i < |s| - 1 { assert s[i].Before(s[|s| - 1]); }
  }

  // An uncovered address not above the last block lies in the gap before the
  // first block that starts beyond it.
  lemma {:induction false} OutsideGap(s: seq<Cidr>, a: int, i: nat)
    requires AllValid(s) && i < |s| && 1 <= a <= LastEnd(s) && !Covers(s, a)
    requires i > 0 ==> s[i - 1].Range().0 <= a
    ensures InGaps(s, a)
    decreases |s| - i
  {
    if i > 0 { assert !s[i - 1].Has(a); }
    assert !s[i].Has(a);
    if a < s[i].Range().0 { assert Gap(s, i, a); }
    else { OutsideGap(s, a, i + 1); }
  }

  // ---- the same condition on the blocks as they were added, in any order

  // The largest right end, 0 without blocks.
  function MaxEnd(data: seq<Cidr>): int
    requires forall i :: 0 <= i < |data| ==> 1 <= data[i].prefix <= 32
  {
    if data == [] then 0 else
    var m := MaxEnd(data[1..]);
    if data[0].Range().1 > m then data[0].Range().1 else m
  }

  // d is the last block before a gap, and c reaches over its end.
  ghost predicate LeaksAt(data: seq<Cidr>, c: Cidr, d: Cidr, n: Cidr)
    requires AllValid(data)
  {
    && c in data && d in data && n in data
    && c.Valid() && d.Valid() && n.Valid()
    && c.Range().0 < d.Range().0 && d.Range().1 < c.Range().1
    && d.Range().1 + 1 < n.Range().0
    && forall e :: e in data && e.Valid() ==>
         (e.Range().0 <= d.Range().0 || e.Range().0 > d.Range().1 + 1)
         && (e.Range().0 == d.Range().0 ==> e.Range().1 <= d.Range().1)
  }

  ghost predicate Leaks(data: seq<Cidr>)
    requires AllValid(data)
  {
    exists c, d, n :: LeaksAt(data, c, d, n)
  }

  lemma LeakOfGap(s: seq<Cidr>, j: nat, i: nat)
    requires AllValid(s) && Sorted(s) && j <= i < |s| - 1
    requires s[i].Range().1 + 1 < s[i + 1].Range().0 && s[j].Range().1 > s[i].Range().1
    ensures LeaksAt(s, s[j], s[i], s[i + 1])
  {
    OrderOfRanges(s);
    var d := s[i];
    forall e | e in s && e.Valid()
      ensures (e.Range().0 <= d.Range().0 || e.Range().0 > d.Range().1 + 1)
        && (e.Range().0 == d.Range().0 ==> e.Range().1 <= d.Range().1)
    {
      var m :| 0 <= m < |s| && s[m] == e;
      if m < i { assert InRangeOrder(s[m].Range(), s[i].Range()); }
      if m > i + 1 { assert InRangeOrder(s[i + 1].Range(), s[m].Range()); }
    }
    assert InRangeOrder(s[j].Range(), s[i].Range());
  }

  // The last block from m on that starts no later than a bound.
  lemma {:induction false} LastStart(s: seq<Cidr>, bound: int, m: nat) returns (i: nat)
    requires AllValid(s) && Sorted(s) && m < |s| && s[m].Range().0 <= bound
    ensures m <= i < |s| && s[i].Range().0 <= bound
    ensures forall k :: i < k < |s| ==> s[k].Range().0 > bound
    decreases |s| - m
  {
    if m + 1 < |s| && s[m + 1].Range().0 <= bound { i := LastStart(s, bound, m + 1); }
    else {
      i := m;
      forall k | i < k < |s| ensures s[k].Range().0 > bound {
        if k > m + 1 { assert s[m + 1].Before(s[k]); }
      }
    }
  }

  lemma GapOfLeak(s: seq<Cidr>, c: Cidr, d: Cidr, n: Cidr)
    requires AllValid(s) && Sorted(s) && LeaksAt(s, c, d, n)
    ensures !GapsClear(s)
  {
    var i := LastOf(s, c, d, n);
    var k :| 0 <= k < |s| && s[k] == n;
    var j :| 0 <= j < |s| && s[j] == c;
    Ordered(s, i, j);
    Ordered(s, k, i);
    var next := i + 1;
    assert s[i].Range().1 + 1 < s[next].Range().0 && s[j].Range().1 > s[i].Range().1;
  }

  // The last block before the gap has the range of d.
  lemma LastOf(s: seq<Cidr>, c: Cidr, d: Cidr, n: Cidr) returns (i: nat)
    requires AllValid(s) && Sorted(s) && LeaksAt(s, c, d, n)
    ensures i < |s| && s[i].Range() == d.Range()
    ensures forall k :: i < k < |s| ==> s[k].Range().0 > d.Range().1 + 1
  {
    var m :| 0 <= m < |s| && s[m] == d;
    i := LastStart(s, d.Range().1 + 1, m);
    assert s[i] in s && s[i].Range().0 <= d.Range().0;
    Ordered(s, m, i);
  }

  lemma Ordered(s: seq<Cidr>, x: nat, y: nat)
    requires AllValid(s) && Sorted(s) && x < |s| && y < |s|
    ensures x <= y ==> InRangeOrder(s[x].Range(), s[y].Range())
  {
    OrderOfRanges(s);
  }

  lemma NotClearLeaks(s: seq<Cidr>)
    requires AllValid(s) && Sorted(s) && !GapsClear(s)
    ensures Leaks(s)
  {
    var j, i, k :| 0 <= j <= i && k == i + 1 < |s| && s[i].Range().1 + 1 < s[k].Range().0
      && s[j].Range().1 > s[i].Range().1;
    LeakOfGap(s, j, i);
  }

  lemma ClearIffNoLeak(s: seq<Cidr>)
    requires AllValid(s) && Sorted(s)
    ensures GapsClear(s) <==> !Leaks(s)
  {
    if !GapsClear(s) { NotClearLeaks(s); }
    if Leaks(s) {
      var c, d, n :| LeaksAt(s, c, d, n);
      GapOfLeak(s, c, d, n);
    }
  }

  lemma SameLeaks(data: seq<Cidr>, s: seq<Cidr>)
    requires AllValid(data) && AllValid(s) && multiset(s) == multiset(data)
    ensures Leaks(data) <==> Leaks(s)
  {
    SameMembers(data, s);
    if Leaks(data) { var c, d, n :| LeaksAt(data, c, d, n); assert LeaksAt(s, c, d, n); }
    if Leaks(s) { var c, d, n :| LeaksAt(s, c, d, n); assert LeaksAt(data, c, d, n); }
  }

  lemma {:induction false} MaxEndIs(data: seq<Cidr>)
    requires AllValid(data)
    ensures forall c :: c in data && c.Valid() ==> c.Range().1 <= MaxEnd(data)
    ensures data != [] ==> exists c :: c in data && c.Valid() && c.Range().1 == MaxEnd(data)
    ensures data == [] ==> MaxEnd(data) == 0
  {
    if data != [] {
      MaxEndIs(data[1..]);
      assert data == [data[0]] + data[1..] && data[0] in data;
      if data[1..] != [] {
        var c :| c in data[1..] && c.Valid() && c.Range().1 == MaxEnd(data[1..]);
        assert c in data;
      }
    }
  }

  // Nothing between the end of the last block and the largest right end is uncovered.
  lemma BeyondLast(data: seq<Cidr>, s: seq<Cidr>, a: int)
    requires AllValid(data) && AllValid(s) && Sorted(s) && multiset(s) == multiset(data)
    ensures LastEnd(s) <= MaxEnd(data)
    ensures LastEnd(s) < a <= MaxEnd(data) ==> Covers(s, a)
  {
    SameMembers(data, s);
    MaxEndIs(data);
    if s != [] {
      assert s[|s| - 1] in data;
      var c :| c in data && c.Valid() && c.Range().1 == MaxEnd(data);
      var k :| 0 <= k < |s| && s[k] == c;
      if k < |s| - 1 { assert s[k].Before(s[|s| - 1]); }
      if LastEnd(s) < a <= MaxEnd(data) { assert s[k].Has(a); }
    }
  }

  // The gaps of s are the complement of the blocks as added, up to their largest end.
  ghost predicate GapsComplement(s: seq<Cidr>, data: seq<Cidr>)
    requires AllValid(s) && AllValid(data)
  {
    forall a {:trigger InGaps(s, a)} :: InGaps(s, a) <==> 1 <= a <= MaxEnd(data) && !Covers(data, a)
  }

  lemma SameBounds(data: seq<Cidr>, s: seq<Cidr>, a: int)
    requires AllValid(data) && AllValid(s) && Sorted(s) && multiset(s) == multiset(data)
    ensures (1 <= a <= LastEnd(s) && !Covers(s, a)) <==> (1 <= a <= MaxEnd(data) && !Covers(data, a))
  {
    BeyondLast(data, s, a);
    SameCover(data, s);
  }

  lemma SameComplement(data: seq<Cidr>, s: seq<Cidr>)
    requires AllValid(data) && AllValid(s) && Sorted(s) && multiset(s) == multiset(data)
    ensures GapsComplement(s, data) <==> GapsAreComplement(s)
  {
    forall a ensures (1 <= a <= LastEnd(s) && !Covers(s, a)) <==> (1 <= a <= MaxEnd(data) && !Covers(data, a)) {
      SameBounds(data, s, a);
    }
  }

  // Whatever the order of the blocks, `!set` is the complement up to the largest right
  // end if and only if none of them leaks.
  lemma ComplementIffNoLeak(data: seq<Cidr>, s: seq<Cidr>)
    requires AllValid(data) && s == Sort(data)
    ensures AllValid(s) && (GapsComplement(s, data) <==> !Leaks(data))
  {
    SameCover(data, s);
    ClearIffNoLeak(s);
    SameLeaks(data, s);
    ComplementIffGapsClear(s);
    SameComplement(data, s);
  }

  // r holds exactly the addresses from 1 to the largest end that no block of data holds.
  ghost predicate IsComplement(r: seq<Cidr>, data: seq<Cidr>)
    requires AllValid(r) && AllValid(data)
  {
    forall a {:trigger Covers(r, a)} :: Covers(r, a) <==> 1 <= a <= MaxEnd(data) && !Covers(data, a)
  }

  lemma ResultMeaning(data: seq<Cidr>, s: seq<Cidr>, r: seq<Cidr>)
    requires AllValid(data) && s == Sort(data) && AllValid(s) && AllValid(r)
    requires forall a {:trigger Covers(r, a)} :: Covers(r, a) <==> InGaps(s, a)
    ensures IsComplement(r, data) <==> !Leaks(data)
  {
    ComplementIffNoLeak(data, s);
    assert IsComplement(r, data) ==> GapsComplement(s, data) by {
      if IsComplement(r, data) {
        forall a ensures InGaps(s, a) <==> 1 <= a <= MaxEnd(data) && !Covers(data, a) {
          assert Covers(r, a) <==> InGaps(s, a);
        }
      }
    }
  }

  // Blocks that share addresses only with blocks of the same start do not leak.
  lemma SameStartsDoNotLeak(data: seq<Cidr>)
    requires AllValid(data)
    requires forall c, d :: c in data && d in data && c.Valid() && d.Valid() && Meet(c, d) ==> c.ip == d.ip
    ensures !Leaks(data)
  {
    forall c, d, n ensures !LeaksAt(data, c, d, n) {
      if c in data && d in data && c.Valid() && d.Valid() { Reaching(c, d); }
    }
  }

  lemma Reaching(c: Cidr, d: Cidr)
    requires c.Valid() && d.Valid()
    ensures c.Range().0 < d.Range().0 && d.Range().1 < c.Range().1 ==> c.ip != d.ip && Meet(c, d)
  {
    assert c.Range().0 < d.Range().0 && d.Range().1 < c.Range().1 ==> c.Has(d.ip) && d.Has(d.ip);
  }

  ghost predicate Meet(c: Cidr, d: Cidr)
    requires c.Valid() && d.Valid()
  {
    exists a :: c.Has(a) && d.Has(a)
  }

  // The blocks that inverse mode adds: 0.0.0.0/8, 10.0.0.0/8, 127.0.0.0/8,
  // 169.254.0.0/16, 172.16.0.0/12, 192.168.0.0/16, 224.0.0.0/4, 240.0.0.0/4 and
  // 255.255.255.255/32.
  const RESERVED: seq<(U32, nat)> := [
    (0, 8), (0x0A00_0000, 8), (0x7F00_0000, 8), (0xA9FE_0000, 16), (0xAC10_0000, 12),
    (0xC0A8_0000, 16), (0xE000_0000, 4), (0xF000_0000, 4), (U32_MAX, 32)]

  // With the blocks of inverse mode among them, GapsClear blocks have an exact
  // complement over all 2^32 addresses.
  lemma InverseComplementIffGapsClear(s: seq<Cidr>, lo: Cidr, hi: Cidr)
    requires AllValid(s) && Sorted(s) && lo in s && hi in s
    requires lo.ip == 0 && hi.ip == U32_MAX
    ensures (forall a: U32 :: InGaps(s, a) <==> !Covers(s, a)) <==> GapsClear(s)
  {
    ComplementIffGapsClear(s);
    Ends(s, lo, hi);
    if forall a: U32 :: InGaps(s, a) <==> !Covers(s, a) {
      forall a ensures InGaps(s, a) <==> 1 <= a <= LastEnd(s) && !Covers(s, a) {
        if 0 <= a <= U32_MAX { var w: U32 := a; assert InGaps(s, w) <==> !Covers(s, w); }
      }
    }
  }

  lemma Ends(s: seq<Cidr>, lo: Cidr, hi: Cidr)
    requires AllValid(s) && Sorted(s) && lo in s && hi in s
    requires lo.ip == 0 && hi.ip == U32_MAX
    ensures LastEnd(s) == U32_MAX && Covers(s, 0)
  {
    var j :| 0 <= j < |s| && s[j] == hi;
    if j < |s| - 1 { assert s[j].Before(s[|s| - 1]); }
    var k :| 0 <= k < |s| && s[k] == lo;
    assert s[k].Has(0);
  }

  // The addresses of the blocks that inverse mode adds, by their first octets.
  predicate Reserved(a: nat) {
    || a / 0x100_0000 in {0, 10, 127}                                    // 0., 10., 127.
    || a / 0x1_0000 in {169 * 256 + 254, 192 * 256 + 168}                // 169.254., 192.168.
    || (a / 0x100_0000 == 172 && 16 <= a / 0x1_0000 % 256 <= 31)         // 172.16. to 172.31.
    || 224 <= a / 0x100_0000 <= 255                                      // 224. to 255.
  }

  lemma RowHas(ip: U32, prefix: nat, size: nat, q: nat, a: nat)
    requires 1 <= prefix <= 32 && Pow2(32 - prefix) == size && ip == q * size
    ensures New(ip, prefix) == Some(Cidr(ip, prefix))
    ensures New(ip, prefix).value.Has(a) <==> ip <= a < ip + size
  {
    AlignedIsDivisible(ip, 32 - prefix);
  }

  lemma Sizes()
    ensures Pow2(0) == 1 && Pow2(16) == 0x1_0000 && Pow2(20) == 0x10_0000
    ensures Pow2(24) == 0x100_0000 && Pow2(28) == 0x1000_0000
  {
    assert Pow2(8) == 0x100;
    assert Pow2(16) == 0x1_0000;
  }

  // The addresses of the i-th of these blocks.
  predicate RowOctets(i: nat, a: nat) {
    match i
    case 0 => a / 0x100_0000 == 0
    case 1 => a / 0x100_0000 == 10
    case 2 => a / 0x100_0000 == 127
    case 3 => a / 0x1_0000 == 169 * 256 + 254
    case 4 => a / 0x100_0000 == 172 && 16 <= a / 0x1_0000 % 256 <= 31
    case 5 => a / 0x1_0000 == 192 * 256 + 168
    case 6 => 224 <= a / 0x100_0000 <= 239
    case 7 => 240 <= a / 0x100_0000 <= 255
    case _ => a == 0xFFFF_FFFF
  }

  lemma ReservedRow(i: nat, a: nat)
    requires i < 9
    ensures |RESERVED| == 9 && 1 <= RESERVED[i].1 <= 32
    ensures New(RESERVED[i].0, RESERVED[i].1).value.Has(a) <==> RowOctets(i, a)
  {
    if i < 3 { FirstRows(i, a); } else if i < 6 { MiddleRows(i, a); } else { LastRows(i, a); }
  }

  lemma FirstRows(i: nat, a: nat)
    requires i < 3
    ensures New(RESERVED[i].0, RESERVED[i].1).value.Has(a) <==> RowOctets(i, a)
  {
    Sizes();
    match i
    case 0 => RowHas(0, 8, 0x100_0000, 0, a);
    case 1 => RowHas(0x0A00_0000, 8, 0x100_0000, 10, a);
    case _ => RowHas(0x7F00_0000, 8, 0x100_0000, 127, a);
  }

  lemma MiddleRows(i: nat, a: nat)
    requires 3 <= i < 6
    ensures New(RESERVED[i].0, RESERVED[i].1).value.Has(a) <==> RowOctets(i, a)
  {
    Sizes();
    match i
    case 3 => RowHas(0xA9FE_0000, 16, 0x1_0000, 169 * 256 + 254, a);
    case 4 => RowHas(0xAC10_0000, 12, 0x10_0000, 172 * 16 + 1, a);
    case _ => RowHas(0xC0A8_0000, 16, 0x1_0000, 192 * 256 + 168, a);
  }

  lemma LastRows(i: nat, a: nat)
    requires 6 <= i < 9
    ensures New(RESERVED[i].0, RESERVED[i].1).value.Has(a) <==> RowOctets(i, a)
  {
    Sizes();
    match i
    case 6 => RowHas(0xE000_0000, 4, 0x1000_0000, 14, a);
    case 7 => RowHas(0xF000_0000, 4, 0x1000_0000, 15, a);
    case _ => RowHas(U32_MAX, 32, 1, U32_MAX, a);
  }

  lemma ReservedIndex(a: nat) returns (i: nat)
    ensures i < 9 && (Reserved(a) ==> RowOctets(i, a))
  {
    var o := a / 0x100_0000;
    i := if o == 0 then 0 else if o == 10 then 1 else if o == 127 then 2 else if o == 169 then 3
      else if o == 172 then 4 else if o == 192 then 5 else if o <= 239 then 6 else 7;
  }

  lemma RowReserved(i: nat, a: nat)
    requires i < 9
    ensures RowOctets(i, a) ==> Reserved(a)
  {}

  // The reserved blocks hold exactly the reserved addresses.
  lemma ReservedCovers(a: nat)
    ensures WellFormed(RESERVED) && (Covers(Blocks(RESERVED), a) <==> Reserved(a))
  {
    ReservedRows();
    RowsCover(RESERVED, a);
    if Covers(Blocks(RESERVED), a) {
      var i :| 0 <= i < |RESERVED| && New(RESERVED[i].0, RESERVED[i].1).value.Has(a);
      ReservedRow(i, a);
      RowReserved(i, a);
    }
    if Reserved(a) {
      var i := ReservedIndex(a);
      ReservedRow(i, a);
    }
  }

  lemma RowsCover(rows: seq<(U32, nat)>, a: int)
    requires WellFormed(rows)
    ensures Covers(Blocks(rows), a) <==> exists i :: 0 <= i < |rows| && New(rows[i].0, rows[i].1).value.Has(a)
  {
    var b := Blocks(rows);
    if i :| 0 <= i < |b| && b[i].Has(a) { assert New(rows[i].0, rows[i].1).value.Has(a); }
    if i :| 0 <= i < |rows| && New(rows[i].0, rows[i].1).value.Has(a) { assert b[i].Has(a); }
  }

  // A file read in inverse mode: `!set` holds exactly the addresses, of all there are,
  // that are neither reserved nor in a block of the file, if and only if no block leaks.
  lemma InverseMode(lines: seq<(U32, nat)>, s: seq<Cidr>)
    requires WellFormed(lines)
    ensures WellFormed(lines + RESERVED)
    ensures s == Sort(Blocks(lines + RESERVED)) ==>
      && AllValid(s)
      && ((forall a: U32 :: InGaps(s, a) <==> !Covers(Blocks(lines), a) && !Reserved(a))
          <==> !Leaks(Blocks(lines + RESERVED)))
  {
    ReservedRows();
    Appended(lines, RESERVED, s);
    if s == Sort(Blocks(lines + RESERVED)) {
      forall a: U32 ensures Covers(s, a) <==> Covers(Blocks(lines), a) || Reserved(a) { InverseCovers(lines, s, a); }
    }
  }

  lemma InverseCovers(lines: seq<(U32, nat)>, s: seq<Cidr>, a: nat)
    requires WellFormed(lines) && WellFormed(lines + RESERVED) && s == Sort(Blocks(lines + RESERVED))
    ensures AllValid(s) && (Covers(s, a) <==> Covers(Blocks(lines), a) || Reserved(a))
  {
    ReservedCovers(a);
    JoinedCovers(lines, RESERVED, s, a);
  }

  lemma BlocksConcat(lines: seq<(U32, nat)>, extra: seq<(U32, nat)>)
    requires WellFormed(lines) && WellFormed(extra) && WellFormed(lines + extra)
    ensures Blocks(lines + extra) == Blocks(lines) + Blocks(extra)
  {}

  lemma JoinedCovers(lines: seq<(U32, nat)>, extra: seq<(U32, nat)>, s: seq<Cidr>, a: nat)
    requires WellFormed(lines) && WellFormed(extra) && WellFormed(lines + extra) && s == Sort(Blocks(lines + extra))
    ensures AllValid(s) && (Covers(s, a) <==> Covers(Blocks(lines), a) || Covers(Blocks(extra), a))
  {
    BlocksConcat(lines, extra);
    SameCover(Blocks(lines + extra), s);
    CoversConcat(Blocks(lines), Blocks(extra), a);
  }

  lemma ReservedRows()
    ensures WellFormed(RESERVED) && |RESERVED| == 9
    ensures RESERVED[0] == (0, 8) && RESERVED[8] == (U32_MAX, 32)
  {}

  lemma Appended(lines: seq<(U32, nat)>, extra: seq<(U32, nat)>, s: seq<Cidr>)
    requires WellFormed(lines) && WellFormed(extra)
    requires |extra| == 9 && extra[0] == (0, 8) && extra[8] == (U32_MAX, 32)
    ensures WellFormed(lines + extra)
    ensures s == Sort(Blocks(lines + extra)) ==>
      AllValid(s) && ((forall a: U32 :: InGaps(s, a) <==> !Covers(s, a)) <==> !Leaks(Blocks(lines + extra)))
  {
    if s == Sort(Blocks(lines + extra)) {
      RowsWithEnds(lines + extra, |lines|, |lines| + 8, s);
      ClearIffNoLeak(s);
      SameLeaks(Blocks(lines + extra), s);
    }
  }

  lemma RowsWithEnds(rows: seq<(U32, nat)>, lo: nat, hi: nat, s: seq<Cidr>)
    requires WellFormed(rows) && s == Sort(Blocks(rows))
    requires lo < |rows| && rows[lo] == (0, 8) && hi < |rows| && rows[hi] == (U32_MAX, 32)
    ensures AllValid(s) && ((forall a: U32 :: InGaps(s, a) <==> !Covers(s, a)) <==> GapsClear(s))
  {
    var b := Blocks(rows);
    ZeroAligned(24);
    SameCover(b, s);
    SameMembers(b, s);
    assert b[lo] in b && b[hi] in b;
    InverseComplementIffGapsClear(s, b[lo], b[hi]);
  }

  // 0.0.0.4/30 with 0.0.0.5/32 inside it, then 0.0.0.8/30.
  const NESTED: seq<Cidr> := [Cidr(4, 30), Cidr(5, 32), Cidr(8, 30)]

  lemma NestedValid(c: Cidr, end: int)
    requires (c, end) in {(Cidr(4, 30), 7), (Cidr(5, 32), 5), (Cidr(8, 30), 11)}
    ensures c.Valid() && c.Range() == (c.ip, end)
  {
    assert Pow2(2) == 4 && Pow2(0) == 1;
  }

  lemma NestedRanges(s: seq<Cidr>)
    requires s == NESTED
    ensures AllValid(s)
    ensures |s| == 3 && s[0].Range() == (4, 7) && s[1].Range() == (5, 5) && s[2].Range() == (8, 11)
  {
    NestedValid(s[0], 7);
    NestedValid(s[1], 5);
    NestedValid(s[2], 11);
  }

  // `!set` contains 0.0.0.6, which the first block covers.
  lemma NestedBlockLeaks(s: seq<Cidr>)
    requires s == NESTED
    ensures AllValid(s) && Sorted(s) && !GapsClear(s) && Covers(s, 6) && InGaps(s, 6)
  {
    NestedRanges(s);
    assert s[0].Has(6) && Gap(s, 2, 6);
    assert s[1].Range().1 + 1 < s[2].Range().0 && s[0].Range().1 > s[1].Range().1;
  }

  class IPSet {
    var data: seq<Cidr>

    ghost predicate Valid()
      reads this
    {
      AllValid(data)
    }

    constructor ()
      ensures Valid() && data == []
    {
      data := [];
    }

    method Add(ip: U32, prefix: nat) returns (ok: bool)
      requires Valid()
      modifies this
      ensures Valid() && (ok <==> 1 <= prefix <= 32)
      ensures data == if ok then old(data) + [New(ip, prefix).value] else old(data)
    {
      var c := New(ip, prefix);
      ok := c.Some?;
      if ok { data := data + [c.value]; }
    }

    // Appends the shortest list of blocks for the range.
    method AddRange(left: U32, right: U32) returns (ok: bool)
      requires Valid()
      modifies this
      ensures Valid() && (ok <==> InRange(left, right))
      ensures !ok ==> data == old(data)
      ensures old(data) <= data
      ensures ok ==> var added := data[|old(data)|..];
        CoversExactly(added, left, right) && Separated(added) && AllMaximal(added, left, right)
    {
      var cidrs := RangeToCidr(left, right);
      ok := cidrs.Some?;
      if ok {
        data := data + cidrs.value;
        assert data[|old(data)|..] == cidrs.value;
      }
    }

    method Build()
      requires Valid()
      modifies this
      ensures Valid() && data == Sort(old(data))
    {
      SameCover(data, Sort(data));
      data := Sort(data);
    }

    // `with_file`, from the parsed lines of the file on.
    static method WithFile(lines: seq<(U32, nat)>, inverse: bool) returns (ip: IPSet, ok: bool)
      ensures fresh(ip) && ip.Valid()
      ensures ok <==> WellFormed(if inverse then lines + RESERVED else lines)
      ensures ok ==> ip.data == Sort(Blocks(if inverse then lines + RESERVED else lines))
    {
      ip := new IPSet();
      ok := ip.AddRows(if inverse then lines + RESERVED else lines);
      if ok { ip.Build(); }
    }

    method AddRows(rows: seq<(U32, nat)>) returns (ok: bool)
      requires Valid() && data == []
      modifies this
      ensures Valid() && (ok <==> WellFormed(rows))
      ensures ok ==> data == Blocks(rows)
    {
      for i := 0 to |rows|
        invariant Valid() && WellFormed(rows[..i]) && data == Blocks(rows[..i])
      {
        assert rows[..i + 1] == rows[..i] + [rows[i]];
        ok := Add(rows[i].0, rows[i].1);
        if !ok { return; }
      }
      assert rows[..|rows|] == rows;
      ok := true;
    }

    // The loop body of `!set`: the range between the end of the block before and the
    // start of this one, if there is one.
    method AddGap(r: U32, left: U32, ghost s: seq<Cidr>, ghost i: nat)
      requires Valid() && AllValid(s) && Sorted(s) && i < |s| && GapsCut(data, s, i)
      requires left == s[i].Range().0 && r == if i == 0 then 0 else s[i - 1].Range().1
      modifies this
      ensures Valid() && GapsCut(data, s, i + 1)
    {
      ghost var before := data;
      if left == 0 || left - 1 == r {
      } else if r < U32_MAX {
        var ok := AddRange(r + 1, left - 1);
        assert ok;
      }
      GapsGrow(s, i, before, data);
    }

    // `!set`: sorts, then adds the range between each block and the end of the
    // block before it.
    method Not() returns (ip: IPSet)
      requires Valid()
      modifies this
      ensures fresh(ip) && ip.Valid() && Valid() && data == Sort(old(data))
      ensures Separated(ip.data) && Sorted(ip.data)
      ensures forall a {:trigger Covers(ip.data, a)} :: Covers(ip.data, a) <==> InGaps(data, a)
      // the complement up to the largest end, exactly if no block leaks
      ensures IsComplement(ip.data, old(data)) <==> !Leaks(old(data))
    {
      ghost var blocks := data;
      ip := CutGaps();
      ResultMeaning(blocks, data, ip.data);
    }

    method CutGaps() returns (ip: IPSet)
      requires Valid()
      modifies this
      ensures fresh(ip) && ip.Valid() && Valid() && data == Sort(old(data))
      ensures Separated(ip.data) && Sorted(ip.data)
      ensures forall a {:trigger Covers(ip.data, a)} :: Covers(ip.data, a) <==> InGaps(data, a)
    {
      Build();
      ip := new IPSet();
      CutInto(ip);
      SeparatedIsSorted(ip.data);
      ip.Build();
    }

    // The loop over the sorted blocks.
    method CutInto(ip: IPSet)
      requires ip != this && Valid() && Sorted(data) && ip.data == []
      modifies ip
      ensures ip.Valid() && Separated(ip.data)
      ensures forall a {:trigger Covers(ip.data, a)} :: Covers(ip.data, a) <==> InGaps(data, a)
    {
      var r: U32 := 0;
      for i := 0 to |data|
        invariant ip.Valid() && r == if i == 0 then 0 else data[i - 1].Range().1
        invariant GapsCut(ip.data, data, i)
      {
        var (left, right) := data[i].Range();
        ip.AddGap(r, left, data, i);
        r := right;
      }
      assert data[..|data|] == data;
    }
  }

  predicate WellFormed(rows: seq<(U32, nat)>) {
    forall i :: 0 <= i < |rows| ==> 1 <= rows[i].1 <= 32
  }

  ghost function Blocks(rows: seq<(U32, nat)>): (s: seq<Cidr>)
    requires WellFormed(rows)
    ensures AllValid(s)
  {
    seq(|rows|, i requires 0 <= i < |rows| => New(rows[i].0, rows[i].1).value)
  }

  lemma SeparatedIsSorted(s: seq<Cidr>)
    requires AllValid(s) && Separated(s)
    ensures Sorted(s) && Sort(s) == s
  {
    OneOrder(Sort(s), s);
  }

  lemma CoversConcat(s: seq<Cidr>, t: seq<Cidr>, a: int)
    requires AllValid(s) && AllValid(t)
    ensures AllValid(s + t) && (Covers(s + t, a) <==> Covers(s, a) || Covers(t, a))
  {
    if Covers(s + t, a) {
      var k :| 0 <= k < |s + t| && (s + t)[k].Has(a);
      if k >= |s| { assert t[k - |s|].Has(a); } else { assert s[k].Has(a); }
    }
    if Covers(s, a) { var k :| 0 <= k < |s| && s[k].Has(a); assert (s + t)[k].Has(a); }
    if Covers(t, a) { var k :| 0 <= k < |t| && t[k].Has(a); assert (s + t)[|s| + k].Has(a); }
  }

  lemma InGapsStep(s: seq<Cidr>, i: nat, a: int)
    requires AllValid(s) && i < |s|
    ensures InGaps(s[..i + 1], a) <==> InGaps(s[..i], a) || Gap(s, i, a)
  {
    if InGaps(s[..i + 1], a) {
      var k :| 0 <= k < i + 1 && Gap(s[..i + 1], k, a);
      if k < i { assert Gap(s[..i], k, a); }
    }
    if InGaps(s[..i], a) { var k :| 0 <= k < i && Gap(s[..i], k, a); assert Gap(s[..i + 1], k, a); }
    if Gap(s, i, a) { assert Gap(s[..i + 1], i, a); }
  }

  // All blocks end before the block at i - 1 starts.
  ghost predicate Below(blocks: seq<Cidr>, s: seq<Cidr>, i: nat)
    requires AllValid(blocks) && AllValid(s) && i <= |s|
  {
    forall k :: 0 <= k < |blocks| ==> i > 0 && blocks[k].Range().1 < s[i - 1].Range().0
  }

  // Blocks covering exactly gap i follow everything cut from the gaps before it.
  lemma GapBlocks(s: seq<Cidr>, i: nat, before: seq<Cidr>, added: seq<Cidr>)
    requires AllValid(s) && Sorted(s) && i < |s| && AllValid(before) && AllValid(added)
    requires Separated(before) && Below(before, s, i)
    requires Separated(added) && forall a {:trigger Covers(added, a)} :: Covers(added, a) <==> Gap(s, i, a)
    ensures AllValid(before + added) && Separated(before + added) && Below(before + added, s, i + 1)
  {
    assert i > 0 ==> s[i - 1].Before(s[i]);
    forall k | 0 <= k < |added| ensures Gap(s, i, added[k].Range().0) && Gap(s, i, added[k].Range().1) {
      assert added[k].Has(added[k].Range().0) && added[k].Has(added[k].Range().1);
      assert Covers(added, added[k].Range().0) && Covers(added, added[k].Range().1);
    }
  }

  // The blocks cut from the first i gaps.
  ghost predicate GapsCut(blocks: seq<Cidr>, s: seq<Cidr>, i: nat)
    requires AllValid(s) && i <= |s|
  {
    && AllValid(blocks) && Separated(blocks) && Below(blocks, s, i)
    && forall a {:trigger Covers(blocks, a)} :: Covers(blocks, a) <==> InGaps(s[..i], a)
  }

  // Adding the blocks of gap i to those of the gaps before it.
  lemma GapsGrow(s: seq<Cidr>, i: nat, before: seq<Cidr>, after: seq<Cidr>)
    requires AllValid(s) && Sorted(s) && i < |s| && AllValid(after)
    requires GapsCut(before, s, i) && before <= after && Separated(after[|before|..])
    requires forall a {:trigger Covers(after[|before|..], a)} :: Covers(after[|before|..], a) <==> Gap(s, i, a)
    ensures GapsCut(after, s, i + 1)
  {
    var added := after[|before|..];
    assert after == before + added;
    GapBlocks(s, i, before, added);
    forall a ensures Covers(after, a) <==> InGaps(s[..i + 1], a) {
      CoversConcat(before, added, a);
      InGapsStep(s, i, a);
    }
  }
}
