// What a match in src/dns/domain.rs means for the names themselves: names are compared
// from the right, whole labels at a time, and a dot at the end does not count.
module DomainNames {
  import opened Common
  import opened Domains

  // The name without a dot at its end.
  function Name(s: string): string {
    if EndsWithDot(s) then s[..|s| - 1] else s
  }

  // q is d or one of its subdomains.
  predicate IsUnder(q: string, d: string) {
    Name(q) == Name(d) || exists x :: 0 <= x < |Name(q)| && Name(q)[x..] == "." + Name(d)
  }

  // ---- splitting and joining at a dot

  lemma {:induction false} SplitAtDot(x: string, d: string)
    ensures Split(x + "." + d) == Split(x) + Split(d)
  {
    if x == [] {
      assert x + "." + d == "." + d && ("." + d)[1..] == d;
      assert [[]] + Split(d) == Split(x) + Split(d);
    } else {
      SplitAtDot(x[1..], d);
      Behind(x, d);
      FirstLabel(x[0], Split(x[1..]), Split(d));
    }
  }

  lemma Behind(x: string, d: string)
    requires x != []
    ensures (x + "." + d)[0] == x[0] && (x + "." + d)[1..] == x[1..] + "." + d
  {}

  // Putting a character in front of the first label.
  lemma FirstLabel(c: char, s: seq<Label>, t: seq<Label>)
    requires s != []
    ensures [[]] + (s + t) == [[]] + s + t
    ensures [[c] + (s + t)[0]] + (s + t)[1..] == [[c] + s[0]] + s[1..] + t
  {}

  lemma {:induction false} JoinAppend(s: seq<Label>, t: seq<Label>)
    requires s != [] && t != []
    ensures Join(s + t) == Join(s) + "." + Join(t)
  {
    if |s| == 1 {
      assert (s + t)[1..] == t;
    } else {
      JoinAppend(s[1..], t);
      assert (s + t)[1..] == s[1..] + t;
      Together(s[0], Join(s[1..]), Join(t));
    }
  }

  lemma Together(a: string, b: string, c: string)
    ensures a + "." + (b + "." + c) == a + "." + b + "." + c
  {}

  lemma {:induction false} ReverseConcat(s: seq<Label>, t: seq<Label>)
    ensures Reverse(s + t) == Reverse(t) + Reverse(s)
  {
    if s == [] { assert s + t == t && Reverse(t) + [] == Reverse(t); }
    else {
      ReverseConcat(s[1..], t);
      assert (s + t)[1..] == s[1..] + t;
      assert Reverse(t) + Reverse(s[1..]) + [s[0]] == Reverse(t) + (Reverse(s[1..]) + [s[0]]);
    }
  }

  lemma {:induction false} ReverseTwice(s: seq<Label>)
    ensures Reverse(Reverse(s)) == s
  {
    if s != [] {
      ReverseConcat(Reverse(s[1..]), [s[0]]);
      ReverseTwice(s[1..]);
      assert Reverse([s[0]]) == [s[0]];
    }
  }

  // Labels are read from the right, without what a final dot leaves behind.
  lemma LabelsAre(s: string)
    ensures Labels(s) == Reverse(Split(Name(s)))
  {
    if EndsWithDot(s) {
      assert Name(s) + "." == s;
      SplitDot(Name(s));
      ReverseAppend(Split(Name(s)), []);
    }
  }

  // ---- paths

  // Paths lie above one another exactly as their label lists start alike.
  lemma {:induction false} AbovePrefix(a: seq<Label>, b: seq<Label>)
    ensures Above(PathOf(a), PathOf(b)) <==> a <= b
    decreases |b|
  {
    SamePath(a, b);
    if b != [] {
      var init := b[..|b| - 1];
      AbovePrefix(a, init);
      assert a <= init ==> a <= b;
      if a <= b && a != b { assert a == b[..|a|] == init[..|a|]; }
    }
  }

  lemma {:induction false} SamePath(a: seq<Label>, b: seq<Label>)
    ensures PathOf(a) == PathOf(b) <==> a == b
    decreases |a|
  {
    if a != [] && b != [] {
      SamePath(a[..|a| - 1], b[..|b| - 1]);
      assert a == a[..|a| - 1] + [a[|a| - 1]] && b == b[..|b| - 1] + [b[|b| - 1]];
    }
  }

  // A domain is above a name exactly if the name is the domain or under it.
  lemma AboveIsUnder(d: string, q: string)
    ensures Above(DomainPath(d), DomainPath(q)) <==> IsUnder(q, d)
  {
    LabelsAre(d);
    LabelsAre(q);
    AbovePrefix(Labels(d), Labels(q));
    if Labels(d) <= Labels(q) { PrefixIsUnder(d, q); }
    if IsUnder(q, d) { UnderIsPrefix(d, q); }
  }

  lemma UnderIsPrefix(d: string, q: string)
    requires IsUnder(q, d)
    ensures Reverse(Split(Name(d))) <= Reverse(Split(Name(q)))
  {
    var n, m := Name(q), Name(d);
    if n != m {
      var x :| 0 <= x < |n| && n[x..] == "." + m;
      CutAt(n, x, m);
      SplitAtDot(n[..x], m);
      ReverseConcat(Split(n[..x]), Split(m));
    }
  }

  lemma CutAt(n: string, x: nat, m: string)
    requires x < |n| && n[x..] == "." + m
    ensures n == n[..x] + "." + m
  {
    assert n == n[..x] + n[x..];
  }

  // A list that ends like t, from the right starts like t.
  lemma FrontOf(s: seq<Label>, t: seq<Label>) returns (front: seq<Label>)
    requires Reverse(t) <= Reverse(s)
    ensures s == front + t
  {
    var more := Reverse(s)[|t|..];
    assert Reverse(s) == Reverse(t) + more;
    ReverseConcat(Reverse(t), more);
    ReverseTwice(s);
    ReverseTwice(t);
    front := Reverse(more);
  }

  lemma PrefixIsUnder(d: string, q: string)
    requires Reverse(Split(Name(d))) <= Reverse(Split(Name(q)))
    ensures IsUnder(q, d)
  {
    var n, m := Name(q), Name(d);
    var front := FrontOf(Split(n), Split(m));
    SplitJoin(n);
    SplitJoin(m);
    if front == [] {
      assert Split(n) == Split(m);
    } else {
      JoinAppend(front, Split(m));
      DotAt(Join(front), m, n);
    }
  }

  lemma DotAt(x: string, m: string, n: string)
    requires n == x + "." + m
    ensures |x| < |n| && n[|x|..] == "." + m
  {}

  lemma SamePathSameName(d: string, e: string)
    ensures DomainPath(d) == DomainPath(e) <==> Name(d) == Name(e)
  {
    LabelsAre(d);
    LabelsAre(e);
    SamePath(Labels(d), Labels(e));
    if Labels(d) == Labels(e) {
      ReverseTwice(Split(Name(d)));
      ReverseTwice(Split(Name(e)));
      SplitJoin(Name(d));
      SplitJoin(Name(e));
    }
  }

  // ---- what the map contains, name by name

  // q has an added domain under it (or is one), or is under an added domain that has no
  // other added domain under it.
  ghost predicate Listed(list: seq<string>, q: string) {
    || (exists d :: d in list && IsUnder(d, q))
    || (exists d :: d in list && IsUnder(q, d) && forall e :: e in list && IsUnder(e, d) ==> Name(e) == Name(d))
  }

  lemma MatchesNames(list: seq<string>, q: string)
    ensures Matches(PathsOf(list), DomainPath(q)) <==> Listed(list, q)
  {
    if Matches(PathsOf(list), DomainPath(q)) { MatchesListed(list, q); }
    if Listed(list, q) { ListedMatches(list, q); }
  }

  lemma MatchesListed(list: seq<string>, q: string)
    requires Matches(PathsOf(list), DomainPath(q))
    ensures Listed(list, q)
  {
    var all := PathsOf(list);
    if p :| p in all && Above(DomainPath(q), p) {
      var d := NameOf(list, p);
      AboveIsUnder(q, d);
    } else {
      var p :| p in all && Above(p, DomainPath(q)) && !Extended(all, p);
      var d := NameOf(list, p);
      AboveIsUnder(d, q);
      forall e | e in list && IsUnder(e, d) ensures Name(e) == Name(d) {
        AboveIsUnder(d, e);
        PathsOfMembers(list, DomainPath(e));
        SamePathSameName(d, e);
      }
    }
  }

  lemma ListedMatches(list: seq<string>, q: string)
    requires Listed(list, q)
    ensures Matches(PathsOf(list), DomainPath(q))
  {
    if d :| d in list && IsUnder(d, q) {
      AboveIsUnder(q, d);
      PathsOfMembers(list, DomainPath(d));
    } else {
      var d :| d in list && IsUnder(q, d) && forall e :: e in list && IsUnder(e, d) ==> Name(e) == Name(d);
      AboveIsUnder(d, q);
      PathsOfMembers(list, DomainPath(d));
      NotExtended(list, d);
    }
  }

  lemma NotExtended(list: seq<string>, d: string)
    requires forall e :: e in list && IsUnder(e, d) ==> Name(e) == Name(d)
    ensures !Extended(PathsOf(list), DomainPath(d))
  {
    forall p | p in PathsOf(list) && Above(DomainPath(d), p) ensures p == DomainPath(d) {
      var e := NameOf(list, p);
      AboveIsUnder(d, e);
      SamePathSameName(d, e);
    }
  }

  lemma NameOf(list: seq<string>, p: Path) returns (d: string)
    requires p in PathsOf(list)
    ensures d in list && DomainPath(d) == p
  {
    PathsOfMembers(list, p);
    d :| d in list && DomainPath(d) == p;
  }

  // One domain only: the names under it, and those it is under.
  lemma OneDomain(d: string, q: string)
    ensures Matches(PathsOf([d]), DomainPath(q)) <==> IsUnder(q, d) || IsUnder(d, q)
  {
    MatchesNames([d], q);
  }

  // Filling a map with a list and asking for a name.
  method Blocked(list: seq<string>, q: string) returns (found: bool)
    ensures found <==> Listed(list, q)
  {
    var m := new DomainMap();
    m.AddAll(list);
    found := m.Contains(q);
    MatchesNames(list, q);
    assert {} + PathsOf(list) == PathsOf(list);
  }
}
