// src/dns/domain.rs: a trie over the labels of domain names, read from the right.
module Domains {
  import opened Common

  type Label = string

  // ---- `domain.split('.').rev()`, without the empty label behind a trailing dot

  function Split(s: string): (r: seq<Label>)
    ensures r != []
  {
    if s == [] then [[]] else
    var rest := Split(s[1..]);
    if s[0] == '.' then [[]] + rest else [[s[0]] + rest[0]] + rest[1..]
  }

  function Join(labels: seq<Label>): string {
    if labels == [] then [] else if |labels| == 1 then labels[0] else labels[0] + "." + Join(labels[1..])
  }

  function Reverse(s: seq<Label>): (r: seq<Label>)
    ensures |r| == |s|
  {
    if s == [] then [] else Reverse(s[1..]) + [s[0]]
  }

  predicate EndsWithDot(s: string) {
    s != [] && s[|s| - 1] == '.'
  }

  function Labels(domain: string): (p: seq<Label>)
    ensures p != []
  {
    var rev := Reverse(Split(domain));
    if EndsWithDot(domain) then TwoParts(domain); rev[1..] else rev
  }

  lemma {:induction false} TwoParts(s: string)
    requires EndsWithDot(s)
    ensures |Split(s)| >= 2
  {
    if |s| > 1 { TwoParts(s[1..]); }
  }

  // Splitting is right: the parts have no dot, and joined they are the name.
  lemma {:induction false} SplitJoin(s: string)
    ensures Join(Split(s)) == s
    ensures forall l :: l in Split(s) ==> '.' !in l
  {
    if s != [] {
      SplitJoin(s[1..]);
      var rest := Split(s[1..]);
      assert s == [s[0]] + s[1..];
      if s[0] != '.' { assert Split(s)[1..] == rest[1..]; }
    }
  }

  lemma {:induction false} SplitDot(s: string)
    ensures Split(s + ".") == Split(s) + [[]]
  {
    if s != [] {
      SplitDot(s[1..]);
      assert (s + ".")[1..] == s[1..] + ".";
    }
  }

  lemma {:induction false} ReverseAppend(s: seq<Label>, l: Label)
    ensures Reverse(s + [l]) == [l] + Reverse(s)
  {
    if s != [] {
      ReverseAppend(s[1..], l);
      assert (s + [l])[1..] == s[1..] + [l];
    }
  }

  // One trailing dot makes no difference, unless there is one already.
  lemma TrailingDot(s: string)
    ensures Labels(s + ".") == Labels(s) <==> !EndsWithDot(s)
  {
    SplitDot(s);
    ReverseAppend(Split(s), []);
    if EndsWithDot(s) { assert |Labels(s + ".")| == |Labels(s)| + 1; }
  }

  // ---- what the map means

  // A domain read from the right: Down(Down(Root, "com"), "example").
  datatype Path = Root | Down(parent: Path, name: Label)

  function PathOf(labels: seq<Label>): Path {
    if labels == [] then Root else Down(PathOf(labels[..|labels| - 1]), labels[|labels| - 1])
  }

  // The path of a domain name as the program reads it.
  function DomainPath(domain: string): (p: Path)
    ensures p != Root
  {
    PathOf(Labels(domain))
  }

  ghost function PathsOf(list: seq<string>): set<Path> {
    if list == [] then {} else PathsOf(list[..|list| - 1]) + {DomainPath(list[|list| - 1])}
  }

  lemma {:induction false} PathsOfMembers(list: seq<string>, p: Path)
    ensures p in PathsOf(list) <==> exists s :: s in list && DomainPath(s) == p
    decreases |list|
  {
    if list != [] {
      var init, last := list[..|list| - 1], list[|list| - 1];
      PathsOfMembers(init, p);
      assert forall s :: s in list <==> s in init || s == last;
    }
  }

  // Neither the order of a list nor repetitions in it matter.
  lemma OrderIrrelevant(list: seq<string>, other: seq<string>)
    requires forall s :: s in list <==> s in other
    ensures PathsOf(list) == PathsOf(other)
  {
    forall p ensures p in PathsOf(list) <==> p in PathsOf(other) {
      PathsOfMembers(list, p);
      PathsOfMembers(other, p);
    }
  }

  // p is q or q lies under p.
  predicate Above(p: Path, q: Path) {
    p == q || (q.Down? && Above(p, q.parent))
  }

  // q is above an added domain, or under an added domain (or that domain itself) that
  // no other added domain extends.
  ghost predicate Matches(domains: set<Path>, q: Path) {
    || (exists d :: d in domains && Above(q, d))
    || (exists d :: d in domains && Above(d, q) && !Extended(domains, d))
  }

  ghost predicate Extended(domains: set<Path>, d: Path) {
    exists e :: e in domains && Above(d, e) && d != e
  }

  // An added domain that another one extends is no longer a match for the names under
  // it: for those the domain might as well not have been added.
  lemma ExtendedAddsNothing(domains: set<Path>, d: Path, q: Path)
    requires d in domains && Above(d, q) && d != q && Extended(domains, d)
    ensures Matches(domains, q) <==> Matches(domains - {d}, q)
  {
    var rest := domains - {d};
    if Matches(domains, q) {
      if e :| e in domains && Above(q, e) {
        assert e != d by { if Above(q, d) { Antisymmetric(d, q); } }
        assert e in rest;
      } else {
        var e :| e in domains && Above(e, q) && !Extended(domains, e);
        assert e in rest && !Extended(rest, e);
      }
    }
    if Matches(rest, q) {
      if e :| e in rest && Above(q, e) { assert e in domains; }
      else {
        var e :| e in rest && Above(e, q) && !Extended(rest, e);
        StillExtended(domains, d, e);
      }
    }
  }

  // Were d the only extension of e, what extends d would be another one.
  lemma StillExtended(domains: set<Path>, d: Path, e: Path)
    requires Extended(domains, d) && e != d
    ensures Extended(domains, e) ==> Extended(domains - {d}, e)
  {
    if Extended(domains, e) {
      var x :| x in domains && Above(e, x) && x != e;
      var y :| y in domains && Above(d, y) && d != y;
      if x == d {
        Transitive(e, d, y);
        if e == y { Antisymmetric(d, y); }
        assert y in domains - {d};
      } else {
        assert x in domains - {d};
      }
    }
  }

  lemma {:induction false} Transitive(p: Path, q: Path, r: Path)
    requires Above(p, q) && Above(q, r)
    ensures Above(p, r)
  {
    if q != r { Transitive(p, q, r.parent); }
  }

  function Depth(p: Path): nat {
    if p == Root then 0 else 1 + Depth(p.parent)
  }

  lemma {:induction false} AboveDepth(p: Path, q: Path)
    requires Above(p, q)
    ensures Depth(p) <= Depth(q) && (p != q ==> Depth(p) < Depth(q))
  {
    if p != q { AboveDepth(p, q.parent); }
  }

  lemma Antisymmetric(p: Path, q: Path)
    requires Above(p, q) && Above(q, p)
    ensures p == q
  {
    AboveDepth(p, q);
    AboveDepth(q, p);
  }

  // Two paths above the same path are above one another.
  lemma {:induction false} Comparable(p: Path, q: Path, r: Path)
    requires Above(p, r) && Above(q, r)
    ensures Above(p, q) || Above(q, p)
  {
    if p != r && q != r { Comparable(p, q, r.parent); }
  }

  // The next path on the way down.
  lemma {:induction false} NextDown(p: Path, q: Path) returns (l: Label)
    requires Above(p, q) && p != q
    ensures Above(Down(p, l), q)
  {
    if p == q.parent { l := q.name; } else { l := NextDown(p, q.parent); }
  }

  lemma {:induction false} AboveWhole(labels: seq<Label>, i: nat)
    requires i <= |labels|
    ensures Above(PathOf(labels[..i]), PathOf(labels))
    ensures i < |labels| ==> PathOf(labels[..i + 1]) == Down(PathOf(labels[..i]), labels[i])
    decreases |labels|
  {
    if i < |labels| {
      assert labels[..i + 1][..i] == labels[..i];
      var init := labels[..|labels| - 1];
      AboveWhole(init, i);
      assert init[..i] == labels[..i];
    } else { assert labels[..i] == labels; }
  }

  // ---- the trie as two sets: the paths with an entry, and the paths that lead to a map

  // An entry's parent is a map, and every map but the root is an entry with children.
  ghost predicate Shape(entries: set<Path>, inner: set<Path>) {
    && Root in inner && Root !in entries
    && (forall p, l :: Down(p, l) in entries ==> p in inner)
    && (forall p :: p in inner && p != Root ==> p in entries)
    && (forall p {:trigger HasChild(entries, p)} :: p in inner && p != Root ==> HasChild(entries, p))
  }

  ghost predicate HasChild(entries: set<Path>, p: Path) {
    exists l :: Down(p, l) in entries
  }

  // The entries are the prefixes of the added domains.
  ghost predicate Prefixes(entries: set<Path>, domains: set<Path>) {
    && Root !in domains
    && forall p {:trigger p in entries} :: p in entries <==> p != Root && exists d :: d in domains && Above(p, d)
  }

  // What the walk of `contains` may conclude from an entry without map,
  lemma LeafMatches(entries: set<Path>, inner: set<Path>, domains: set<Path>, p: Path, q: Path)
    requires Shape(entries, inner) && Prefixes(entries, domains)
    requires Above(p, q) && p in entries && p !in inner
    ensures Matches(domains, q)
  {
    var d :| d in domains && Above(p, d);
    forall e | e in domains && Above(p, e) ensures e == p {
      if e != p { ChildEntry(entries, domains, p, e); }
    }
    assert d == p && !Extended(domains, d);
  }

  lemma ChildEntry(entries: set<Path>, domains: set<Path>, p: Path, e: Path)
    requires Prefixes(entries, domains) && e in domains && Above(p, e) && p != e
    ensures HasChild(entries, p)
  {
    var l := NextDown(p, e);
    assert Down(p, l) in entries;
  }

  lemma NothingBelow(entries: set<Path>, domains: set<Path>, p: Path, d: Path)
    requires Prefixes(entries, domains) && d in domains && p != Root && p !in entries
    ensures !Above(p, d)
  {}

  // from a missing entry,
  lemma MissingMatchesNot(entries: set<Path>, inner: set<Path>, domains: set<Path>, p: Path, l: Label, q: Path)
    requires Shape(entries, inner) && Prefixes(entries, domains)
    requires p in inner && Down(p, l) !in entries && Above(Down(p, l), q)
    ensures !Matches(domains, q)
  {
    var missing := Down(p, l);
    forall d | d in domains ensures !Above(q, d) {
      if Above(q, d) { Transitive(missing, q, d); }
      NothingBelow(entries, domains, missing, d);
    }
    forall d | d in domains && Above(d, q) ensures Extended(domains, d) {
      Comparable(d, missing, q);
      NothingBelow(entries, domains, missing, d);
      AboveInner(entries, inner, d, p);
      InnerExtended(entries, domains, d);
    }
  }

  lemma InnerExtended(entries: set<Path>, domains: set<Path>, d: Path)
    requires Prefixes(entries, domains) && HasChild(entries, d)
    ensures Extended(domains, d)
  {
    var c :| Down(d, c) in entries;
    var e :| e in domains && Above(Down(d, c), e);
    assert Above(d, Down(d, c));
    Transitive(d, Down(d, c), e);
    AboveDepth(Down(d, c), e);
  }

  lemma {:induction false} AboveInner(entries: set<Path>, inner: set<Path>, d: Path, p: Path)
    requires Shape(entries, inner) && p in inner && Above(d, p)
    ensures d in inner
    decreases p
  {
    if d != p {
      assert Down(p.parent, p.name) in entries;
      AboveInner(entries, inner, d, p.parent);
    }
  }

  // The non-empty prefixes of a path.
  ghost function PrefixesOf(p: Path): set<Path> {
    if p == Root then {} else PrefixesOf(p.parent) + {p}
  }

  lemma {:induction false} PrefixesAre(p: Path, q: Path)
    ensures q in PrefixesOf(p) <==> q != Root && Above(q, p)
  {
    if p != Root { PrefixesAre(p.parent, q); }
  }

  // All entries on the way to one more domain.
  lemma {:induction false} ShapeAlong(entries: set<Path>, inner: set<Path>, p: Path)
    requires Shape(entries, inner) && p != Root
    ensures Shape(entries + PrefixesOf(p), inner + PrefixesOf(p.parent))
  {
    var e, n := entries, inner;
    if p.parent != Root {
      ShapeAlong(entries, inner, p.parent);
      e, n := entries + PrefixesOf(p.parent), inner + PrefixesOf(p.parent.parent);
    }
    var e', n' := entries + PrefixesOf(p), inner + PrefixesOf(p.parent);
    assert e' == e + {p};
    assert n' == if p.parent == Root then n else n + {p.parent};
    forall r {:trigger HasChild(e', r)} | r in n' && r != Root ensures HasChild(e', r) {
      if r in n { assert HasChild(e, r); var l :| Down(r, l) in e; assert Down(r, l) in e'; }
      else { assert Down(r, p.name) in e'; }
    }
  }

  lemma PrefixesGrow(entries: set<Path>, domains: set<Path>, q: Path)
    requires Prefixes(entries, domains) && q != Root
    ensures Prefixes(entries + PrefixesOf(q), domains + {q})
  {
    var more := entries + PrefixesOf(q);
    forall p ensures p in more <==> p != Root && exists d :: d in domains + {q} && Above(p, d) {
      PrefixesAre(q, p);
      if p in PrefixesOf(q) { assert q in domains + {q}; }
      else if p in entries { var d :| d in domains && Above(p, d); assert d in domains + {q}; }
    }
  }

  lemma MorePrefixes(s: set<Path>, p: Path, l: Label)
    ensures s + PrefixesOf(Down(p, l)) == s + PrefixesOf(p) + {Down(p, l)}
  {}

  // ---- the trie as the program builds it

  class DomainNode {
    // null for None, a node for Some(map)
    var children: map<Label, DomainNode?>
    ghost const path: Path

    constructor (ghost path: Path)
      ensures children == map[] && this.path == path
    {
      children := map[];
      this.path := path;
    }
  }

  type Kids = map<Label, DomainNode?>

  // Every map by the path that leads to it, and what it holds.
  ghost predicate Trie(nodes: map<Path, DomainNode>, kids: map<Path, Kids>, entries: set<Path>) {
    && Root in nodes && nodes.Keys == kids.Keys && Root !in entries
    && (forall p, l {:trigger l in kids[p]} {:trigger Down(p, l) in entries} ::
         p in nodes ==> (l in kids[p] <==> Down(p, l) in entries))
    && (forall p, l {:trigger kids[p][l]} :: p in nodes && l in kids[p] ==>
         kids[p][l] == if Down(p, l) in nodes then nodes[Down(p, l)] else null)
    && (forall p, l {:trigger Down(p, l) in entries} :: Down(p, l) in entries ==> p in nodes)
    && (forall p :: p in nodes && p != Root ==> p in entries)
  }

  lemma TrieAddEntry(nodes: map<Path, DomainNode>, kids: map<Path, Kids>, entries: set<Path>, path: Path, name: Label)
    requires Trie(nodes, kids, entries) && path in nodes
    ensures name in kids[path] ==> entries + {Down(path, name)} == entries
    ensures name !in kids[path] ==> Trie(nodes, kids[path := kids[path][name := null]], entries + {Down(path, name)})
  {}

  lemma TrieEntry(nodes: map<Path, DomainNode>, kids: map<Path, Kids>, entries: set<Path>, path: Path, slot: Label)
    requires Trie(nodes, kids, entries) && path in nodes && Down(path, slot) in entries
    ensures slot in kids[path]
    ensures Down(path, slot) in nodes <==> kids[path][slot] != null
    ensures kids[path][slot] != null ==> kids[path][slot] == nodes[Down(path, slot)]
  {}

  lemma TrieOpenEntry(nodes: map<Path, DomainNode>, kids: map<Path, Kids>, entries: set<Path>,
                      path: Path, slot: Label, child: DomainNode)
    requires Trie(nodes, kids, entries) && path in nodes && Down(path, slot) in entries && Down(path, slot) !in nodes
    requires slot in kids[path]
    ensures Trie(nodes[Down(path, slot) := child],
                 kids[path := kids[path][slot := child]][Down(path, slot) := map[]], entries)
  {}

  class DomainMap {
    const root: DomainNode
    ghost var domains: set<Path>
    ghost var nodes: map<Path, DomainNode>
    ghost var kids: map<Path, Kids>
    ghost var entries: set<Path>
    ghost var repr: set<DomainNode>

    // The objects hold what the values say.
    ghost predicate Held()
      reads this, repr
    {
      && nodes.Keys == kids.Keys
      && forall p :: p in nodes ==> nodes[p] in repr && nodes[p].path == p && nodes[p].children == kids[p]
    }

    ghost predicate Linked()
      reads this, repr
    {
      Held() && Trie(nodes, kids, entries) && nodes[Root] == root
    }

    ghost predicate Valid()
      reads this, repr
    {
      Linked() && Shape(entries, nodes.Keys) && Prefixes(entries, domains)
    }

    constructor ()
      ensures Valid() && domains == {} && fresh(repr)
    {
      root := new DomainNode(Root);
      domains, entries, repr := {}, {}, {root};
      new;
      nodes, kids := map[Root := root], map[Root := map[]];
    }

    // `insert(name, None)` unless there is an entry.
    method AddEntry(node: DomainNode, ghost path: Path, name: Label)
      requires Linked() && path in nodes && node == nodes[path]
      modifies this`kids, this`entries, node
      ensures Linked() && entries == old(entries) + {Down(path, name)}
    {
      TrieAddEntry(nodes, kids, entries, path, name);
      if name !in node.children {
        node.children := node.children[name := null];
        kids := kids[path := node.children];
      }
      entries := entries + {Down(path, name)};
    }

    // `replace(DomainMap::new())` if the entry has no map yet.
    method OpenEntry(node: DomainNode, ghost path: Path, slot: Label) returns (child: DomainNode?)
      requires Linked() && path in nodes && node == nodes[path] && Down(path, slot) in entries
      modifies this`nodes, this`kids, this`repr, node
      ensures Linked() && Down(path, slot) in nodes && child == nodes[Down(path, slot)]
      ensures nodes.Keys == old(nodes.Keys) + {Down(path, slot)}
      ensures old(repr) <= repr && fresh(repr - old(repr))
    {
      TrieEntry(nodes, kids, entries, path, slot);
      child := node.children[slot];
      if child == null {
        ghost var nodes', kids' := nodes, kids;
        child := Open(node, path, slot);
        TrieOpenEntry(nodes', kids', entries, path, slot, child);
      }
    }

    // Puts a fresh map into the entry.
    method Open(node: DomainNode, ghost path: Path, slot: Label) returns (child: DomainNode)
      requires Held() && path in nodes && node == nodes[path] && Down(path, slot) !in nodes
      modifies this`nodes, this`kids, this`repr, node
      ensures Held() && nodes == old(nodes)[Down(path, slot) := child] && fresh(child)
      ensures kids == old(kids)[path := old(kids)[path][slot := child]][Down(path, slot) := map[]]
      ensures repr == old(repr) + {child}
    {
      child := new DomainNode(Down(path, slot));
      node.children := node.children[slot := child];
      nodes, repr := nodes[Down(path, slot) := child], repr + {child};
      kids := kids[path := node.children][Down(path, slot) := map[]];
    }

    method AddDomain(domain: string)
      requires Valid()
      modifies this, repr
      ensures Valid() && domains == old(domains) + {DomainPath(domain)}
      ensures fresh(repr - old(repr))
    {
      ghost var was, inner := entries, nodes.Keys;
      AddLabels(Labels(domain));
      ShapeAlong(was, inner, DomainPath(domain));
      PrefixesGrow(was, domains, DomainPath(domain));
      domains := domains + {DomainPath(domain)};
    }

    // The loop of `add_domain` over the labels.
    method AddLabels(labels: seq<Label>)
      requires Linked() && labels != []
      modifies this`nodes, this`kids, this`entries, this`repr, repr
      ensures Linked() && old(repr) <= repr && fresh(repr - old(repr))
      ensures entries == old(entries) + PrefixesOf(PathOf(labels))
      ensures nodes.Keys == old(nodes.Keys) + PrefixesOf(PathOf(labels).parent)
    {
      ghost var path := Root;
      var node, slot := root, labels[0];
      AddEntry(node, path, slot);
      AboveWhole(labels, 0);
      for i := 1 to |labels|
        invariant Linked() && old(repr) <= repr && fresh(repr - old(repr))
        invariant path in nodes && node == nodes[path] && PathOf(labels[..i]) == Down(path, slot)
        invariant entries == old(entries) + PrefixesOf(Down(path, slot))
        invariant nodes.Keys == old(nodes.Keys) + PrefixesOf(path)
      {
        AboveWhole(labels, i);
        MorePrefixes(old(nodes.Keys), path, slot);
        MorePrefixes(old(entries), Down(path, slot), labels[i]);
        node := Descend(node, path, slot, labels[i]);
        path, slot := Down(path, slot), labels[i];
      }
      assert labels[..|labels|] == labels;
    }

    // One round of the loop: down into the map of the entry, and an entry there.
    method Descend(node: DomainNode, ghost path: Path, slot: Label, name: Label) returns (child: DomainNode)
      requires Linked() && path in nodes && node == nodes[path] && Down(path, slot) in entries
      modifies this`nodes, this`kids, this`entries, this`repr, repr
      ensures Linked() && Down(path, slot) in nodes && child == nodes[Down(path, slot)]
      ensures nodes.Keys == old(nodes.Keys) + {Down(path, slot)}
      ensures entries == old(entries) + {Down(Down(path, slot), name)}
      ensures old(repr) <= repr && fresh(repr - old(repr))
    {
      child := OpenEntry(node, path, slot);
      AddEntry(child, Down(path, slot), name);
    }

    // The list of blocked domains, as the DNS server loads it.
    method AddAll(list: seq<string>)
      requires Valid()
      modifies this, repr
      ensures Valid() && fresh(repr - old(repr))
      ensures domains == old(domains) + PathsOf(list)
    {
      for i := 0 to |list|
        invariant Valid() && fresh(repr - old(repr))
        invariant domains == old(domains) + PathsOf(list[..i])
      {
        assert list[..i + 1][..i] == list[..i];
        AddDomain(list[i]);
      }
      assert list[..|list|] == list;
    }

    method Contains(domain: string) returns (found: bool)
      requires Valid()
      ensures found <==> Matches(domains, DomainPath(domain))
    {
      var q := Labels(domain);
      var current := root;
      ghost var path := Root;
      for i := 0 to |q|
        invariant path in nodes && current == nodes[path] && path == PathOf(q[..i])
      {
        AboveWhole(q, i);
        AboveWhole(q, i + 1);
        if q[i] in current.children {
          if current.children[q[i]] == null {
            LeafMatches(entries, nodes.Keys, domains, Down(path, q[i]), PathOf(q));
            return true;
          }
          current := current.children[q[i]];
          path := Down(path, q[i]);
        } else {
          MissingMatchesNot(entries, nodes.Keys, domains, path, q[i], PathOf(q));
          return false;
        }
      }
      assert q[..|q|] == q;
      assert path in entries;
      return true;
    }
  }
}
