/** The branch hierarchy as the tool passes it around: a map from a parent
    branch name to the ordered list of its children (`HashMap<String,
    Vec<String>>`). The helpers here are the map edits the source repeats in
    several places (`entry(p).or_insert_with(Vec::new).push(c)`, `retain`,
    `remove`) and the root finder of src/git/branch.rs. */
module BranchTree {

  type Tree = map<string, seq<string>>

  /** A parent-to-child edge. */
  type Edge = (string, string)

  predicate Distinct<T(==)>(s: seq<T>) {
    forall i, j :: 0 <= i < j < |s| ==> s[i] != s[j]
  }

  /** `sub` is `s` with some elements left out and the rest in order. */
  predicate IsSubsequence<T(==)>(sub: seq<T>, s: seq<T>)
    decreases |s|
  {
    sub == [] || (s != [] && if sub[0] == s[0] then IsSubsequence(sub[1..], s[1..]) else IsSubsequence(sub, s[1..]))
  }

  /** The children listed under `p`, none if `p` is not a key. */
  function ChildrenOf(t: Tree, p: string): seq<string> {
    if p in t then t[p] else []
  }

  /** Every name that occurs in some child list. */
  function AllChildren(t: Tree): set<string> {
    set p, c | p in t && c in t[p] :: c
  }

  /** No key maps to an empty list. */
  predicate NoEmptyLists(t: Tree) {
    forall p :: p in t ==> t[p] != []
  }

  /** `t.entry(p).or_insert_with(Vec::new).push(c)`: append `c` to the list of
      `p`, creating the list if absent. */
  function AddChild(t: Tree, p: string, c: string): (r: Tree)
    ensures r.Keys == t.Keys + {p}
    ensures r[p] == ChildrenOf(t, p) + [c]
    ensures forall q :: q in t && q != p ==> r[q] == t[q]
  {
    t[p := ChildrenOf(t, p) + [c]]
  }

  /** `Vec::retain(|x| x != c)`. */
  function Without(s: seq<string>, c: string): (r: seq<string>)
    ensures c !in r
    ensures forall x :: x != c ==> multiset(r)[x] == multiset(s)[x]
    ensures IsSubsequence(r, s)
  {
    if s == [] then []
    else
      assert s == [s[0]] + s[1..];
      var rest := Without(s[1..], c);
      if s[0] == c then rest
      else
        assert ([s[0]] + rest)[1..] == rest;
        [s[0]] + rest
  }

  /** Drop every occurrence of `c` from the list of `p`; drop the key when the
      list becomes empty; no change when `p` is absent. */
  function RemoveChild(t: Tree, p: string, c: string): (r: Tree)
    ensures p !in t ==> r == t
    ensures c !in ChildrenOf(r, p)
    ensures p in r ==> p in t && r[p] == Without(t[p], c) && r[p] != []
    ensures p in t && Without(t[p], c) == [] ==> p !in r
    ensures forall q :: q != p ==> (q in r <==> q in t) && (q in t ==> r[q] == t[q])
  {
    if p !in t then t
    else
      var rest := Without(t[p], c);
      if rest == [] then t - {p} else t[p := rest]
  }

  lemma {:induction false} WithoutAbsent(s: seq<string>, c: string)
    requires c !in s
    ensures Without(s, c) == s
  {
    if s != [] {
      WithoutAbsent(s[1..], c);
    }
  }

  lemma {:induction false} WithoutAppend(s: seq<string>, x: string, c: string)
    ensures Without(s + [x], c) == Without(s, c) + Without([x], c)
  {
    if s == [] {
      assert s + [x] == [x];
    } else {
      assert (s + [x])[1..] == s[1..] + [x];
      WithoutAppend(s[1..], x, c);
    }
  }

  /** Removing a relationship just added restores the map, provided the child
      was not listed yet and the parent did not hold an empty list. */
  lemma AddThenRemove(t: Tree, p: string, c: string)
    requires p in t ==> t[p] != [] && c !in t[p]
    ensures RemoveChild(AddChild(t, p, c), p, c) == t
  {
    var l := ChildrenOf(t, p);
    WithoutAppend(l, c, c);
    WithoutAbsent(l, c);
    assert Without(l + [c], c) == l;
  }

  /** Adding and removing keep the invariant that no list is empty. */
  lemma EditsKeepListsNonEmpty(t: Tree, p: string, c: string)
    requires NoEmptyLists(t)
    ensures NoEmptyLists(AddChild(t, p, c))
    ensures NoEmptyLists(RemoveChild(t, p, c))
  {
  }

  /** The tree obtained by pushing each edge in turn, oldest first. */
  function EdgesToTree(edges: seq<Edge>): Tree {
    if edges == [] then map[]
    else
      var last := edges[|edges| - 1];
      AddChild(EdgesToTree(edges[..|edges| - 1]), last.0, last.1)
  }

  /** The children of `p` in edge order. */
  function ChildList(edges: seq<Edge>, p: string): (r: seq<string>)
    ensures forall c :: c in r <==> (p, c) in edges
  {
    if edges == [] then []
    else
      var init := edges[..|edges| - 1];
      var last := edges[|edges| - 1];
      assert edges == init + [last];
      ChildList(init, p) + (if last.0 == p then [last.1] else [])
  }

  lemma {:induction false} ChildListAppend(a: seq<Edge>, b: seq<Edge>, p: string)
    ensures ChildList(a + b, p) == ChildList(a, p) + ChildList(b, p)
    decreases |b|
  {
    if b == [] {
      assert a + b == a;
    } else {
      var b' := b[..|b| - 1];
      assert (a + b)[..|a + b| - 1] == a + b';
      ChildListAppend(a, b', p);
    }
  }

  /** Folding edges into a map groups them by parent: the keys are the parents
      that occur, and each list holds that parent's children in edge order. */
  lemma {:induction false} EdgesToTreeGroups(edges: seq<Edge>)
    ensures forall p :: p in EdgesToTree(edges) <==> ChildList(edges, p) != []
    ensures forall p :: p in EdgesToTree(edges) ==> EdgesToTree(edges)[p] == ChildList(edges, p)
  {
    if edges != [] {
      EdgesToTreeGroups(edges[..|edges| - 1]);
    }
  }

  /** An edge list read back from its tree: `c` is listed under `p` exactly
      when the edge p -> c was pushed. */
  lemma EdgesToTreeMembership(edges: seq<Edge>, p: string, c: string)
    ensures c in ChildrenOf(EdgesToTree(edges), p) <==> (p, c) in edges
  {
    EdgesToTreeGroups(edges);
  }

  /** The keys, in iteration order, that occur in no child list. */
  function KeysNotIn(keys: seq<string>, excluded: set<string>): (r: seq<string>)
    ensures forall x :: x in r <==> x in keys && x !in excluded
    ensures IsSubsequence(r, keys)
    ensures Distinct(keys) ==> Distinct(r)
  {
    if keys == [] then []
    else
      var rest := KeysNotIn(keys[1..], excluded);
      assert forall x :: x in keys <==> x == keys[0] || x in keys[1..];
      if keys[0] in excluded then rest
      else
        assert ([keys[0]] + rest)[1..] == rest;
        [keys[0]] + rest
  }

  /** `find_root_branches`: the keys that are nobody's child. `keys` is the
      map's iteration order, which the source leaves unspecified. */
  function FindRootBranches(t: Tree, keys: seq<string>): (roots: seq<string>)
    requires Distinct(keys) && (forall k :: k in keys <==> k in t)
    ensures forall b :: b in roots <==> b in t && b !in AllChildren(t)
    ensures Distinct(roots)
    ensures IsSubsequence(roots, keys)
  {
    KeysNotIn(keys, AllChildren(t))
  }

  /** The keys of `t` in the order a `HashMap` yields them, which the model
      leaves open: any order, each key once. */
  method KeyOrder(t: Tree) returns (keys: seq<string>)
    ensures Distinct(keys)
    ensures forall k :: k in keys <==> k in t
  {
    keys := [];
    var left := t.Keys;
    while left != {}
      invariant left <= t.Keys && Distinct(keys)
      invariant forall k :: k in keys <==> k in t && k !in left
      decreases left
    {
      var k :| k in left;
      keys := keys + [k];
      left := left - {k};
    }
  }
}
