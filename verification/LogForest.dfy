/** The links of the log options as a value: who is whose parent, whose child, and a root. */
module LogForest {
  import opened Bytes

  datatype Forest<N> = Forest(parent: map<N, Option<N>>, children: map<N, seq<N>>, roots: seq<N>)

  ghost predicate Distinct<N>(s: seq<N>) {
    forall i, j :: 0 <= i < j < |s| ==> s[i] != s[j]
  }

  /** Parent links and child lists say the same, and each child is listed once. */
  ghost predicate Linked<N>(f: Forest<N>) {
    && f.parent.Keys == f.children.Keys
    && (forall p, n {:trigger n in f.children[p]} ::
          p in f.children && n in f.children[p] ==> n in f.parent && f.parent[n] == Some(p))
    && (forall n {:trigger f.parent[n]} :: n in f.parent && f.parent[n].Some? ==>
          f.parent[n].value in f.children && n in f.children[f.parent[n].value])
    && (forall p {:trigger f.children[p]} :: p in f.children ==> Distinct(f.children[p]))
  }

  /** The roots, each listed once, are the nodes without a parent, but for `loose` nodes, which
      have neither parent nor place among the roots. */
  ghost predicate Rooted<N>(f: Forest<N>, loose: set<N>) {
    && Distinct(f.roots)
    && (forall n {:trigger n in f.roots} :: n in f.roots ==> n in f.parent)
    && (forall n {:trigger f.parent[n]} {:trigger n in f.roots} ::
          n in f.parent ==> (n in f.roots <==> f.parent[n] == None && n !in loose))
    && (forall n :: n in loose ==> n in f.parent && f.parent[n] == None)
  }

  /** The k-th ancestor of `n`, if it has that many. */
  ghost function Up<N>(f: Forest<N>, n: N, k: nat): Option<N> {
    if k == 0 then Some(n)
    else match Up(f, n, k - 1)
         case None => None
         case Some(m) => if m in f.parent then f.parent[m] else None
  }

  ghost predicate Ends<N>(f: Forest<N>, n: N, k: nat) {
    Up(f, n, k) == None
  }

  ghost predicate Grounded<N>(f: Forest<N>, n: N) {
    exists k: nat :: Ends(f, n, k)
  }

  /** From every node the way up ends. */
  ghost predicate Acyclic<N>(f: Forest<N>) {
    forall n {:trigger Grounded(f, n)} :: n in f.parent ==> Grounded(f, n)
  }

  ghost predicate IsForest<N>(f: Forest<N>) {
    Linked(f) && Rooted(f, {}) && Acyclic(f)
  }

  /** A forest but for `x`, which hangs loose with its subtree. */
  ghost predicate Loose<N>(f: Forest<N>, x: N) {
    Linked(f) && Rooted(f, {x}) && Acyclic(f)
  }

  ghost predicate IsUp<N>(f: Forest<N>, n: N, x: N, k: nat) {
    Up(f, n, k) == Some(x)
  }

  /** `n` lies in the subtree of `x`. */
  ghost predicate InSubtree<N>(f: Forest<N>, n: N, x: N) {
    exists k: nat :: IsUp(f, n, x, k)
  }

  // ---------------------------------------------------------------- operations

  /** `find` and `erase` of the first occurrence. */
  ghost function Remove<N>(s: seq<N>, x: N): seq<N> {
    if s == [] then [] else if s[0] == x then s[1..] else [s[0]] + Remove(s[1..], x)
  }

  ghost function AddChild<N>(f: Forest<N>, p: N, c: N): Forest<N>
    requires p in f.children
  {
    f.(parent := f.parent[c := Some(p)], children := f.children[p := f.children[p] + [c]])
  }

  ghost function RemoveChild<N>(f: Forest<N>, p: N, c: N): Forest<N>
    requires p in f.children
  {
    if c !in f.children[p] then f
    else f.(parent := f.parent[c := None], children := f.children[p := Remove(f.children[p], c)])
  }

  ghost function Create<N>(f: Forest<N>, n: N): Forest<N> {
    Forest(f.parent[n := None], f.children[n := []], f.roots + [n])
  }

  /** A node with its whole subtree, apart from any forest. */
  ghost predicate IsTree<N>(g: Forest<N>, n: N) {
    IsForest(g) && g.roots == [n]
  }

  ghost function Single<N>(n: N): Forest<N> {
    Forest(map[n := None], map[n := []], [n])
  }

  /** The links with a detached tree in view. */
  ghost function Union<N>(f: Forest<N>, g: Forest<N>): Forest<N> {
    Forest(f.parent + g.parent, f.children + g.children, f.roots)
  }

  ghost function Attach<N>(f: Forest<N>, n: N, p: Option<N>): Forest<N>
    requires p.Some? ==> p.value in f.children
  {
    match p
    case Some(q) => AddChild(f, q, n)
    case None => f.(roots := f.roots + [n])
  }

  ghost function Detach<N>(f: Forest<N>, x: N): Forest<N>
    requires x in f.parent && (f.parent[x].Some? ==> f.parent[x].value in f.children)
  {
    match f.parent[x]
    case Some(q) => RemoveChild(f, q, x)
    case None => f.(roots := Remove(f.roots, x))
  }

  /** `AddLogOption` of an option that is in the forest already or comes with the tree `g` below it. */
  ghost function Add<N>(f: Forest<N>, g: Forest<N>, n: N, p: Option<N>): Forest<N>
    requires p.Some? ==> p.value in f.children
  {
    Attach(if n in f.parent then f else Union(f, g), n, p)
  }

  /** `MoveLogOption`. */
  ghost function Move<N>(f: Forest<N>, x: N, p: Option<N>): Forest<N>
    requires Linked(f) && x in f.parent && (p.Some? ==> p.value in f.children)
  {
    Attach(Detach(f, x), x, p)
  }

  // ---------------------------------------------------------------- lists

  /** `r` lists the members of `s` except `x`. */
  ghost predicate Lacks<N>(r: seq<N>, s: seq<N>, x: N) {
    && (forall i :: 0 <= i < |r| ==> r[i] in s && r[i] != x)
    && (forall i :: 0 <= i < |s| && s[i] != x ==> s[i] in r)
  }

  lemma {:induction false} RemoveOne<N>(s: seq<N>, x: N)
    requires Distinct(s)
    ensures Distinct(Remove(s, x)) && Lacks(Remove(s, x), s, x)
  {
    if s == [] {
    } else {
      var rest := s[1..];
      assert s == [s[0]] + rest;
      assert forall i :: 0 <= i < |rest| ==> rest[i] == s[i + 1];
      if s[0] != x {
        RemoveOne(rest, x);
        DistinctCons(s[0], Remove(rest, x));
      }
    }
  }

  /** Erasing takes out one entry, the first with the value, and keeps the order of the rest. */
  lemma {:induction false} RemoveCuts<N>(s: seq<N>, x: N, i: nat)
    requires i < |s| && s[i] == x && x !in s[..i]
    ensures Remove(s, x) == s[..i] + s[i + 1..]
  {
    if i == 0 {
    } else {
      assert s[..i][0] == s[0] && s[1..][..i - 1] == s[..i][1..];
      RemoveCuts(s[1..], x, i - 1);
    }
  }

  lemma {:induction false} RemoveAbsent<N>(s: seq<N>, x: N)
    requires x !in s
    ensures Remove(s, x) == s
  {
    if s == [] {
    } else {
      RemoveAbsent(s[1..], x);
    }
  }

  lemma DistinctCons<N>(x: N, s: seq<N>)
    requires Distinct(s) && x !in s
    ensures Distinct([x] + s)
  {
  }

  lemma DistinctSnoc<N>(s: seq<N>, x: N)
    ensures Distinct(s + [x]) <==> Distinct(s) && x !in s
    ensures forall n :: n in s + [x] <==> n in s || n == x
  {
    assert forall i :: 0 <= i < |s| ==> (s + [x])[i] == s[i];
    assert (s + [x])[|s|] == x;
    if x in s {
      var i :| 0 <= i < |s| && s[i] == x;
    }
  }

  // ---------------------------------------------------------------- ways up

  lemma {:induction false} UpStaysNone<N>(f: Forest<N>, n: N, j: nat, k: nat)
    requires j <= k && Up(f, n, j) == None
    ensures Up(f, n, k) == None
    decreases k
  {
    if j < k {
      UpStaysNone(f, n, j, k - 1);
    }
  }

  lemma {:induction false} UpUp<N>(f: Forest<N>, n: N, j: nat, k: nat)
    requires Up(f, n, j).Some?
    ensures Up(f, n, j + k) == Up(f, Up(f, n, j).value, k)
    decreases k
  {
    if k > 0 {
      UpUp(f, n, j, k - 1);
    }
  }

  /** A way up that never meets `x` is the same after only the parent of `x` has changed. */
  lemma {:induction false} UpUnchanged<N>(f: Forest<N>, g: Forest<N>, x: N, n: N, k: nat)
    requires f.parent.Keys == g.parent.Keys && forall m :: m in f.parent && m != x ==> g.parent[m] == f.parent[m]
    requires forall j: nat :: j < k ==> !IsUp(f, n, x, j)
    ensures Up(g, n, k) == Up(f, n, k)
    decreases k
  {
    if k > 0 {
      UpUnchanged(f, g, x, n, k - 1);
      assert !IsUp(f, n, x, k - 1);
    }
  }

  /** The first time, if any, that the way up from `n` meets `x` within `k` steps. */
  lemma {:induction false} FirstMeeting<N>(f: Forest<N>, n: N, x: N, k: nat) returns (i: nat)
    ensures i <= k
    ensures forall j: nat :: j < i ==> !IsUp(f, n, x, j)
    ensures i < k ==> IsUp(f, n, x, i)
    decreases k
  {
    if k == 0 {
      i := 0;
    } else {
      i := FirstMeeting(f, n, x, k - 1);
      if i == k - 1 && !IsUp(f, n, x, i) {
        i := k;
      }
    }
  }

  /** Cutting `x` off its parent keeps every way up finite. */
  lemma CutKeepsAcyclic<N>(f: Forest<N>, g: Forest<N>, x: N)
    requires Acyclic(f) && x in f.parent
    requires f.parent.Keys == g.parent.Keys && forall m :: m in f.parent && m != x ==> g.parent[m] == f.parent[m]
    requires g.parent[x] == None
    ensures Acyclic(g)
  {
    forall n | n in g.parent
      ensures Grounded(g, n)
    {
      assert Grounded(f, n);
      var k: nat :| Ends(f, n, k);
      var i := FirstMeeting(f, n, x, k);
      UpUnchanged(f, g, x, n, i);
      if i < k {
        assert Ends(g, n, i + 1);
      } else {
        assert Ends(g, n, k);
      }
    }
  }

  /** Hanging `x` below a node outside its subtree keeps every way up finite. */
  lemma HangKeepsAcyclic<N>(f: Forest<N>, g: Forest<N>, x: N, p: N)
    requires Acyclic(f) && x in f.parent && p in f.parent && f.parent[x] == None && !InSubtree(f, p, x)
    requires g.parent == f.parent[x := Some(p)]
    ensures Acyclic(g)
  {
    assert Grounded(f, p);
    var kp: nat :| Ends(f, p, kp);
    forall j: nat | j < kp
      ensures !IsUp(f, p, x, j)
    {
    }
    UpUnchanged(f, g, x, p, kp);
    forall n | n in g.parent
      ensures Grounded(g, n)
    {
      assert Grounded(f, n);
      var k: nat :| Ends(f, n, k);
      var i := FirstMeeting(f, n, x, k);
      UpUnchanged(f, g, x, n, i);
      if i < k {
        assert Up(g, n, i + 1) == Some(p);
        UpUp(g, n, i + 1, kp);
        assert Ends(g, n, i + 1 + kp);
      } else {
        assert Ends(g, n, k);
      }
    }
  }

  /** Hanging `x` below a node of its own subtree makes a cycle: the way up from `x` never ends. */
  lemma HangBelowSelfCycles<N>(f: Forest<N>, g: Forest<N>, x: N, p: N)
    requires x in f.parent && p in f.parent && InSubtree(f, p, x)
    requires g.parent == f.parent[x := Some(p)]
    ensures !Acyclic(g)
  {
    var k: nat :| IsUp(f, p, x, k);
    var i := FirstMeeting(f, p, x, k);
    assert IsUp(f, p, x, i);
    if Grounded(g, x) {
      var m: nat :| Ends(g, x, m);
      var j := OnCycle(f, g, x, p, i, m);
    }
  }

  lemma {:induction false} OnCycle<N>(f: Forest<N>, g: Forest<N>, x: N, p: N, i: nat, m: nat) returns (j: nat)
    requires x in f.parent && IsUp(f, p, x, i) && forall j: nat :: j < i ==> !IsUp(f, p, x, j)
    requires g.parent == f.parent[x := Some(p)]
    ensures j <= i && Up(f, p, j).Some? && Up(g, x, m) == Up(f, p, j)
    decreases m
  {
    if m == 0 {
      j := i;
    } else {
      j := OnCycle(f, g, x, p, i, m - 1);
      if j == i {
        j := 0;
      } else {
        assert !IsUp(f, p, x, j);
        if Up(f, p, j + 1) == None {
          UpStaysNone(f, p, j + 1, i);
        }
        j := j + 1;
      }
    }
  }

  // ---------------------------------------------------------------- what the operations keep

  lemma CreateAttaches<N>(f: Forest<N>, n: N)
    ensures Create(f, n) == Attach(Union(f, Single(n)), n, None)
  {
  }

  lemma CreateKeepsForest<N>(f: Forest<N>, n: N)
    requires IsForest(f) && n !in f.parent
    ensures IsForest(Create(f, n)) && Create(f, n).parent.Keys == f.parent.Keys + {n}
  {
    SingleIsTree(n);
    UnionIsLoose(f, Single(n), n);
    CreateAttaches(f, n);
    AttachRoot(Union(f, Single(n)), n);
  }

  lemma SingleIsTree<N>(n: N)
    ensures IsTree(Single(n), n)
  {
    assert Up(Single(n), n, 1) == None;
    assert Ends(Single(n), n, 1);
  }

  lemma UnionLinked<N>(f: Forest<N>, g: Forest<N>)
    requires Linked(f) && Linked(g) && f.parent.Keys !! g.parent.Keys
    ensures Linked(Union(f, g))
  {
    var h := Union(f, g);
    forall p, n {:trigger n in h.children[p]} | p in h.children && n in h.children[p]
      ensures n in h.parent && h.parent[n] == Some(p)
    {
      if p in g.children {
        assert n in g.children[p];
      } else {
        assert n in f.children[p];
      }
    }
  }

  lemma UnionRooted<N>(f: Forest<N>, g: Forest<N>, n: N)
    requires Rooted(f, {}) && Rooted(g, {}) && g.roots == [n] && f.parent.Keys !! g.parent.Keys
    ensures Rooted(Union(f, g), {n})
  {
    assert n in g.roots;
    assert forall m :: m in g.roots <==> m == n;
  }

  lemma UnionIsLoose<N>(f: Forest<N>, g: Forest<N>, n: N)
    requires IsForest(f) && IsTree(g, n) && f.parent.Keys !! g.parent.Keys
    ensures Loose(Union(f, g), n)
  {
    var h := Union(f, g);
    UnionLinked(f, g);
    UnionRooted(f, g, n);
    forall m | m in h.parent
      ensures Grounded(h, m)
    {
      var part := if m in f.parent then f else g;
      assert Grounded(part, m);
      var k: nat :| Ends(part, m, k);
      UpWithin(part, h, m, k);
      assert Ends(h, m, k);
    }
  }

  /** The way up does not leave a part that is linked in itself. */
  lemma {:induction false} UpWithin<N>(f: Forest<N>, h: Forest<N>, m: N, k: nat)
    requires Linked(f) && m in f.parent
    requires forall n {:trigger f.parent[n]} :: n in f.parent ==> n in h.parent && h.parent[n] == f.parent[n]
    ensures Up(h, m, k) == Up(f, m, k)
    ensures Up(f, m, k).Some? ==> Up(f, m, k).value in f.parent
    decreases k
  {
    if k == 0 {
    } else {
      UpWithin(f, h, m, k - 1);
    }
  }

  lemma DetachRoot<N>(f: Forest<N>, x: N)
    requires IsForest(f) && x in f.parent && f.parent[x] == None
    ensures Loose(Detach(f, x), x)
  {
    var g := Detach(f, x);
    RemoveOne(f.roots, x);
    SameAcyclic(f, g);
  }

  lemma DetachChild<N>(f: Forest<N>, x: N, q: N)
    requires IsForest(f) && x in f.parent && f.parent[x] == Some(q)
    ensures Loose(Detach(f, x), x)
    ensures Detach(f, x).parent == f.parent[x := None] && Detach(f, x).children.Keys == f.children.Keys
    ensures forall m :: m in f.children && m != q ==> Detach(f, x).children[m] == f.children[m]
  {
    var g := Detach(f, x);
    RemoveOne(f.children[q], x);
    CutKeepsAcyclic(f, g, x);
  }

  lemma DetachIsLoose<N>(f: Forest<N>, x: N)
    requires IsForest(f) && x in f.parent
    ensures Loose(Detach(f, x), x) && Detach(f, x).parent == f.parent[x := None]
    ensures forall m :: m in f.children && f.parent[x] != Some(m) ==> Detach(f, x).children[m] == f.children[m]
    ensures Detach(f, x).children.Keys == f.children.Keys
  {
    match f.parent[x]
    case None => DetachRoot(f, x);
    case Some(q) => DetachChild(f, x, q);
  }

  lemma SameAcyclic<N>(f: Forest<N>, g: Forest<N>)
    requires Acyclic(f) && f.parent == g.parent
    ensures Acyclic(g)
  {
    forall n | n in g.parent
      ensures Grounded(g, n)
    {
      assert Grounded(f, n);
      var k: nat :| Ends(f, n, k);
      SameUps(f, g, n, k);
      assert Ends(g, n, k);
    }
  }

  lemma AttachRoot<N>(g: Forest<N>, x: N)
    requires Loose(g, x)
    ensures IsForest(Attach(g, x, None))
  {
    DistinctSnoc(g.roots, x);
    SameAcyclic(g, Attach(g, x, None));
  }

  lemma {:induction false} SameUps<N>(f: Forest<N>, g: Forest<N>, n: N, k: nat)
    requires f.parent == g.parent
    ensures Up(f, n, k) == Up(g, n, k)
    decreases k
  {
    if k > 0 {
      SameUps(f, g, n, k - 1);
    }
  }

  lemma AttachLinked<N>(g: Forest<N>, x: N, p: N)
    requires Loose(g, x) && p in g.children
    ensures var f := Attach(g, x, Some(p)); Linked(f) && Rooted(f, {}) && f.parent == g.parent[x := Some(p)]
  {
    var f := Attach(g, x, Some(p));
    assert x !in g.children[p];
    DistinctSnoc(g.children[p], x);
    forall q, n | q in f.children && n in f.children[q]
      ensures n in f.parent && f.parent[n] == Some(q)
    {
      if q != p {
        assert n in g.children[q];
      }
    }
  }

  /** Adding keeps a forest if and only if the added option is detached; it may bring a tree along. */
  lemma AddKeepsForest<N>(f: Forest<N>, g: Forest<N>, n: N, p: Option<N>)
    requires IsForest(f) && (p.Some? ==> p.value in f.children)
    requires n !in f.parent ==> IsTree(g, n) && f.parent.Keys !! g.parent.Keys
    ensures IsForest(Add(f, g, n, p)) <==> n !in f.parent
    ensures Add(f, g, n, p).parent.Keys == f.parent.Keys + if n in f.parent then {} else g.parent.Keys
  {
    if n in f.parent {
      AddTwiceBreaks(f, g, n, p);
    } else {
      UnionIsLoose(f, g, n);
      assert n in g.roots;
      if p.Some? {
        AddBelow(f, g, n, p.value);
      } else {
        AttachRoot(Union(f, g), n);
      }
    }
  }

  /** Where it stands then: last among its new siblings, whose order is kept. */
  lemma AddPlaces<N>(f: Forest<N>, g: Forest<N>, n: N, p: Option<N>)
    requires IsForest(f) && (p.Some? ==> p.value in f.children)
    requires n !in f.parent ==> IsTree(g, n) && f.parent.Keys !! g.parent.Keys
    ensures var t := Add(f, g, n, p);
            match p
            case Some(q) =>
              && n in t.parent && t.parent[n] == Some(q)
              && t.children[q] == f.children[q] + [n] && t.roots == f.roots
            case None =>
              && t.roots == f.roots + [n]
              && n in t.parent && t.parent[n] == if n in f.parent then f.parent[n] else None
    ensures forall m :: m in f.children && p != Some(m) ==>
              m in Add(f, g, n, p).children && Add(f, g, n, p).children[m] == f.children[m]
    ensures forall m :: m in f.parent && m != n ==>
              m in Add(f, g, n, p).parent && Add(f, g, n, p).parent[m] == f.parent[m]
  {
    assert n !in f.parent ==> n in g.roots;
  }

  lemma CreatePlaces<N>(f: Forest<N>, n: N)
    requires IsForest(f) && n !in f.parent
    ensures var t := Create(f, n);
            && t.roots == f.roots + [n]
            && n in t.parent && t.parent[n] == None && n in t.children && t.children[n] == []
            && forall m :: m in f.parent ==> m in t.parent && t.parent[m] == f.parent[m]
                                             && m in t.children && t.children[m] == f.children[m]
  {
  }

  lemma AddBelow<N>(f: Forest<N>, g: Forest<N>, n: N, p: N)
    requires IsForest(f) && n !in f.parent && p in f.children && IsTree(g, n) && f.parent.Keys !! g.parent.Keys
    ensures IsForest(Add(f, g, n, Some(p)))
  {
    var h := Union(f, g);
    UnionIsLoose(f, g, n);
    AttachLinked(h, n, p);
    if InSubtree(h, p, n) {
      var k: nat :| IsUp(h, p, n, k);
      UpWithin(f, h, p, k);
    }
    HangKeepsAcyclic(h, Attach(h, n, Some(p)), n, p);
  }

  lemma AddTwiceBreaks<N>(f: Forest<N>, g: Forest<N>, n: N, p: Option<N>)
    requires IsForest(f) && n in f.parent && (p.Some? ==> p.value in f.children)
    ensures !(Linked(Add(f, g, n, p)) && Rooted(Add(f, g, n, p), {}))
  {
    var t := Add(f, g, n, p);
    match p
    case None =>
      DistinctSnoc(f.roots, n);
    case Some(q) =>
      DistinctSnoc(f.children[q], n);
      assert t.parent[n] == Some(q);
      match f.parent[n]
      case None => assert n in t.roots;
      case Some(r) =>
        if r != q {
          assert n in t.children[r];
        } else {
          assert !Distinct(t.children[q]);
        }
  }

  /** Moving keeps a forest if and only if the new parent is not in the moved subtree, so never
      under itself or a descendant. Moving to the top always keeps it. */
  lemma MoveKeepsForest<N>(f: Forest<N>, x: N, p: Option<N>)
    requires IsForest(f) && x in f.parent && (p.Some? ==> p.value in f.children)
    ensures IsForest(Move(f, x, p)) <==> (p.Some? ==> !InSubtree(f, p.value, x))
  {
    DetachIsLoose(f, x);
    var g := Detach(f, x);
    match p
    case None => AttachRoot(g, x);
    case Some(q) =>
      AttachLinked(g, x, q);
      SubtreeAfterDetach(f, x, q);
      if InSubtree(g, q, x) {
        HangBelowSelfCycles(g, Attach(g, x, p), x, q);
      } else {
        HangKeepsAcyclic(g, Attach(g, x, p), x, q);
      }
  }

  lemma SubtreeAfterDetach<N>(f: Forest<N>, x: N, n: N)
    requires IsForest(f) && x in f.parent
    ensures InSubtree(Detach(f, x), n, x) <==> InSubtree(f, n, x)
  {
    DetachIsLoose(f, x);
    SubtreeCut(f, Detach(f, x), x, n);
    SubtreeCut(Detach(f, x), f, x, n);
  }

  lemma SubtreeCut<N>(f: Forest<N>, g: Forest<N>, x: N, n: N)
    requires f.parent.Keys == g.parent.Keys && forall m :: m in f.parent && m != x ==> g.parent[m] == f.parent[m]
    ensures InSubtree(f, n, x) ==> InSubtree(g, n, x)
  {
    if k: nat :| IsUp(f, n, x, k) {
      var i := FirstMeeting(f, n, x, k);
      UpUnchanged(f, g, x, n, i);
      assert IsUp(g, n, x, i);
    }
  }

  /** A move loses and duplicates no node, and carries the whole subtree: besides the moved node's
      own parent link, only the child lists of the old and the new parent and the roots change. */
  lemma MoveCarriesSubtree<N>(f: Forest<N>, x: N, p: Option<N>)
    requires IsForest(f) && x in f.parent && (p.Some? ==> p.value in f.children)
    ensures var t := Move(f, x, p);
            && t.parent == f.parent[x := p] && t.children.Keys == f.children.Keys
            && (forall n :: n in f.children && f.parent[x] != Some(n) && p != Some(n) ==>
                  t.children[n] == f.children[n])
  {
    DetachIsLoose(f, x);
  }

  /** Its new place is the last among its new siblings, and it leaves the old ones in their order. */
  lemma MovePlaces<N>(f: Forest<N>, x: N, p: Option<N>)
    requires IsForest(f) && x in f.parent && (p.Some? ==> p.value in f.children)
    ensures forall q :: q in f.children ==>
              && q in Move(f, x, p).children
              && Move(f, x, p).children[q]
                 == (if f.parent[x] == Some(q) then Remove(f.children[q], x) else f.children[q])
                    + (if p == Some(q) then [x] else [])
    ensures Move(f, x, p).roots == (if f.parent[x] == None then Remove(f.roots, x) else f.roots)
                                   + (if p == None then [x] else [])
  {
    assert forall q :: q in f.children ==> f.children[q] + [] == f.children[q];
    assert f.roots + [] == f.roots && Remove(f.roots, x) + [] == Remove(f.roots, x);
    if f.parent[x].Some? {
      var r := f.parent[x].value;
      assert Remove(f.children[r], x) + [] == Remove(f.children[r], x);
    }
  }

  /** The moved node's subtree is the same set of nodes after the move. */
  lemma MovedSubtreeIntact<N>(f: Forest<N>, x: N, p: Option<N>, n: N)
    requires IsForest(f) && x in f.parent && (p.Some? ==> p.value in f.children)
    ensures InSubtree(Move(f, x, p), n, x) <==> InSubtree(f, n, x)
  {
    MoveCarriesSubtree(f, x, p);
    SubtreeCut(f, Move(f, x, p), x, n);
    SubtreeCut(Move(f, x, p), f, x, n);
  }
}
