/** The order in which a forest is searched and displayed: top down, first to last. */
module LogOrder {
  import opened Bytes
  import opened LogForest

  // ---------------------------------------------------------------- depth and rank

  lemma {:induction false} LeastEnd<N>(f: Forest<N>, n: N, k: nat) returns (least: nat)
    requires Ends(f, n, k)
    ensures IsDepth(f, n, least)
    decreases k
  {
    if k == 0 || !Ends(f, n, k - 1) {
      least := k;
      forall j: nat | j < k
        ensures !Ends(f, n, j)
      {
        if Ends(f, n, j) {
          UpStaysNone(f, n, j, k - 1);
        }
      }
    } else {
      least := LeastEnd(f, n, k - 1);
    }
  }

  ghost predicate IsDepth<N>(f: Forest<N>, n: N, k: nat) {
    Ends(f, n, k) && forall j: nat :: j < k ==> !Ends(f, n, j)
  }

  lemma GroundedHasDepth<N>(f: Forest<N>, n: N)
    requires Grounded(f, n)
    ensures exists k: nat :: IsDepth(f, n, k)
  {
    var k: nat :| Ends(f, n, k);
    var least := LeastEnd(f, n, k);
  }

  /** The number of nodes on the way up, the node included. */
  ghost function Depth<N>(f: Forest<N>, n: N): (k: nat)
    requires Grounded(f, n)
    ensures IsDepth(f, n, k)
  {
    GroundedHasDepth(f, n);
    var k: nat :| IsDepth(f, n, k);
    k
  }

  lemma ChildIsDeeper<N>(f: Forest<N>, p: N, c: N)
    requires Linked(f) && Acyclic(f) && p in f.children && c in f.parent && f.parent[c] == Some(p)
    ensures Grounded(f, p) && Grounded(f, c) && Depth(f, c) == Depth(f, p) + 1
  {
    assert Grounded(f, p) && Grounded(f, c);
    var i, j := Depth(f, p), Depth(f, c);
    assert Up(f, c, 1) == Some(p);
    UpUp(f, c, 1, i);
    assert Ends(f, c, i + 1);
    assert !Ends(f, c, 0);
    UpUp(f, c, 1, j - 1);
    assert Ends(f, p, j - 1);
  }

  ghost function DepthBound<N>(f: Forest<N>, ns: set<N>): (b: nat)
    requires forall n :: n in ns ==> Grounded(f, n)
    ensures forall n :: n in ns ==> Depth(f, n) <= b
  {
    if ns == {} then 0
    else
      var n :| n in ns;
      var b := DepthBound(f, ns - {n});
      var d := Depth(f, n);
      assert forall m :: m in ns ==> m == n || m in ns - {n};
      if d <= b then b else d
  }

  /** A number for each node that shrinks from parent to child. */
  ghost function Rank<N>(f: Forest<N>): (r: map<N, nat>)
    requires Linked(f) && Acyclic(f)
    ensures r.Keys == f.parent.Keys
  {
    assert forall n :: n in f.parent.Keys ==> Grounded(f, n);
    var b := DepthBound(f, f.parent.Keys);
    map n | n in f.parent :: b - Depth(f, n)
  }

  lemma RankShrinks<N>(f: Forest<N>, p: N, c: N)
    requires Linked(f) && Acyclic(f) && p in f.children && c in f.children[p]
    ensures c in Rank(f) && p in Rank(f) && Rank(f)[c] < Rank(f)[p]
  {
    ChildIsDeeper(f, p, c);
  }

  ghost predicate RankedBelow<N>(f: Forest<N>, ns: seq<N>, r: nat)
    requires Linked(f) && Acyclic(f)
  {
    forall i :: 0 <= i < |ns| ==> ns[i] in f.parent && Rank(f)[ns[i]] < r
  }

  lemma ChildrenRanked<N>(f: Forest<N>, p: N)
    requires Linked(f) && Acyclic(f) && p in f.children
    ensures RankedBelow(f, f.children[p], Rank(f)[p])
  {
    forall i | 0 <= i < |f.children[p]|
      ensures f.children[p][i] in f.parent && Rank(f)[f.children[p][i]] < Rank(f)[p]
    {
      RankShrinks(f, p, f.children[p][i]);
    }
  }

  // ---------------------------------------------------------------- preorder

  /** Each node followed by its subtree, in list order. */
  ghost function Preorder<N>(f: Forest<N>, r: nat, ns: seq<N>): seq<N>
    requires Linked(f) && Acyclic(f) && RankedBelow(f, ns, r)
    decreases r, |ns|
  {
    if ns == [] then []
    else
      ChildrenRanked(f, ns[0]);
      [ns[0]] + Preorder(f, Rank(f)[ns[0]], f.children[ns[0]]) + Preorder(f, r, ns[1..])
  }

  ghost function RankBound<N>(f: Forest<N>, ns: seq<N>): (r: nat)
    requires Linked(f) && Acyclic(f) && forall i :: 0 <= i < |ns| ==> ns[i] in f.parent
    ensures RankedBelow(f, ns, r)
  {
    if ns == [] then 0
    else
      var r := RankBound(f, ns[1..]);
      var own := Rank(f)[ns[0]] + 1;
      assert forall i :: 1 <= i < |ns| ==> ns[i] == ns[1..][i - 1];
      if own <= r then r else own
  }

  /** The whole forest, root by root. */
  ghost function Order<N>(f: Forest<N>): seq<N>
    requires IsForest(f)
  {
    RootsAreNodes(f);
    Preorder(f, RankBound(f, f.roots), f.roots)
  }

  lemma RootsAreNodes<N>(f: Forest<N>)
    requires IsForest(f)
    ensures forall i :: 0 <= i < |f.roots| ==> f.roots[i] in f.parent && f.parent[f.roots[i]] == None
  {
    forall i | 0 <= i < |f.roots|
      ensures f.roots[i] in f.parent && f.parent[f.roots[i]] == None
    {
      assert f.roots[i] in f.roots;
    }
  }

  /** Every listed node lies below one of `ns`. */
  lemma {:induction false} PreorderBelow<N>(f: Forest<N>, r: nat, ns: seq<N>, m: N)
    requires Linked(f) && Acyclic(f) && RankedBelow(f, ns, r)
    requires m in Preorder(f, r, ns)
    ensures exists i :: 0 <= i < |ns| && InSubtree(f, m, ns[i])
    decreases r, |ns|
  {
    var n := ns[0];
    ChildrenRanked(f, n);
    if m == n {
      assert IsUp(f, m, ns[0], 0);
    } else if m in Preorder(f, Rank(f)[n], f.children[n]) {
      PreorderBelow(f, Rank(f)[n], f.children[n], m);
      var i :| 0 <= i < |f.children[n]| && InSubtree(f, m, f.children[n][i]);
      BelowChild(f, n, f.children[n][i], m);
      assert InSubtree(f, m, ns[0]);
    } else {
      PreorderBelow(f, r, ns[1..], m);
      var i :| 0 <= i < |ns[1..]| && InSubtree(f, m, ns[1..][i]);
      assert InSubtree(f, m, ns[i + 1]);
    }
  }

  lemma BelowChild<N>(f: Forest<N>, p: N, c: N, m: N)
    requires Linked(f) && p in f.children && c in f.children[p] && InSubtree(f, m, c)
    ensures InSubtree(f, m, p)
  {
    var k: nat :| IsUp(f, m, c, k);
    assert IsUp(f, m, p, k + 1);
  }

  /** The listed nodes are closed under children. */
  lemma {:induction false} PreorderClosed<N>(f: Forest<N>, r: nat, ns: seq<N>, p: N, c: N)
    requires Linked(f) && Acyclic(f) && RankedBelow(f, ns, r)
    requires p in Preorder(f, r, ns) && p in f.children && c in f.children[p]
    ensures c in Preorder(f, r, ns)
    decreases r, |ns|
  {
    var n := ns[0];
    ChildrenRanked(f, n);
    if p == n {
      ListedFirst(f, Rank(f)[n], f.children[n], c);
    } else if p in Preorder(f, Rank(f)[n], f.children[n]) {
      PreorderClosed(f, Rank(f)[n], f.children[n], p, c);
    } else {
      PreorderClosed(f, r, ns[1..], p, c);
    }
  }

  lemma {:induction false} ListedFirst<N>(f: Forest<N>, r: nat, ns: seq<N>, n: N)
    requires Linked(f) && Acyclic(f) && RankedBelow(f, ns, r) && n in ns
    ensures n in Preorder(f, r, ns)
    decreases |ns|
  {
    ChildrenRanked(f, ns[0]);
    if n != ns[0] {
      assert n in ns[1..];
      ListedFirst(f, r, ns[1..], n);
    }
  }

  /** Every node of the forest is visited. */
  lemma {:induction false} AllVisited<N>(f: Forest<N>, n: N, k: nat)
    requires IsForest(f) && n in f.parent && Ends(f, n, k)
    ensures n in Order(f)
    decreases k
  {
    RootsAreNodes(f);
    match f.parent[n]
    case None => ListedFirst(f, RankBound(f, f.roots), f.roots, n);
    case Some(p) =>
      assert Up(f, n, 1) == Some(p);
      UpUp(f, n, 1, k - 1);
      AllVisited(f, p, k - 1);
      PreorderClosed(f, RankBound(f, f.roots), f.roots, p, n);
  }

  // ---------------------------------------------------------------- no node twice

  lemma {:induction false} NoWayRound<N>(f: Forest<N>, n: N, k: nat, j: nat)
    requires k > 0 && IsUp(f, n, n, k)
    ensures !Ends(f, n, j)
    decreases j
  {
    if j <= k {
      if Ends(f, n, j) {
        UpStaysNone(f, n, j, k);
      }
    } else {
      UpUp(f, n, k, j - k);
      NoWayRound(f, n, k, j - k);
    }
  }

  lemma NotBelowOwnChild<N>(f: Forest<N>, p: N, c: N)
    requires Linked(f) && Acyclic(f) && p in f.children && c in f.children[p]
    ensures !InSubtree(f, p, c)
  {
    if k: nat :| IsUp(f, p, c, k) {
      assert IsUp(f, p, p, k + 1);
      assert Grounded(f, p);
      var j: nat :| Ends(f, p, j);
      NoWayRound(f, p, k + 1, j);
    }
  }

  /** No node of `ns` lies below another. */
  ghost predicate Apart<N>(f: Forest<N>, ns: seq<N>) {
    forall i, j :: 0 <= i < |ns| && 0 <= j < |ns| && i != j ==> !InSubtree(f, ns[i], ns[j])
  }

  lemma SubtreesDisjoint<N>(f: Forest<N>, a: N, b: N, m: N)
    requires InSubtree(f, m, a) && InSubtree(f, m, b)
    ensures InSubtree(f, a, b) || InSubtree(f, b, a)
  {
    var i: nat :| IsUp(f, m, a, i);
    var j: nat :| IsUp(f, m, b, j);
    if i <= j {
      UpUp(f, m, i, j - i);
      assert IsUp(f, a, b, j - i);
    } else {
      UpUp(f, m, j, i - j);
      assert IsUp(f, b, a, i - j);
    }
  }

  lemma ChildrenApart<N>(f: Forest<N>, p: N)
    requires Linked(f) && Acyclic(f) && p in f.children
    ensures Apart(f, f.children[p])
  {
    var cs := f.children[p];
    forall i, j | 0 <= i < |cs| && 0 <= j < |cs| && i != j
      ensures !InSubtree(f, cs[i], cs[j])
    {
      if k: nat :| IsUp(f, cs[i], cs[j], k) {
        assert Distinct(cs);
        assert cs[i] != cs[j];
        assert cs[i] in cs && cs[j] in cs;
        assert Up(f, cs[i], 1) == Some(p);
        UpUp(f, cs[i], 1, k - 1);
        assert IsUp(f, p, cs[j], k - 1);
        NotBelowOwnChild(f, p, cs[j]);
      }
    }
  }

  lemma RootsApart<N>(f: Forest<N>)
    requires IsForest(f)
    ensures Apart(f, f.roots)
  {
    var rs := f.roots;
    forall i, j | 0 <= i < |rs| && 0 <= j < |rs| && i != j
      ensures !InSubtree(f, rs[i], rs[j])
    {
      if k: nat :| IsUp(f, rs[i], rs[j], k) {
        assert rs[i] in rs && f.parent[rs[i]] == None;
        assert Up(f, rs[i], 1) == None;
        if k > 0 {
          UpStaysNone(f, rs[i], 1, k);
        }
      }
    }
  }

  lemma DistinctConcat<N>(a: seq<N>, b: seq<N>)
    requires Distinct(a) && Distinct(b)
    requires forall i, j :: 0 <= i < |a| && 0 <= j < |b| ==> a[i] != b[j]
    ensures Distinct(a + b)
  {
  }

  lemma {:induction false} PreorderDistinct<N>(f: Forest<N>, r: nat, ns: seq<N>)
    requires Linked(f) && Acyclic(f) && RankedBelow(f, ns, r) && Apart(f, ns)
    ensures Distinct(Preorder(f, r, ns))
    decreases r, |ns|
  {
    if ns == [] {
    } else {
      var n := ns[0];
      ChildrenRanked(f, n);
      ChildrenApart(f, n);
      var below, rest := Preorder(f, Rank(f)[n], f.children[n]), Preorder(f, r, ns[1..]);
      PreorderDistinct(f, Rank(f)[n], f.children[n]);
      assert forall i :: 0 <= i < |ns[1..]| ==> ns[1..][i] == ns[i + 1];
      PreorderDistinct(f, r, ns[1..]);
      forall j | 0 <= j < |below|
        ensures below[j] != n
      {
        NotUnderItself(f, n, below[j]);
      }
      DistinctConcat([n], below);
      forall i, j | 0 <= i < |[n] + below| && 0 <= j < |rest|
        ensures ([n] + below)[i] != rest[j]
      {
        if ([n] + below)[i] == rest[j] {
          HeadApart(f, r, ns, rest[j]);
        }
      }
      DistinctConcat([n] + below, rest);
    }
  }

  lemma NotUnderItself<N>(f: Forest<N>, n: N, m: N)
    requires Linked(f) && Acyclic(f) && n in f.children
    requires RankedBelow(f, f.children[n], Rank(f)[n]) && m in Preorder(f, Rank(f)[n], f.children[n])
    ensures m != n
  {
    PreorderBelow(f, Rank(f)[n], f.children[n], m);
    var i :| 0 <= i < |f.children[n]| && InSubtree(f, m, f.children[n][i]);
    NotBelowOwnChild(f, n, f.children[n][i]);
  }

  lemma HeadApart<N>(f: Forest<N>, r: nat, ns: seq<N>, m: N)
    requires Linked(f) && Acyclic(f) && ns != [] && RankedBelow(f, ns, r) && Apart(f, ns)
    requires RankedBelow(f, f.children[ns[0]], Rank(f)[ns[0]])
    requires m in [ns[0]] + Preorder(f, Rank(f)[ns[0]], f.children[ns[0]])
    ensures m !in Preorder(f, r, ns[1..])
  {
    var n := ns[0];
    if m == n {
      assert IsUp(f, m, n, 0);
    } else {
      PreorderBelow(f, Rank(f)[n], f.children[n], m);
      var i :| 0 <= i < |f.children[n]| && InSubtree(f, m, f.children[n][i]);
      BelowChild(f, n, f.children[n][i], m);
    }
    assert InSubtree(f, m, n);
    if m in Preorder(f, r, ns[1..]) {
      PreorderBelow(f, r, ns[1..], m);
      var j :| 0 <= j < |ns[1..]| && InSubtree(f, m, ns[1..][j]);
      assert ns[1..][j] == ns[j + 1];
      SubtreesDisjoint(f, ns[0], ns[j + 1], m);
    }
  }

  /** Searching or displaying a forest from its roots visits every node exactly once. */
  lemma OrderIsExact<N>(f: Forest<N>)
    requires IsForest(f)
    ensures Distinct(Order(f))
    ensures forall n :: n in f.parent ==> n in Order(f)
    ensures forall i :: 0 <= i < |Order(f)| ==> Order(f)[i] in f.parent
  {
    RootsApart(f);
    RootsAreNodes(f);
    PreorderDistinct(f, RankBound(f, f.roots), f.roots);
    forall n | n in f.parent
      ensures n in Order(f)
    {
      assert Grounded(f, n);
      var k: nat :| Ends(f, n, k);
      AllVisited(f, n, k);
    }
    PreorderNodes(f, RankBound(f, f.roots), f.roots);
  }

  lemma {:induction false} PreorderNodes<N>(f: Forest<N>, r: nat, ns: seq<N>)
    requires Linked(f) && Acyclic(f) && RankedBelow(f, ns, r)
    ensures forall i :: 0 <= i < |Preorder(f, r, ns)| ==> Preorder(f, r, ns)[i] in f.parent
    decreases r, |ns|
  {
    if ns == [] {
    } else {
      ChildrenRanked(f, ns[0]);
      PreorderNodes(f, Rank(f)[ns[0]], f.children[ns[0]]);
      PreorderNodes(f, r, ns[1..]);
    }
  }

  // ---------------------------------------------------------------- which order it is

  ghost predicate Before<N>(s: seq<N>, a: N, b: N) {
    exists i, j :: 0 <= i < j < |s| && s[i] == a && s[j] == b
  }

  lemma BeforeInside<N>(s: seq<N>, a: N, b: N, pre: seq<N>, post: seq<N>)
    requires Before(s, a, b)
    ensures Before(pre + s + post, a, b)
  {
    var i, j :| 0 <= i < j < |s| && s[i] == a && s[j] == b;
    var t := pre + s + post;
    assert t[|pre| + i] == a && t[|pre| + j] == b;
  }

  lemma BeforeAcross<N>(s: seq<N>, t: seq<N>, a: N, b: N)
    requires a in s && b in t
    ensures Before(s + t, a, b)
  {
    var i :| 0 <= i < |s| && s[i] == a;
    var j :| 0 <= j < |t| && t[j] == b;
    assert (s + t)[i] == a && (s + t)[|s| + j] == b;
  }

  /** A node followed by everything below it. */
  ghost function Sub<N>(f: Forest<N>, n: N): seq<N>
    requires Linked(f) && Acyclic(f) && n in f.parent
  {
    ChildrenRanked(f, n);
    [n] + Preorder(f, Rank(f)[n], f.children[n])
  }

  /** The whole subtree of a node is one stretch of the order. */
  lemma {:induction false} SubtreeContiguous<N>(f: Forest<N>, r: nat, ns: seq<N>, n: N)
    returns (pre: seq<N>, post: seq<N>)
    requires Linked(f) && Acyclic(f) && RankedBelow(f, ns, r) && n in Preorder(f, r, ns)
    ensures n in f.parent && Preorder(f, r, ns) == pre + Sub(f, n) + post
    decreases r, |ns|
  {
    var head, rest := ns[0], Preorder(f, r, ns[1..]);
    ChildrenRanked(f, head);
    if n == head {
      pre, post := [], rest;
    } else if n in Preorder(f, Rank(f)[head], f.children[head]) {
      pre, post := SubtreeContiguous(f, Rank(f)[head], f.children[head], n);
      Regroup([head], pre, Sub(f, n), post, rest);
      pre, post := [head] + pre, post + rest;
    } else {
      pre, post := SubtreeContiguous(f, r, ns[1..], n);
      Regroup(Sub(f, head), pre, Sub(f, n), post, []);
      assert post + [] == post;
      pre := Sub(f, head) + pre;
    }
  }

  lemma Regroup<N>(a: seq<N>, pre: seq<N>, s: seq<N>, post: seq<N>, b: seq<N>)
    ensures a + (pre + s + post) + b == (a + pre) + s + (post + b)
  {
  }

  lemma PreorderSplits<N>(f: Forest<N>, r: nat, ns: seq<N>)
    requires Linked(f) && Acyclic(f) && RankedBelow(f, ns, r) && ns != []
    ensures ns[0] in f.parent && RankedBelow(f, ns[1..], r)
    ensures Preorder(f, r, ns) == Sub(f, ns[0]) + Preorder(f, r, ns[1..])
  {
    ChildrenRanked(f, ns[0]);
  }

  lemma ParentOnTheWay<N>(f: Forest<N>, n: N, m: N, k: nat) returns (q: N)
    requires Linked(f) && m in f.parent && IsUp(f, m, n, k) && k > 0
    ensures q in f.children && m in f.children[q] && IsUp(f, q, n, k - 1)
  {
    assert Up(f, m, 1) == f.parent[m];
    if f.parent[m] == None {
      UpStaysNone(f, m, 1, k);
    }
    q := f.parent[m].value;
    UpUp(f, m, 1, k - 1);
  }

  lemma SubClosed<N>(f: Forest<N>, n: N, q: N, m: N)
    requires Linked(f) && Acyclic(f) && n in f.parent && q in Sub(f, n) && q in f.children && m in f.children[q]
    ensures m in Sub(f, n)
  {
    ChildrenRanked(f, n);
    if q == n {
      ListedFirst(f, Rank(f)[n], f.children[n], m);
    } else {
      PreorderClosed(f, Rank(f)[n], f.children[n], q, m);
    }
  }

  /** What lies in the subtree of a node is listed with it. */
  lemma {:induction false} SubtreeListed<N>(f: Forest<N>, n: N, m: N, k: nat)
    requires Linked(f) && Acyclic(f) && n in f.parent && m in f.parent && IsUp(f, m, n, k)
    ensures m in Sub(f, n)
    decreases k
  {
    if k == 0 {
      assert Sub(f, n)[0] == n;
    } else {
      var q := ParentOnTheWay(f, n, m, k);
      SubtreeListed(f, n, q, k - 1);
      SubClosed(f, n, q, m);
    }
  }

  ghost function Flatten<N>(parts: seq<seq<N>>): seq<N> {
    if parts == [] then [] else parts[0] + Flatten(parts[1..])
  }

  lemma {:induction false} InFlatten<N>(parts: seq<seq<N>>, j: nat, b: N)
    requires j < |parts| && b in parts[j]
    ensures b in Flatten(parts)
  {
    if j == 0 {
    } else {
      InFlatten(parts[1..], j - 1, b);
    }
  }

  lemma {:induction false} FlattenKeepsOrder<N>(parts: seq<seq<N>>, i: nat, j: nat, a: N, b: N)
    requires i < j < |parts| && a in parts[i] && b in parts[j]
    ensures Before(Flatten(parts), a, b)
  {
    if i == 0 {
      InFlatten(parts[1..], j - 1, b);
      BeforeAcross(parts[0], Flatten(parts[1..]), a, b);
    } else {
      var rest := Flatten(parts[1..]);
      FlattenKeepsOrder(parts[1..], i - 1, j - 1, a, b);
      BeforeInside(rest, a, b, parts[0], []);
      assert parts[0] + rest + [] == Flatten(parts);
    }
  }

  ghost function Subs<N>(f: Forest<N>, ns: seq<N>): (r: seq<seq<N>>)
    requires Linked(f) && Acyclic(f) && forall i :: 0 <= i < |ns| ==> ns[i] in f.parent
    ensures |r| == |ns| && forall i :: 0 <= i < |ns| ==> r[i] == Sub(f, ns[i])
  {
    if ns == [] then [] else [Sub(f, ns[0])] + Subs(f, ns[1..])
  }

  lemma {:induction false} PreorderIsSubs<N>(f: Forest<N>, r: nat, ns: seq<N>)
    requires Linked(f) && Acyclic(f) && RankedBelow(f, ns, r)
    ensures Preorder(f, r, ns) == Flatten(Subs(f, ns))
    decreases |ns|
  {
    if ns == [] {
    } else {
      PreorderSplits(f, r, ns);
      PreorderIsSubs(f, r, ns[1..]);
      ConcatSplits([Sub(f, ns[0])], Subs(f, ns[1..]));
    }
  }

  lemma InOrder<N>(f: Forest<N>, n: N) returns (pre: seq<N>, post: seq<N>)
    requires IsForest(f) && n in f.parent
    ensures Order(f) == pre + Sub(f, n) + post
  {
    OrderIsExact(f);
    RootsAreNodes(f);
    pre, post := SubtreeContiguous(f, RankBound(f, f.roots), f.roots, n);
  }

  /** Every node comes before all that lies below it. */
  lemma AncestorsFirst<N>(f: Forest<N>, a: N, b: N)
    requires IsForest(f) && a in f.parent && b in f.parent && a != b && InSubtree(f, b, a)
    ensures Before(Order(f), a, b)
  {
    var k: nat :| IsUp(f, b, a, k);
    SubtreeListed(f, a, b, k);
    var below := Sub(f, a)[1..];
    BeforeAcross([a], below, a, b);
    assert [a] + below == Sub(f, a);
    var pre, post := InOrder(f, a);
    BeforeInside(Sub(f, a), a, b, pre, post);
  }

  lemma ListedApart<N>(f: Forest<N>, r: nat, ns: seq<N>, i: nat, j: nat, a: N, b: N)
    requires Linked(f) && Acyclic(f) && RankedBelow(f, ns, r) && i < j < |ns|
    requires a in f.parent && b in f.parent && InSubtree(f, a, ns[i]) && InSubtree(f, b, ns[j])
    ensures Before(Preorder(f, r, ns), a, b)
  {
    var k: nat :| IsUp(f, a, ns[i], k);
    var l: nat :| IsUp(f, b, ns[j], l);
    SubtreeListed(f, ns[i], a, k);
    SubtreeListed(f, ns[j], b, l);
    PreorderIsSubs(f, r, ns);
    FlattenKeepsOrder(Subs(f, ns), i, j, a, b);
  }

  lemma BelowInOrder<N>(f: Forest<N>, p: N, a: N, b: N)
    requires IsForest(f) && p in f.children && RankedBelow(f, f.children[p], Rank(f)[p])
    requires Before(Preorder(f, Rank(f)[p], f.children[p]), a, b)
    ensures Before(Order(f), a, b)
  {
    var below := Preorder(f, Rank(f)[p], f.children[p]);
    var pre, post := InOrder(f, p);
    BeforeInside(below, a, b, [p], []);
    assert [p] + below + [] == Sub(f, p);
    BeforeInside(Sub(f, p), a, b, pre, post);
  }

  /** Of two siblings, or two roots, the one listed first comes first, with all that lies below it. Together
      with the ancestors this decides the order of any two nodes. */
  lemma SiblingsInOrder<N>(f: Forest<N>, p: Option<N>, i: nat, j: nat, a: N, b: N)
    requires IsForest(f) && (p.Some? ==> p.value in f.children)
    requires var cs := if p == None then f.roots else f.children[p.value];
             && i < j < |cs| && a in f.parent && b in f.parent
             && InSubtree(f, a, cs[i]) && InSubtree(f, b, cs[j])
    ensures Before(Order(f), a, b)
  {
    match p
    case None =>
      RootsAreNodes(f);
      ListedApart(f, RankBound(f, f.roots), f.roots, i, j, a, b);
    case Some(q) =>
      ChildrenRanked(f, q);
      ListedApart(f, Rank(f)[q], f.children[q], i, j, a, b);
      BelowInOrder(f, q, a, b);
  }
}
