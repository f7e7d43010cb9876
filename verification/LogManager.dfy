/** The log options and their manager, whose links are changed in place. */
module LogSystem {
  import opened Bytes
  import opened LogForest
  import opened LogOrder

  /** `find` followed by `erase` on a vector of options. */
  method EraseFirst(list: seq<LogOption>, x: LogOption) returns (found: bool, rest: seq<LogOption>)
    ensures found <==> x in list
    ensures rest == Remove(list, x)
  {
    var i := 0;
    while i < |list| && list[i] != x
      invariant 0 <= i <= |list|
      invariant x !in list[..i]
      invariant Remove(list, x) == list[..i] + Remove(list[i..], x)
    {
      assert list[..i + 1] == list[..i] + [list[i]];
      ConcatAssociates(list[..i], [list[i]], Remove(list[i + 1..], x));
      assert list[i..][1..] == list[i + 1..];
      i := i + 1;
    }
    found := i < |list|;
    if found {
      rest := list[..i] + list[i + 1..];
      assert list[i..][1..] == list[i + 1..];
    } else {
      rest := list;
      assert list[..i] == list;
    }
  }

  class LogOption {
    const name: string
    var active: bool
    var parent: LogOption?
    var children: seq<LogOption>

    constructor (name: string)
      ensures this.name == name && active && parent == null && children == []
    {
      this.name, active, parent, children := name, true, null, [];
    }

    method AddChild(child: LogOption)
      modifies this`children, child`parent
      ensures children == old(children) + [child] && child.parent == this
    {
      child.parent := this;
      children := children + [child];
    }

    method RemoveChild(child: LogOption)
      modifies this`children, child`parent
      ensures children == Remove(old(children), child)
      ensures child.parent == if child in old(children) then null else old(child.parent)
    {
      var found, rest := EraseFirst(children, child);
      if found {
        child.parent := null;
      }
      children := rest;
    }

    method SetStatus(active: bool)
      modifies this`active
      ensures this.active == active
    {
      this.active := active;
    }
  }

  ghost function Link(o: LogOption?): Option<LogOption> {
    if o == null then None else Some(o)
  }

  ghost function Just(o: LogOption?): set<LogOption> {
    if o == null then {} else {o}
  }

  /** First node with a name, in the order given. */
  ghost function FirstNamed(order: seq<LogOption>, name: string): LogOption? {
    if order == [] then null else if order[0].name == name then order[0] else FirstNamed(order[1..], name)
  }

  lemma {:induction false} FirstNamedConcat(a: seq<LogOption>, b: seq<LogOption>, name: string)
    ensures FirstNamed(a + b, name) == if FirstNamed(a, name) != null then FirstNamed(a, name) else FirstNamed(b, name)
  {
    if a == [] {
      assert a + b == b;
    } else {
      assert (a + b)[1..] == a[1..] + b;
      FirstNamedConcat(a[1..], b, name);
    }
  }

  /** No option before it has the name. */
  lemma {:induction false} FirstNamedIsFirst(order: seq<LogOption>, name: string, i: nat)
    requires i < |order| && order[i].name == name && forall j :: 0 <= j < i ==> order[j].name != name
    ensures FirstNamed(order, name) == order[i]
  {
    if i == 0 {
    } else {
      FirstNamedIsFirst(order[1..], name, i - 1);
    }
  }

  lemma {:induction false} FirstNamedFinds(order: seq<LogOption>, name: string)
    ensures match Link(FirstNamed(order, name))
            case None => forall i :: 0 <= i < |order| ==> order[i].name != name
            case Some(o) => o in order && o.name == name
  {
    if order == [] {
    } else {
      FirstNamedFinds(order[1..], name);
      assert forall i :: 1 <= i < |order| ==> order[i] == order[1..][i - 1];
    }
  }

  /** The value says what the options it is about hold. */
  ghost predicate Shown(f: Forest<LogOption>)
    reads f.children.Keys
  {
    && f.parent.Keys == f.children.Keys
    && (forall o {:trigger f.children[o]} :: o in f.children ==> f.children[o] == o.children)
    && (forall o {:trigger f.parent[o]} :: o in f.children ==> f.parent[o] == Link(o.parent))
  }

  class LogManager {
    var rootLogs: seq<LogOption>
    /** The links of all options of the manager's forest, as a value. */
    ghost var links: Forest<LogOption>

    ghost function Options(): set<LogOption>
      reads this
    {
      links.children.Keys
    }

    /** The value mirrors the heap. */
    ghost predicate Mirrored()
      reads this, links.children.Keys
    {
      Shown(links) && links.roots == rootLogs
    }

    ghost predicate Valid()
      reads this, links.children.Keys
    {
      Mirrored() && IsForest(links)
    }

    constructor ()
      ensures Valid() && links == Forest(map[], map[], [])
    {
      rootLogs, links := [], Forest(map[], map[], []);
    }

    method CreateLogOption(name: string) returns (logOption: LogOption)
      requires Valid()
      modifies this
      ensures fresh(logOption) && logOption.name == name && logOption.active
      ensures links == Create(old(links), logOption) && Valid()
    {
      logOption := new LogOption(name);
      CreateKeepsForest(links, logOption);
      rootLogs := rootLogs + [logOption];
      links := Create(links, logOption);
    }

    lemma ParentKnown(o: LogOption)
      requires Valid() && o in Options()
      ensures o.parent != null ==> o.parent in Options() && o in o.parent.children
    {
      assert links.parent[o] == Link(o.parent);
      if o.parent != null {
        assert links.children[o.parent] == o.parent.children;
      }
    }

    /** The second half of an add or a move. */
    method AttachTo(logOption: LogOption, newParent: LogOption?)
      requires Mirrored() && logOption in Options() && (newParent != null ==> newParent in Options())
      modifies this, logOption`parent, Just(newParent)`children
      ensures Mirrored() && links == Attach(old(links), logOption, Link(newParent))
    {
      links := Attach(links, logOption, Link(newParent));
      if newParent != null {
        newParent.AddChild(logOption);
      } else {
        rootLogs := rootLogs + [logOption];
      }
    }

    /** The first half of a move. */
    method DetachFrom(logOption: LogOption)
      requires Mirrored() && logOption in Options()
      requires logOption.parent != null ==> logOption.parent in Options() && logOption in logOption.parent.children
      modifies this, Options()`parent, Options()`children
      ensures Mirrored() && logOption in old(links).parent
      ensures old(links).parent[logOption].Some? ==> old(links).parent[logOption].value in old(links).children
      ensures links == Detach(old(links), logOption)
    {
      assert links.parent[logOption] == Link(logOption.parent);
      if logOption.parent != null {
        var q: LogOption := logOption.parent;
        assert links.children[q] == q.children;
        links := RemoveChild(links, q, logOption);
        q.RemoveChild(logOption);
      } else {
        links := links.(roots := Remove(links.roots, logOption));
        var found, rest := EraseFirst(rootLogs, logOption);
        rootLogs := rest;
      }
    }

    /** `AddLogOption` of any option, in the forest already or not; a new one may bring a tree of its own
        along. Only a detached one keeps the forest. */
    method AddLogOption(logOption: LogOption, parent: LogOption?, ghost tree: Forest<LogOption>)
      requires Valid() && (parent != null ==> parent in Options())
      requires logOption !in Options() ==> IsTree(tree, logOption) && tree.children.Keys !! Options() && Shown(tree)
      modifies this, logOption`parent, Just(parent)`children
      ensures links == Add(old(links), tree, logOption, Link(parent))
      ensures Valid() <==> logOption !in old(Options())
    {
      ghost var before := links;
      if logOption !in Options() {
        BringTree(logOption, tree);
      }
      AttachTo(logOption, parent);
      AddKeepsForest(before, tree, logOption, Link(parent));
    }

    /** Takes a detached tree into view. */
    ghost method BringTree(logOption: LogOption, tree: Forest<LogOption>)
      requires Valid() && IsTree(tree, logOption) && tree.children.Keys !! Options() && Shown(tree)
      modifies this`links
      ensures Mirrored() && links == Union(old(links), tree) && logOption in Options()
      ensures old(Options()) <= Options()
    {
      links := Union(links, tree);
      assert logOption in tree.roots;
    }

    /** The body of a move, which asks nothing of the forest's shape but that `logOption` is listed
        by its parent. */
    method Relink(logOption: LogOption, newParent: LogOption?)
      requires Mirrored() && logOption in Options() && (newParent != null ==> newParent in Options())
      requires logOption.parent != null ==> logOption.parent in Options() && logOption in logOption.parent.children
      modifies this, Options()`parent, Options()`children, logOption`active
      ensures Mirrored() && logOption in old(links).parent
      ensures old(links).parent[logOption].Some? ==> old(links).parent[logOption].value in old(links).children
      ensures newParent != null ==> newParent in Detach(old(links), logOption).children
      ensures links == Attach(Detach(old(links), logOption), logOption, Link(newParent))
      ensures logOption.active == (old(logOption.active) || newParent == null)
    {
      DetachFrom(logOption);
      AttachTo(logOption, newParent);
      if newParent == null {
        logOption.SetStatus(true);
      }
    }

    method MoveLogOption(logOption: LogOption, newParent: LogOption?)
      requires Valid() && logOption in Options() && (newParent != null ==> newParent in Options())
      modifies this, Options()`parent, Options()`children, logOption`active
      ensures links == Move(old(links), logOption, Link(newParent))
      ensures Valid() <==> (newParent != null ==> !InSubtree(old(links), newParent, logOption))
      ensures logOption.active == (old(logOption.active) || newParent == null)
    {
      ParentKnown(logOption);
      MoveKeepsForest(links, logOption, Link(newParent));
      Relink(logOption, newParent);
    }

    /** The recursive search: the first option with the name in `Preorder`, or null. */
    method FindLogOptionByName(logOptions: seq<LogOption>, name: string, ghost r: nat) returns (found: LogOption?)
      requires Mirrored() && Linked(links) && Acyclic(links) && RankedBelow(links, logOptions, r)
      ensures found == FirstNamed(Preorder(links, r, logOptions), name)
      decreases r
    {
      for i := 0 to |logOptions|
        invariant FirstNamed(Preorder(links, r, logOptions), name)
               == FirstNamed(Preorder(links, r, logOptions[i..]), name)
      {
        var logOption := logOptions[i];
        PreorderStep(links, r, logOptions, i, name);
        if logOption.name == name {
          return logOption;
        }
        assert links.children[logOption] == logOption.children;
        var foundInChildren := FindLogOptionByName(logOption.children, name, Rank(links)[logOption]);
        if foundInChildren != null {
          return foundInChildren;
        }
      }
      return null;
    }

    /** Search from the roots: the first option with the name in display order; null exactly when
        no option of the forest has it. */
    method Find(name: string) returns (found: LogOption?)
      requires Valid()
      ensures found == FirstNamed(Order(links), name)
      ensures found != null ==> found in Options() && found.name == name
      ensures found == null <==> forall o :: o in Options() ==> o.name != name
    {
      RootsAreNodes(links);
      found := FindLogOptionByName(rootLogs, name, RankBound(links, rootLogs));
      FindIsExact(links, name);
    }

    /** The by-name move: an unknown option is reported and nothing changes; an unknown new parent
        moves the option to the top and activates it; nothing stops a move into the option's own
        subtree. No other option is switched. */
    method MoveByName(logOptionName: string, newParentName: string)
      requires Valid()
      modifies this, Options()
      ensures var x := FirstNamed(Order(old(links)), logOptionName);
              var p := FirstNamed(Order(old(links)), newParentName);
              if x == null then links == old(links) && Valid()
              else x in old(Options()) && (p != null ==> p in old(Options()))
                   && links == Move(old(links), x, Link(p))
                   && (Valid() <==> (p != null ==> !InSubtree(old(links), p, x)))
                   && x.active == (old(x.active) || p == null)
      ensures forall o: LogOption :: o in old(Options()) && o != FirstNamed(Order(old(links)), logOptionName) ==>
                o.active == old(o.active)
    {
      var logOption := Find(logOptionName);
      var newParent := Find(newParentName);
      if logOption == null {
        return;
      }
      MoveLogOption(logOption, newParent);
    }

    /** `DisplayLogOption` over a list: the options in the order their lines are written. */
    method DisplayLogOptions(logOptions: seq<LogOption>, ghost r: nat) returns (shown: seq<LogOption>)
      requires Mirrored() && Linked(links) && Acyclic(links) && RankedBelow(links, logOptions, r)
      ensures shown == Preorder(links, r, logOptions)
      decreases r
    {
      ghost var f, all := links, Preorder(links, r, logOptions);
      shown := [];
      for i := 0 to |logOptions|
        invariant shown + Preorder(f, r, logOptions[i..]) == all
      {
        var logOption := logOptions[i];
        PreorderUnfold(f, r, logOptions, i);
        assert f.children[logOption] == logOption.children;
        var below := DisplayLogOptions(logOption.children, Rank(f)[logOption]);
        var one := [logOption] + below;
        ConcatAssociates(shown, one, Preorder(f, r, logOptions[i + 1..]));
        shown := shown + one;
      }
    }

    /** `DisplayHierarchy`: every option of the forest is shown, and none twice. */
    method DisplayHierarchy() returns (shown: seq<LogOption>)
      requires Valid()
      ensures shown == Order(links)
      ensures Distinct(shown) && forall o :: o in Options() ==> o in shown
      ensures forall i :: 0 <= i < |shown| ==> shown[i] in Options()
    {
      RootsAreNodes(links);
      shown := DisplayLogOptions(rootLogs, RankBound(links, rootLogs));
      OrderIsExact(links);
    }
  }

  lemma FindIsExact(f: Forest<LogOption>, name: string)
    requires IsForest(f)
    ensures match Link(FirstNamed(Order(f), name))
            case None => forall o :: o in f.children ==> o.name != name
            case Some(o) => o in f.children && o.name == name
  {
    FirstNamedFinds(Order(f), name);
    OrderIsExact(f);
  }

  lemma PreorderUnfold(f: Forest<LogOption>, r: nat, ns: seq<LogOption>, i: nat)
    requires Linked(f) && Acyclic(f) && RankedBelow(f, ns, r) && i < |ns|
    ensures ns[i] in f.children && RankedBelow(f, f.children[ns[i]], Rank(f)[ns[i]])
    ensures Preorder(f, r, ns[i..])
         == ([ns[i]] + Preorder(f, Rank(f)[ns[i]], f.children[ns[i]])) + Preorder(f, r, ns[i + 1..])
  {
    ChildrenRanked(f, ns[i]);
    assert ns[i..][0] == ns[i] && ns[i..][1..] == ns[i + 1..];
  }

  /** One turn of the search: the option itself, then its subtree, then the rest of the list. */
  lemma PreorderStep(f: Forest<LogOption>, r: nat, ns: seq<LogOption>, i: nat, name: string)
    requires Linked(f) && Acyclic(f) && RankedBelow(f, ns, r) && i < |ns|
    ensures ns[i] in f.children && RankedBelow(f, f.children[ns[i]], Rank(f)[ns[i]])
    ensures var below := FirstNamed(Preorder(f, Rank(f)[ns[i]], f.children[ns[i]]), name);
            FirstNamed(Preorder(f, r, ns[i..]), name)
            == if ns[i].name == name then ns[i]
               else if below != null then below
               else FirstNamed(Preorder(f, r, ns[i + 1..]), name)
  {
    PreorderUnfold(f, r, ns, i);
    var below, after := Preorder(f, Rank(f)[ns[i]], f.children[ns[i]]), Preorder(f, r, ns[i + 1..]);
    FirstNamedConcat([ns[i]] + below, after, name);
    FirstNamedConcat([ns[i]], below, name);
  }
}
