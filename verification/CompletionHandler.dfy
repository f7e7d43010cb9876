/** `any_completion_handler`: who owns a target, and when it is retired. */
module CompletionHandler {
  import opened Bytes

  // ---------------------------------------------------------------- runs

  /** Wrappers by number, each empty or holding a target; per target, how often it was called and
      how often it was destroyed uncalled. */
  datatype World = World(wrappers: map<nat, Option<nat>>, called: seq<nat>, destroyed: seq<nat>)

  datatype Op =
    | Default(w: nat)
    | Create(w: nat)
    | MoveConstruct(w: nat, from: nat)
    | MoveAssign(w: nat, from: nat)
    | NullAssign(w: nat)
    | Swap(w: nat, other: nat)
    | Call(w: nat)
    | Destroy(w: nat)

  const EMPTY := World(map[], [], [])

  /** A constructor makes a new wrapper; everything else is applied to existing ones. */
  predicate Enabled(s: World, op: Op) {
    match op
    case Default(w) => w !in s.wrappers
    case Create(w) => w !in s.wrappers
    case MoveConstruct(w, from) => w !in s.wrappers && from in s.wrappers
    case MoveAssign(w, from) => w in s.wrappers && from in s.wrappers
    case Swap(w, other) => w in s.wrappers && other in s.wrappers
    case _ => op.w in s.wrappers
  }

  function Bump(counts: seq<nat>, t: Option<nat>): (r: seq<nat>)
    ensures |r| == |counts|
  {
    match t
    case None => counts
    case Some(n) => if n < |counts| then counts[n := counts[n] + 1] else counts
  }

  /** What the destructor does to the target of the wrapper that goes away. */
  function DestroyTarget(s: World, t: Option<nat>): World {
    s.(destroyed := Bump(s.destroyed, t))
  }

  function Perform(s: World, op: Op): World
    requires Enabled(s, op)
  {
    match op
    case Default(w) => s.(wrappers := s.wrappers[w := None])
    case Create(w) =>
      World(s.wrappers[w := Some(|s.called|)], s.called + [0], s.destroyed + [0])
    case MoveConstruct(w, from) =>
      s.(wrappers := s.wrappers[w := s.wrappers[from]][from := None])
    case MoveAssign(w, from) =>
      // a temporary takes over from `from`, is swapped with `w`, and is destroyed
      var temporary := s.wrappers[from];
      var emptied := s.wrappers[from := None];
      DestroyTarget(s.(wrappers := emptied[w := temporary]), emptied[w])
    case NullAssign(w) =>
      DestroyTarget(s.(wrappers := s.wrappers[w := None]), s.wrappers[w])
    case Swap(w, other) =>
      s.(wrappers := s.wrappers[w := s.wrappers[other]][other := s.wrappers[w]])
    case Call(w) =>
      // an empty wrapper throws and changes nothing
      s.(wrappers := s.wrappers[w := None], called := Bump(s.called, s.wrappers[w]))
    case Destroy(w) =>
      DestroyTarget(s.(wrappers := s.wrappers - {w}), s.wrappers[w])
  }

  predicate Owns(s: World, w: nat, t: nat) {
    w in s.wrappers && s.wrappers[w] == Some(t)
  }

  /** A target is held by exactly one wrapper and not yet retired, or by none and retired exactly
      once, by a call or by a destruction. */
  ghost predicate OwnedOrRetired(s: World, t: nat)
    requires t < |s.called| == |s.destroyed|
  {
    && (forall w: nat, v: nat :: Owns(s, w, t) && Owns(s, v, t) ==> w == v)
    && (if exists w :: Owns(s, w, t) then s.called[t] + s.destroyed[t] == 0 else s.called[t] + s.destroyed[t] == 1)
  }

  ghost predicate Linear(s: World) {
    && |s.called| == |s.destroyed|
    && (forall w: nat, t: nat :: Owns(s, w, t) ==> t < |s.called|)
    && (forall t :: 0 <= t < |s.called| ==> OwnedOrRetired(s, t))
  }

  /** Moving an object onto itself leaves it as it was; moving onto another destroys what that one
      held and empties the source. */
  lemma MoveAssignEffect(s: World, w: nat, from: nat)
    requires Enabled(s, MoveAssign(w, from))
    ensures w == from ==> Perform(s, MoveAssign(w, from)) == s
    ensures w != from ==>
      Perform(s, MoveAssign(w, from))
      == World(s.wrappers[w := s.wrappers[from]][from := None], s.called, Bump(s.destroyed, s.wrappers[w]))
  {
    if w == from {
      assert s.wrappers[from := None][w := s.wrappers[from]] == s.wrappers;
    } else {
      assert s.wrappers[from := None][w := s.wrappers[from]] == s.wrappers[w := s.wrappers[from]][from := None];
    }
  }

  /** What each operation does: to the wrappers it names, and to the count of the target it gives up. */
  lemma PerformEffect(s: World, op: Op)
    requires Linear(s) && Enabled(s, op)
    ensures var t := Perform(s, op);
            match op
            case Default(w) => t == World(s.wrappers[w := None], s.called, s.destroyed)
            case Create(w) =>
              && Owns(t, w, |s.called|) && t.called == s.called + [0] && t.destroyed == s.destroyed + [0]
              && t.wrappers - {w} == s.wrappers - {w}
            case MoveConstruct(w, from) =>
              && t.wrappers[from] == None && t.wrappers[w] == s.wrappers[from]
              && t.wrappers - {w, from} == s.wrappers - {w, from} && t.called == s.called && t.destroyed == s.destroyed
            case MoveAssign(w, from) =>
              && t.wrappers[w] == s.wrappers[from] && (w != from ==> t.wrappers[from] == None)
              && t.wrappers - {w, from} == s.wrappers - {w, from} && t.called == s.called
              && OneMore(s.destroyed, t.destroyed, if w == from then None else s.wrappers[w])
            case NullAssign(w) =>
              && t.wrappers == s.wrappers[w := None] && t.called == s.called
              && OneMore(s.destroyed, t.destroyed, s.wrappers[w])
            case Swap(w, other) =>
              && t.wrappers[w] == s.wrappers[other] && t.wrappers[other] == s.wrappers[w]
              && t.wrappers - {w, other} == s.wrappers - {w, other}
              && t.called == s.called && t.destroyed == s.destroyed
            case Call(w) =>
              && t.wrappers == s.wrappers[w := None] && t.destroyed == s.destroyed
              && OneMore(s.called, t.called, s.wrappers[w])
            case Destroy(w) =>
              && t.wrappers == s.wrappers - {w} && t.called == s.called
              && OneMore(s.destroyed, t.destroyed, s.wrappers[w])
  {
    if op.MoveAssign? {
      MoveAssignEffect(s, op.w, op.from);
    }
  }

  /** The count of that target has gone up by one, and no other. */
  predicate OneMore(before: seq<nat>, after: seq<nat>, t: Option<nat>) {
    && |after| == |before|
    && forall n :: 0 <= n < |before| ==> after[n] == before[n] + if t == Some(n) then 1 else 0
  }

  /** The operation takes target `t`, and no other, out of circulation. */
  ghost predicate Releases(s: World, t: nat, s': World) {
    && (forall w: nat, n: nat :: Owns(s', w, n) <==> Owns(s, w, n) && n != t)
    && ((s'.called == Bump(s.called, Some(t)) && s'.destroyed == s.destroyed)
        || (s'.called == s.called && s'.destroyed == Bump(s.destroyed, Some(t))))
  }

  lemma ReleaseKeepsLinear(s: World, t: nat, s': World, w: nat)
    requires Linear(s) && Owns(s, w, t) && Releases(s, t, s')
    ensures Linear(s')
  {
    assert OwnedOrRetired(s, t);
    forall n | 0 <= n < |s'.called|
      ensures OwnedOrRetired(s', n)
    {
      assert OwnedOrRetired(s, n);
      if n != t {
        assert (exists v :: Owns(s, v, n)) <==> (exists v :: Owns(s', v, n));
      } else {
        assert !exists v :: Owns(s', v, n);
        assert s.called[t] + s.destroyed[t] == 0;
      }
    }
  }

  lemma CreateKeepsLinear(s: World, w: nat)
    requires Linear(s) && w !in s.wrappers
    ensures Linear(Perform(s, Create(w)))
  {
    var s' := Perform(s, Create(w));
    var latest := |s.called|;
    assert Owns(s', w, latest);
    assert forall v, t :: Owns(s', v, t) <==> Owns(s, v, t) || (v == w && t == latest);
    forall t | 0 <= t < |s'.called|
      ensures OwnedOrRetired(s', t)
    {
      if t < latest {
        assert OwnedOrRetired(s, t);
        assert (exists v :: Owns(s, v, t)) <==> (exists v :: Owns(s', v, t));
      }
    }
  }

  lemma MoveKeepsLinear(s: World, s': World, f: nat -> nat)
    requires Linear(s) && s'.called == s.called && s'.destroyed == s.destroyed
    requires forall w, t :: Owns(s', w, t) <==> Owns(s, f(w), t)
    requires forall w, t :: Owns(s, w, t) ==> f(f(w)) == w
    requires forall w, v :: f(w) == f(v) ==> w == v
    ensures Linear(s')
  {
    forall t | 0 <= t < |s'.called|
      ensures OwnedOrRetired(s', t)
    {
      assert OwnedOrRetired(s, t);
      if w :| Owns(s, w, t) {
        assert Owns(s', f(w), t);
      }
      if w :| Owns(s', w, t) {
        assert Owns(s, f(w), t);
      }
      forall w, v | Owns(s', w, t) && Owns(s', v, t)
        ensures w == v
      {
        assert Owns(s, f(w), t) && Owns(s, f(v), t);
      }
    }
  }

  lemma TransferKeepsLinear(s: World, w: nat, from: nat)
    requires Linear(s) && from in s.wrappers && w != from && (w in s.wrappers ==> s.wrappers[w] == None)
    ensures Linear(s.(wrappers := s.wrappers[w := s.wrappers[from]][from := None]))
  {
    var s' := s.(wrappers := s.wrappers[w := s.wrappers[from]][from := None]);
    var f := (v: nat) => if v == w then from else if v == from then w else v;
    assert forall v, t :: Owns(s', v, t) <==> Owns(s, f(v), t);
    MoveKeepsLinear(s, s', f);
  }

  lemma EmptyingKeepsLinear(s: World, s': World, w: nat)
    requires Linear(s) && w in s.wrappers
    requires forall v, t :: Owns(s', v, t) <==> Owns(s, v, t) && v != w
    requires (s'.called == Bump(s.called, s.wrappers[w]) && s'.destroyed == s.destroyed)
          || (s'.called == s.called && s'.destroyed == Bump(s.destroyed, s.wrappers[w]))
    ensures Linear(s')
  {
    match s.wrappers[w]
    case Some(t) =>
      assert Owns(s, w, t) && OwnedOrRetired(s, t);
      assert Releases(s, t, s');
      ReleaseKeepsLinear(s, t, s', w);
    case None =>
      assert forall v, t :: Owns(s', v, t) <==> Owns(s, v, t);
      MoveKeepsLinear(s, s', (v: nat) => v);
  }

  lemma PerformKeepsLinear(s: World, op: Op)
    requires Linear(s) && Enabled(s, op)
    ensures Linear(Perform(s, op))
  {
    var s' := Perform(s, op);
    match op
    case Default(w) =>
      assert forall v, t :: Owns(s', v, t) <==> Owns(s, v, t);
      MoveKeepsLinear(s, s', (v: nat) => v);
    case Create(w) => CreateKeepsLinear(s, w);
    case MoveConstruct(w, from) => TransferKeepsLinear(s, w, from);
    case MoveAssign(w, from) =>
      MoveAssignEffect(s, w, from);
      if w != from {
        var emptied := Perform(s, NullAssign(w));
        EmptyingKeepsLinear(s, emptied, w);
        TransferKeepsLinear(emptied, w, from);
        assert emptied.wrappers[w := emptied.wrappers[from]][from := None] == s'.wrappers;
      }
    case NullAssign(w) => EmptyingKeepsLinear(s, s', w);
    case Swap(w, other) =>
      var f := (v: nat) => if v == w then other else if v == other then w else v;
      assert forall v, t :: Owns(s', v, t) <==> Owns(s, f(v), t);
      MoveKeepsLinear(s, s', f);
    case Call(w) => EmptyingKeepsLinear(s, s', w);
    case Destroy(w) => EmptyingKeepsLinear(s, s', w);
  }

  function Run(ops: seq<Op>): Option<World> {
    if ops == [] then Some(EMPTY)
    else match Run(ops[..|ops| - 1])
         case None => None
         case Some(s) => if Enabled(s, ops[|ops| - 1]) then Some(Perform(s, ops[|ops| - 1])) else None
  }

  /** Over any sequence of operations every target has at most one owner, and is retired exactly
      once, by a call or a destruction, when and only when it has no owner any more. */
  lemma {:induction false} TargetsRetiredOnce(ops: seq<Op>)
    requires Run(ops).Some?
    ensures Linear(Run(ops).value)
  {
    if ops == [] {
    } else {
      TargetsRetiredOnce(ops[..|ops| - 1]);
      PerformKeepsLinear(Run(ops[..|ops| - 1]).value, ops[|ops| - 1]);
    }
  }

  // ---------------------------------------------------------------- the objects

  /** A target, with counters for what has been done to it. */
  class HandlerImpl {
    const handlerType: nat
    var calls: nat
    var destructions: nat

    constructor (handlerType: nat)
      ensures this.handlerType == handlerType && calls == 0 && destructions == 0
    {
      this.handlerType, calls, destructions := handlerType, 0, 0;
    }
  }

  /** The wrapper: the function table, here the handler type it was made for, and the target. */
  class AnyCompletionHandler {
    var fnTable: Option<nat>
    var impl: HandlerImpl?

    /** A table is never applied to a target of another type. */
    predicate Valid()
      reads this
    {
      impl != null ==> fnTable == Some(impl.handlerType)
    }

    constructor Empty()
      ensures Valid() && impl == null && fnTable == None
    {
      fnTable, impl := None, null;
    }

    constructor Of(target: HandlerImpl)
      ensures Valid() && impl == target
    {
      fnTable, impl := Some(target.handlerType), target;
    }

    constructor Move(other: AnyCompletionHandler)
      requires other.Valid()
      modifies other
      ensures Valid() && impl == old(other.impl) && fnTable == old(other.fnTable)
      ensures other.Valid() && other.impl == null && other.fnTable == None
    {
      fnTable, impl := other.fnTable, other.impl;
      new;
      other.fnTable := None;
      other.impl := null;
    }

    method Swap(other: AnyCompletionHandler)
      requires Valid() && other.Valid()
      modifies this, other
      ensures Valid() && other.Valid()
      ensures impl == old(other.impl) && fnTable == old(other.fnTable)
      ensures other.impl == old(impl) && other.fnTable == old(fnTable)
    {
      fnTable, other.fnTable := other.fnTable, fnTable;
      impl, other.impl := other.impl, impl;
    }

    /** The destructor. */
    method Destroy()
      requires Valid()
      modifies impl
      ensures impl != null ==> impl.destructions == old(impl.destructions) + 1 && impl.calls == old(impl.calls)
    {
      if impl != null {
        assert fnTable == Some(impl.handlerType);
        impl.destructions := impl.destructions + 1;
      }
    }

    /** Also with `other` the object itself, which then keeps its target. */
    method MoveAssign(other: AnyCompletionHandler)
      requires Valid() && other.Valid()
      modifies this, other, impl
      ensures Valid() && other.Valid() && impl == old(other.impl)
      ensures other != this ==> other.impl == null
      ensures old(impl) != null && other != this ==>
        old(impl).destructions == old(impl.destructions) + 1 && old(impl).calls == old(impl.calls)
      ensures old(impl) != null && other == this ==>
        old(impl).destructions == old(impl.destructions) && old(impl).calls == old(impl.calls)
    {
      var temporary := new AnyCompletionHandler.Move(other);
      temporary.Swap(this);
      temporary.Destroy();
    }

    method NullAssign()
      requires Valid()
      modifies this, impl
      ensures Valid() && impl == null
      ensures old(impl) != null ==>
        old(impl).destructions == old(impl.destructions) + 1 && old(impl).calls == old(impl.calls)
    {
      var temporary := new AnyCompletionHandler.Empty();
      temporary.Swap(this);
      temporary.Destroy();
    }

    /** `false` for a thrown `bad_function_call`. The wrapper is left empty before the target runs. */
    method Call() returns (ok: bool)
      requires Valid()
      modifies this`impl, impl
      ensures Valid() && impl == null && fnTable == old(fnTable)
      ensures ok <==> old(impl) != null
      ensures old(impl) != null ==>
        old(impl).calls == old(impl.calls) + 1 && old(impl).destructions == old(impl.destructions)
    {
      ok := impl != null;
      if ok {
        var target: HandlerImpl := impl;
        impl := null;
        target.calls := target.calls + 1;
      }
    }
  }

  // ---------------------------------------------------------------- the objects follow the runs

  /** The wrappers and targets in the heap are those of the world, without aliases. */
  ghost predicate Represents(objects: map<nat, AnyCompletionHandler>, targets: seq<HandlerImpl>, s: World)
    reads objects.Values, targets
  {
    && objects.Keys == s.wrappers.Keys
    && |targets| == |s.called| == |s.destroyed|
    && (forall w, v :: w in objects && v in objects && w != v ==> objects[w] != objects[v])
    && (forall i, j :: 0 <= i < j < |targets| ==> targets[i] != targets[j])
    && (forall w :: w in objects ==> Holds(objects[w], targets, s.wrappers[w]))
    && (forall t :: 0 <= t < |targets| ==> targets[t].calls == s.called[t] && targets[t].destructions == s.destroyed[t])
  }

  ghost predicate Holds(o: AnyCompletionHandler, targets: seq<HandlerImpl>, t: Option<nat>)
    reads o
  {
    && o.Valid()
    && match t
       case None => o.impl == null
       case Some(n) => n < |targets| && o.impl == targets[n]
  }

  // One method per operation, each around the wrapper's own code.

  method OnDefault(objects: map<nat, AnyCompletionHandler>, targets: seq<HandlerImpl>, ghost s: World, w: nat)
    returns (objects': map<nat, AnyCompletionHandler>)
    requires Linear(s) && Represents(objects, targets, s) && Enabled(s, Default(w))
    modifies objects.Values, targets
    ensures Represents(objects', targets, Perform(s, Default(w)))
  {
    var o := new AnyCompletionHandler.Empty();
    objects' := objects[w := o];
  }

  method OnCreate(objects: map<nat, AnyCompletionHandler>, targets: seq<HandlerImpl>, ghost s: World,
                  w: nat, handlerType: nat)
    returns (objects': map<nat, AnyCompletionHandler>, targets': seq<HandlerImpl>)
    requires Linear(s) && Represents(objects, targets, s) && Enabled(s, Create(w))
    modifies objects.Values, targets
    ensures Represents(objects', targets', Perform(s, Create(w)))
  {
    var target := new HandlerImpl(handlerType);
    var o := new AnyCompletionHandler.Of(target);
    objects' := objects[w := o];
    targets' := targets + [target];
  }

  method OnMoveConstruct(objects: map<nat, AnyCompletionHandler>, targets: seq<HandlerImpl>, ghost s: World,
                         w: nat, from: nat)
    returns (objects': map<nat, AnyCompletionHandler>)
    requires Linear(s) && Represents(objects, targets, s) && Enabled(s, MoveConstruct(w, from))
    modifies objects.Values, targets
    ensures Represents(objects', targets, Perform(s, MoveConstruct(w, from)))
  {
    var o := new AnyCompletionHandler.Move(objects[from]);
    objects' := objects[w := o];
  }

  method OnMoveAssign(objects: map<nat, AnyCompletionHandler>, targets: seq<HandlerImpl>, ghost s: World,
                      w: nat, from: nat)
    requires Linear(s) && Represents(objects, targets, s) && Enabled(s, MoveAssign(w, from))
    modifies objects.Values, targets
    ensures Represents(objects, targets, Perform(s, MoveAssign(w, from)))
  {
    MoveAssignEffect(s, w, from);
    objects[w].MoveAssign(objects[from]);
  }

  method OnNullAssign(objects: map<nat, AnyCompletionHandler>, targets: seq<HandlerImpl>, ghost s: World, w: nat)
    requires Linear(s) && Represents(objects, targets, s) && Enabled(s, NullAssign(w))
    modifies objects.Values, targets
    ensures Represents(objects, targets, Perform(s, NullAssign(w)))
  {
    objects[w].NullAssign();
  }

  method OnSwap(objects: map<nat, AnyCompletionHandler>, targets: seq<HandlerImpl>, ghost s: World, w: nat, other: nat)
    requires Linear(s) && Represents(objects, targets, s) && Enabled(s, Swap(w, other))
    modifies objects.Values, targets
    ensures Represents(objects, targets, Perform(s, Swap(w, other)))
  {
    objects[w].Swap(objects[other]);
  }

  method OnCall(objects: map<nat, AnyCompletionHandler>, targets: seq<HandlerImpl>, ghost s: World, w: nat)
    returns (ok: bool)
    requires Linear(s) && Represents(objects, targets, s) && Enabled(s, Call(w))
    modifies objects.Values, targets
    ensures Represents(objects, targets, Perform(s, Call(w)))
    ensures ok <==> s.wrappers[w].Some?
  {
    ok := objects[w].Call();
  }

  method OnDestroy(objects: map<nat, AnyCompletionHandler>, targets: seq<HandlerImpl>, ghost s: World, w: nat)
    returns (objects': map<nat, AnyCompletionHandler>)
    requires Linear(s) && Represents(objects, targets, s) && Enabled(s, Destroy(w))
    modifies objects.Values, targets
    ensures Represents(objects', targets, Perform(s, Destroy(w)))
  {
    objects[w].Destroy();
    objects' := map v | v in objects && v != w :: objects[v];
  }

  /** Each operation of a run is what the wrapper's own code does to the objects. `handlerType` is
      the type of a newly created target. */
  method PerformOn(objects: map<nat, AnyCompletionHandler>, targets: seq<HandlerImpl>, ghost s: World, op: Op,
                   handlerType: nat)
    returns (objects': map<nat, AnyCompletionHandler>, targets': seq<HandlerImpl>)
    requires Linear(s) && Represents(objects, targets, s) && Enabled(s, op)
    modifies objects.Values, targets
    ensures Represents(objects', targets', Perform(s, op))
  {
    objects', targets' := objects, targets;
    match op {
      case Default(w) => objects' := OnDefault(objects, targets, s, w);
      case Create(w) => objects', targets' := OnCreate(objects, targets, s, w, handlerType);
      case MoveConstruct(w, from) => objects' := OnMoveConstruct(objects, targets, s, w, from);
      case MoveAssign(w, from) => OnMoveAssign(objects, targets, s, w, from);
      case NullAssign(w) => OnNullAssign(objects, targets, s, w);
      case Swap(w, other) => OnSwap(objects, targets, s, w, other);
      case Call(w) => var ok := OnCall(objects, targets, s, w);
      case Destroy(w) => objects' := OnDestroy(objects, targets, s, w);
    }
  }
}
