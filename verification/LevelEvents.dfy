/** The level edge detector of the game manager, and what the client makes of its callbacks. */
module LevelEvents {

  /** What one tick reads from the game: the level has ended, is loading, is assigned. */
  datatype Sample = Sample(ended: bool, loading: bool, hasLevel: bool)

  datatype Callback = Exit | Enter

  datatype State = State(wasEnded: bool, wasLoaded: bool, processMessages: bool)

  const INIT := State(false, false, false)

  function Loaded(x: Sample): bool {
    x.hasLevel && !x.loading
  }

  /** The callbacks of one tick, in the order they run. */
  function Fired(s: State, x: Sample): seq<Callback> {
    var exit := !s.wasEnded && x.ended;
    var loaded := Loaded(x) && !exit;
    (if exit then [Exit] else []) + if !s.wasLoaded && loaded && !x.ended then [Enter] else []
  }

  function Tick(s: State, x: Sample): State {
    var exit := !s.wasEnded && x.ended;
    var fired := Fired(s, x);
    State(x.ended, Loaded(x) && !exit,
          if fired == [] then s.processMessages else fired[|fired| - 1] == Enter)
  }

  function After(trace: seq<Sample>): State {
    if trace == [] then INIT else Tick(After(trace[..|trace| - 1]), trace[|trace| - 1])
  }

  /** `onOpenGame`, which the client's start calls once, directly: the flag is cleared, and set again
      with no callback if the level is on, by a fresh reading and by what the last tick saw. */
  function Opening(s: State, hasLevel: bool): State {
    s.(processMessages := hasLevel && s.wasLoaded && !s.wasEnded)
  }

  /** The same, for a client whose start calls `onOpenGame` after the first `n` ticks. */
  function AfterStart(trace: seq<Sample>, n: nat, hasLevel: bool): State
    requires n <= |trace|
  {
    if |trace| == n then Opening(After(trace), hasLevel)
    else Tick(AfterStart(trace[..|trace| - 1], n, hasLevel), trace[|trace| - 1])
  }

  function Callbacks(trace: seq<Sample>): seq<Callback> {
    if trace == [] then []
    else Callbacks(trace[..|trace| - 1]) + Fired(After(trace[..|trace| - 1]), trace[|trace| - 1])
  }

  // The same, read off the trace alone.

  /** `ended` rises at tick `i`. */
  predicate EndsAt(trace: seq<Sample>, i: int) {
    0 <= i < |trace| && trace[i].ended && (i == 0 || !trace[i - 1].ended)
  }

  /** The loaded flag that tick `i` leaves behind: an exit tick clears it. */
  predicate Remembered(trace: seq<Sample>, i: int) {
    0 <= i < |trace| && Loaded(trace[i]) && !EndsAt(trace, i)
  }

  /** Loading is seen complete at tick `i` of a level that has not ended, against the flag the
      tick before left. */
  predicate EntersAt(trace: seq<Sample>, i: int) {
    0 <= i < |trace| && !trace[i].ended && Loaded(trace[i]) && !Remembered(trace, i - 1)
  }

  lemma {:induction false} StateIsMemory(trace: seq<Sample>)
    ensures After(trace).wasEnded == (trace != [] && trace[|trace| - 1].ended)
    ensures After(trace).wasLoaded == Remembered(trace, |trace| - 1)
  {
    if trace == [] {
    } else {
      StateIsMemory(trace[..|trace| - 1]);
    }
  }

  /** On every trace, tick `i` fires exit exactly when `ended` rises there and enter exactly when
      `EntersAt`, and never both. */
  lemma FiredExactly(trace: seq<Sample>, i: nat)
    requires i < |trace|
    ensures Fired(After(trace[..i]), trace[i])
         == if EndsAt(trace, i) then [Exit] else if EntersAt(trace, i) then [Enter] else []
  {
    StateIsMemory(trace[..i]);
    assert i > 0 ==> trace[..i][i - 1] == trace[i - 1];
    assert Remembered(trace[..i], i - 1) == Remembered(trace, i - 1);
  }

  /** The same, from the samples themselves. */
  lemma FiredFromSamples(trace: seq<Sample>, i: nat)
    requires i < |trace|
    ensures var fired, x := Fired(After(trace[..i]), trace[i]), trace[i];
            && (Exit in fired <==> x.ended && (i > 0 ==> !trace[i - 1].ended))
            && (Enter in fired <==>
                  && !x.ended && x.hasLevel && !x.loading
                  && (i > 0 ==> !trace[i - 1].hasLevel || trace[i - 1].loading
                                || (trace[i - 1].ended && (i > 1 ==> !trace[i - 2].ended))))
            && |fired| <= 1
  {
    FiredExactly(trace, i);
  }

  /** The client processes messages exactly when the latest callback, if any, was enter. */
  lemma {:induction false} ProcessesAfterEnter(trace: seq<Sample>)
    ensures After(trace).processMessages
       <==> Callbacks(trace) != [] && Callbacks(trace)[|Callbacks(trace)| - 1] == Enter
  {
    if trace == [] {
    } else {
      ProcessesAfterEnter(trace[..|trace| - 1]);
      FiredExactly(trace, |trace| - 1);
    }
  }

  // ---------------------------------------------------------------- when messages are processed

  /** An enter at or after tick `n` that no exit follows. */
  predicate EnteredSince(trace: seq<Sample>, n: nat) {
    exists k :: n <= k < |trace| && EntersAt(trace, k) && NoExitSince(trace, k + 1)
  }

  predicate NoExitSince(trace: seq<Sample>, n: nat) {
    forall k :: n <= k < |trace| ==> !EndsAt(trace, k)
  }

  /** The level was on at tick `n - 1`. */
  predicate OnLevelBefore(trace: seq<Sample>, n: nat) {
    Remembered(trace, n - 1) && !trace[n - 1].ended
  }

  lemma {:induction false} StartKeepsMemory(trace: seq<Sample>, n: nat, hasLevel: bool)
    requires n <= |trace|
    ensures AfterStart(trace, n, hasLevel).wasEnded == After(trace).wasEnded
    ensures AfterStart(trace, n, hasLevel).wasLoaded == After(trace).wasLoaded
  {
    if |trace| == n {
    } else {
      StartKeepsMemory(trace[..|trace| - 1], n, hasLevel);
    }
  }

  lemma EventsOfPrefix(trace: seq<Sample>, k: nat)
    requires trace != [] && k < |trace| - 1
    ensures var init := trace[..|trace| - 1];
            EntersAt(init, k) == EntersAt(trace, k) && EndsAt(init, k) == EndsAt(trace, k)
  {
    var init := trace[..|trace| - 1];
    assert Remembered(init, k - 1) == Remembered(trace, k - 1);
  }

  lemma SinceOfPrefix(trace: seq<Sample>, n: nat)
    requires n < |trace|
    ensures var init, i := trace[..|trace| - 1], |trace| - 1;
            && NoExitSince(trace, n) == (NoExitSince(init, n) && !EndsAt(trace, i))
            && EnteredSince(trace, n) == (EntersAt(trace, i) || (EnteredSince(init, n) && !EndsAt(trace, i)))
  {
    var init, i := trace[..|trace| - 1], |trace| - 1;
    forall k | n <= k < i
      ensures EntersAt(init, k) == EntersAt(trace, k) && EndsAt(init, k) == EndsAt(trace, k)
      ensures NoExitSince(trace, k + 1) == (NoExitSince(init, k + 1) && !EndsAt(trace, i))
    {
      EventsOfPrefix(trace, k);
      NoExitOfPrefix(trace, k + 1);
    }
    NoExitOfPrefix(trace, n);
    if EntersAt(trace, i) {
      assert NoExitSince(trace, i + 1);
    }
  }

  lemma NoExitOfPrefix(trace: seq<Sample>, n: nat)
    requires n < |trace|
    ensures NoExitSince(trace, n) == (NoExitSince(trace[..|trace| - 1], n) && !EndsAt(trace, |trace| - 1))
  {
    var init := trace[..|trace| - 1];
    forall k | n <= k < |init|
      ensures EndsAt(init, k) == EndsAt(trace, k)
    {
      EventsOfPrefix(trace, k);
    }
    if NoExitSince(trace, n) {
      forall k | n <= k < |init|
        ensures !EndsAt(init, k)
      {
        assert !EndsAt(trace, k);
      }
    }
  }

  lemma TickProcesses(trace: seq<Sample>, n: nat, hasLevel: bool)
    requires n < |trace|
    ensures var init, i := trace[..|trace| - 1], |trace| - 1;
            AfterStart(trace, n, hasLevel).processMessages
            == if EndsAt(trace, i) then false
               else EntersAt(trace, i) || AfterStart(init, n, hasLevel).processMessages
  {
    StartKeepsMemory(trace[..|trace| - 1], n, hasLevel);
    FiredExactly(trace, |trace| - 1);
  }

  /** When a client that started after `n` ticks processes messages, read off the trace alone: there
      was an enter since with no exit after it, or the level was on at the start and no exit
      followed. */
  lemma {:induction false} ProcessesExactly(trace: seq<Sample>, n: nat, hasLevel: bool)
    requires n <= |trace|
    ensures AfterStart(trace, n, hasLevel).processMessages
       <==> EnteredSince(trace, n) || (hasLevel && OnLevelBefore(trace, n) && NoExitSince(trace, n))
  {
    if |trace| == n {
      StateIsMemory(trace);
    } else {
      var init := trace[..|trace| - 1];
      ProcessesExactly(init, n, hasLevel);
      TickProcesses(trace, n, hasLevel);
      SinceOfPrefix(trace, n);
      assert Remembered(init, n - 1) == Remembered(trace, n - 1);
      assert OnLevelBefore(init, n) == OnLevelBefore(trace, n);
    }
  }

  // ---------------------------------------------------------------- what follows an exit

  /** From a clear flag to a loaded tick, with the level not ended all the way: some tick enters. */
  lemma {:induction false} SomeTickEnters(trace: seq<Sample>, m: int, j: int)
    requires -1 <= m < j < |trace| && !Remembered(trace, m) && Loaded(trace[j])
    requires forall t :: m < t <= j ==> !trace[t].ended
    ensures exists k :: m < k <= j && EntersAt(trace, k)
    decreases j
  {
    if !Remembered(trace, j - 1) {
      assert EntersAt(trace, j);
    } else {
      SomeTickEnters(trace, m, j - 1);
    }
  }

  /** `f` is the first tick after the exit at `i` at which the level has not ended, and it has not
      ended again up to tick `j`. */
  predicate Reopens(trace: seq<Sample>, i: int, f: int, j: int) {
    && EndsAt(trace, i) && i < f <= j < |trace|
    && (forall t :: i <= t < f ==> trace[t].ended)
    && (forall t :: f <= t <= j ==> !trace[t].ended)
  }

  /** When an exit is followed by an enter, exactly. Where the level is on again and loaded, an enter
      has come if and only if the level was seen ended at one tick only, or some tick since the last
      such saw it not loaded. */
  lemma EnterComesExactly(trace: seq<Sample>, i: int, f: int, j: int)
    requires Reopens(trace, i, f, j) && Loaded(trace[j])
    ensures (exists k :: i < k <= j && EntersAt(trace, k))
       <==> (f == i + 1 || exists m :: f - 1 <= m < j && !Loaded(trace[m]))
  {
    if f == i + 1 {
      SomeTickEnters(trace, i, j);
    } else {
      if k :| i < k <= j && EntersAt(trace, k) {
        assert f <= k && !EndsAt(trace, k - 1);
        assert !Loaded(trace[k - 1]);
      }
      if m :| f - 1 <= m < j && !Loaded(trace[m]) {
        SomeTickEnters(trace, m, j);
      }
    }
  }

  /** So that is when a client that was started before the exit processes messages again. */
  lemma MessagesResumeExactly(trace: seq<Sample>, n: nat, hasLevel: bool, i: int, f: int)
    requires n <= i && Reopens(trace, i, f, |trace| - 1) && Loaded(trace[|trace| - 1])
    ensures AfterStart(trace, n, hasLevel).processMessages
       <==> (f == i + 1 || exists m :: f - 1 <= m < |trace| - 1 && !Loaded(trace[m]))
  {
    var j := |trace| - 1;
    ProcessesExactly(trace, n, hasLevel);
    EnterComesExactly(trace, i, f, j);
    assert !NoExitSince(trace, n);
    if k :| n <= k < |trace| && EntersAt(trace, k) && NoExitSince(trace, k + 1) {
      assert i < k;
    }
    if k :| i < k <= j && EntersAt(trace, k) {
      assert f <= k;
      assert NoExitSince(trace, k + 1);
    }
  }

  /** An exit without an enter: the level is still loaded when `ended` falls again, after a second
      tick that saw it ended and remembered it as loaded. */
  lemma StaleLoadSwallowsEnter()
    ensures var trace := [Sample(true, false, true), Sample(true, false, true), Sample(false, false, true)];
            Callbacks(trace) == [Exit] && !After(trace).processMessages
            && Reopens(trace, 0, 2, 2) && Loaded(trace[2]) && Loaded(trace[1])
  {
    var trace := [Sample(true, false, true), Sample(true, false, true), Sample(false, false, true)];
    EnterComesExactly(trace, 0, 2, 2);
    FiredExactly(trace, 0);
    FiredExactly(trace, 1);
    FiredExactly(trace, 2);
    assert trace[..3] == trace && trace[..3][..2] == trace[..2];
    assert trace[..2][..1] == trace[..1] && trace[..1][..0] == [];
    assert Callbacks(trace[..1]) == [] + [Exit];
    assert Callbacks(trace[..2]) == Callbacks(trace[..1]) + [];
    assert Callbacks(trace[..3]) == Callbacks(trace[..2]) + [];
    ProcessesAfterEnter(trace);
  }

  /** The loaded flag goes from set to clear at tick `k`: the level is left, by an exit or unloaded. */
  predicate LeavesAt(trace: seq<Sample>, k: int) {
    Remembered(trace, k - 1) && k < |trace| && (EndsAt(trace, k) || !Loaded(trace[k]))
  }

  lemma {:induction false} FlagFalls(trace: seq<Sample>, i: int, j: int)
    requires 0 <= i < j < |trace| && Remembered(trace, i) && !Remembered(trace, j)
    ensures exists k :: i < k <= j && LeavesAt(trace, k)
    decreases j
  {
    if Remembered(trace, j - 1) {
      assert LeavesAt(trace, j);
    } else {
      FlagFalls(trace, i, j - 1);
    }
  }

  /** No level is entered twice without being left: between two enters the loaded flag falls. */
  lemma EntersAreSeparated(trace: seq<Sample>, i: nat, j: nat)
    requires i < j && EntersAt(trace, i) && EntersAt(trace, j)
    ensures exists k :: i < k < j && LeavesAt(trace, k)
  {
    FlagFalls(trace, i, j - 1);
  }

  // ---------------------------------------------------------------- open and close

  datatype GameState = GameState(wasOpen: bool, openings: nat, closings: nat)

  /** `updateGameState`, counting the open and close events it fires. */
  function GameTick(s: GameState, isOpen: bool): GameState {
    if !isOpen then GameState(false, s.openings, if s.wasOpen then s.closings + 1 else s.closings)
    else if s.wasOpen then GameState(true, s.openings + 1, s.closings)
    else s
  }

  function GameAfter(trace: seq<bool>): GameState {
    if trace == [] then GameState(false, 0, 0) else GameTick(GameAfter(trace[..|trace| - 1]), trace[|trace| - 1])
  }

  /** From a set flag, which nothing sets, each tick of an open game would fire open, and the first of a
      closed one close; from a clear flag nothing ever fires. */
  lemma GameTickFires(s: GameState, isOpen: bool)
    ensures var t := GameTick(s, isOpen);
            && t.openings == s.openings + (if s.wasOpen && isOpen then 1 else 0)
            && t.closings == s.closings + (if s.wasOpen && !isOpen then 1 else 0)
            && t.wasOpen == (s.wasOpen && isOpen)
  {
  }

  /** Over every trace no open or close event fires: the flag starts false and nothing raises it. */
  lemma {:induction false} NeverOpensOrCloses(trace: seq<bool>)
    ensures GameAfter(trace) == GameState(false, 0, 0)
  {
    if trace == [] {
    } else {
      NeverOpensOrCloses(trace[..|trace| - 1]);
    }
  }

  // ---------------------------------------------------------------- the object

  class LevelDetector {
    var wasLevelEnded: bool
    var isLevelEnded: bool
    var wasLevelLoaded: bool
    var isLevelLoaded: bool
    var wasHobbitOpen: bool
    /** The client's flag, which its enter and exit listeners set. */
    var processMessages: bool

    function View(): State
      reads this
    {
      State(wasLevelEnded, wasLevelLoaded, processMessages)
    }

    /** Between ticks the current flags are the remembered ones. */
    predicate Valid()
      reads this
    {
      isLevelEnded == wasLevelEnded && isLevelLoaded == wasLevelLoaded
    }

    constructor ()
      ensures Valid() && View() == INIT && !wasHobbitOpen
    {
      wasLevelEnded, isLevelEnded, wasLevelLoaded, isLevelLoaded := false, false, false, false;
      wasHobbitOpen, processMessages := false, false;
    }

    method EventEnterNewLevel()
      modifies this`isLevelLoaded, this`processMessages
      ensures isLevelLoaded && processMessages
    {
      isLevelLoaded := true;
      processMessages := true;
    }

    method EventExitLevel()
      modifies this`isLevelLoaded, this`processMessages
      ensures !isLevelLoaded && !processMessages
    {
      isLevelLoaded := false;
      processMessages := false;
    }

    method UpdateLevelState(x: Sample) returns (fired: seq<Callback>)
      modifies this
      ensures Valid() && View() == Tick(old(View()), x) && fired == Fired(old(View()), x)
      ensures wasHobbitOpen == old(wasHobbitOpen)
    {
      fired := [];
      isLevelEnded := x.ended;
      isLevelLoaded := x.hasLevel && !x.loading;
      if wasLevelEnded != isLevelEnded && isLevelEnded {
        EventExitLevel();
        fired := fired + [Exit];
      }
      if wasLevelLoaded != isLevelLoaded && isLevelLoaded && !isLevelEnded {
        EventEnterNewLevel();
        fired := fired + [Enter];
      }
      wasLevelEnded := isLevelEnded;
      wasLevelLoaded := isLevelLoaded;
    }

    /** `isOnLevel`, with its own reading of the level pointer. */
    method IsOnLevel(hasLevel: bool) returns (on: bool)
      requires Valid()
      ensures on == (hasLevel && View().wasLoaded && !View().wasEnded)
    {
      on := hasLevel && isLevelLoaded && !isLevelEnded;
    }

    /** `onOpenGame`; the client's `onEnterNewLevel` sets the flag without a callback. */
    method OnOpenGame(hasLevel: bool)
      requires Valid()
      modifies this`processMessages
      ensures Valid() && View() == Opening(old(View()), hasLevel)
    {
      processMessages := false;
      var on := IsOnLevel(hasLevel);
      if on {
        processMessages := true;
      }
    }

    method UpdateGameState(isOpen: bool, ghost before: GameState) returns (opens: nat, closes: nat)
      requires before.wasOpen == wasHobbitOpen
      modifies this`wasHobbitOpen
      ensures GameState(wasHobbitOpen, before.openings + opens, before.closings + closes) == GameTick(before, isOpen)
    {
      opens, closes := 0, 0;
      if !isOpen {
        if isOpen != wasHobbitOpen {
          closes := 1;
        }
        wasHobbitOpen := isOpen;
        return;
      }
      if wasHobbitOpen {
        opens := 1;
        wasHobbitOpen := isOpen;
      }
    }
  }
}
