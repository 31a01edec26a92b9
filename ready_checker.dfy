/** The static state of `StaticReadyChecker<T>` as a value: the ready flag,
    the `OnReady` queue and `Instance`; the operations on it; and runs of
    those operations from the initial state. */
module ReadyGate {
  import opened Wrappers

  /** A queued action, known by identity only. */
  datatype Action = Action(id: nat)

  /** `_isReady`, `OnReady` and `Instance`, `None` standing for `default(T)`. */
  datatype Gate<T> = Gate(isReady: bool, onReady: seq<Action>, instance: Option<T>)

  /** The gate after an operation, and the actions the operation invoked, in
      order. */
  datatype Step<T> = Step(gate: Gate<T>, invoked: seq<Action>)

  function Initial<T>(): Gate<T> {
    Gate(false, [], None)
  }

  /** `DoOnReady(action)` (lines 13-23): an open gate runs the action at once,
      a closed one queues it last; nothing else changes. */
  function DoOnReady<T>(g: Gate<T>, action: Action): (r: Step<T>)
    ensures r.gate.isReady == g.isReady && r.gate.instance == g.instance
    ensures r.invoked == [action] <==> g.isReady
    ensures r.invoked == [] <==> !g.isReady
    ensures r.gate.onReady == if g.isReady then g.onReady else g.onReady + [action]
  {
    if g.isReady then Step(g, [action]) else Step(g.(onReady := g.onReady + [action]), [])
  }

  /** `SetReady(instance)` as written (lines 25-35): the guard refuses a
      second singleton, otherwise `Instance` is set and the whole queue runs;
      the flag is never set and the queue is never emptied. */
  function SetReady<T>(g: Gate<T>, instance: T): (r: Step<T>)
    ensures r.gate.isReady == g.isReady && r.gate.onReady == g.onReady
    ensures g.isReady ==> r == Step(g, [])
    ensures !g.isReady ==> r.gate.instance == Some(instance) && r.invoked == g.onReady
  {
    if g.isReady then Step(g, [])
    else Step(g.(instance := Some(instance)), g.onReady)
  }

  /** `SetReady` as evidently intended: the same, and the gate opens. */
  function SetReadyFixed<T>(g: Gate<T>, instance: T): (r: Step<T>)
    ensures r.gate.isReady && r.gate.onReady == g.onReady
    ensures g.isReady ==> r == Step(g, [])
    ensures !g.isReady ==> r.gate.instance == Some(instance) && r.invoked == g.onReady
  {
    if g.isReady then Step(g, [])
    else Step(Gate(true, g.onReady, Some(instance)), g.onReady)
  }

  /** `Reset` (lines 37-41): closed and without an instance, the queue kept. */
  function Reset<T>(g: Gate<T>): (r: Gate<T>)
    ensures !r.isReady && r.instance == None && r.onReady == g.onReady
  {
    g.(isReady := false, instance := None)
  }

  // ---------------------------------------------------------------------------
  // Runs.

  /** A call of `DoOnReady`, of `SetReady` or of `Reset`. */
  datatype Op<T> = Do(action: Action) | Ready(instance: T) | Clear

  /** One operation, with `SetReady` as written or, if `fixed`, as intended. */
  function Apply<T>(g: Gate<T>, op: Op<T>, fixed: bool): Step<T> {
    match op
    case Do(a) => DoOnReady(g, a)
    case Ready(x) => if fixed then SetReadyFixed(g, x) else SetReady(g, x)
    case Clear => Step(Reset(g), [])
  }

  /** The gate after `ops` from the initial state, and every action invoked
      along the way, in order. */
  function Run<T>(ops: seq<Op<T>>, fixed: bool): Step<T> {
    if ops == [] then Step(Initial(), [])
    else
      var s := Run(ops[..|ops| - 1], fixed);
      var t := Apply(s.gate, ops[|ops| - 1], fixed);
      Step(t.gate, s.invoked + t.invoked)
  }

  /** The actions passed to `DoOnReady`, in call order. */
  function Actions<T>(ops: seq<Op<T>>): seq<Action> {
    if ops == [] then []
    else Actions(ops[..|ops| - 1]) + (if ops[|ops| - 1].Do? then [ops[|ops| - 1].action] else [])
  }

  /** Each `SetReady` running every action passed before it. */
  function ReRuns<T>(ops: seq<Op<T>>): seq<Action> {
    if ops == [] then []
    else
      var init := ops[..|ops| - 1];
      ReRuns(init) + (if ops[|ops| - 1].Ready? then Actions(init) else [])
  }

  /** The instance of the last `SetReady` since the last `Reset`. */
  function Latest<T>(ops: seq<Op<T>>): Option<T> {
    if ops == [] then None
    else
      match ops[|ops| - 1]
      case Do(_) => Latest(ops[..|ops| - 1])
      case Ready(x) => Some(x)
      case Clear => None
  }

  /** Some `SetReady` is among `ops`. */
  predicate HasReady<T>(ops: seq<Op<T>>) {
    exists i :: 0 <= i < |ops| && ops[i].Ready?
  }

  /** The instance of the first `SetReady`, if any. */
  function First<T>(ops: seq<Op<T>>): Option<T> {
    if ops == [] then None
    else if ops[0].Ready? then Some(ops[0].instance)
    else First(ops[1..])
  }

  predicate ResetFree<T>(ops: seq<Op<T>>) {
    forall i :: 0 <= i < |ops| ==> !ops[i].Clear?
  }

  lemma {:induction false} HasReadyStep<T>(ops: seq<Op<T>>, op: Op<T>)
    ensures HasReady(ops + [op]) <==> HasReady(ops) || op.Ready?
    ensures !HasReady(ops) ==> First(ops + [op]) == (if op.Ready? then Some(op.instance) else None)
    ensures HasReady(ops) ==> First(ops + [op]) == First(ops)
    ensures !HasReady(ops) ==> First(ops) == None
  {
    var ops' := ops + [op];
    if HasReady(ops') && !op.Ready? {
      var i :| 0 <= i < |ops'| && ops'[i].Ready?;
      assert ops'[i] == ops[i];
    }
    if HasReady(ops) {
      var i :| 0 <= i < |ops| && ops[i].Ready?;
      assert ops'[i] == ops[i];
    }
    if op.Ready? {
      assert ops'[|ops|] == op;
    }
    if ops != [] {
      assert ops'[1..] == ops[1..] + [op];
      assert HasReady(ops) == (ops[0].Ready? || HasReady(ops[1..])) by {
        if HasReady(ops) && !ops[0].Ready? {
          var i :| 0 <= i < |ops| && ops[i].Ready?;
          assert ops[1..][i - 1] == ops[i];
        }
        if HasReady(ops[1..]) {
          var i :| 0 <= i < |ops[1..]| && ops[1..][i].Ready?;
          assert ops[i + 1] == ops[1..][i];
        }
      }
      if !ops[0].Ready? {
        HasReadyStep(ops[1..], op);
      }
    }
  }

  /** As written, over any run: the gate never opens, the queue holds every
      action ever passed (a `Reset` keeps it), every `SetReady` runs the whole
      queue again, and `Instance` is that of the last `SetReady` since the
      last `Reset`. */
  lemma {:induction false} AsWritten<T>(ops: seq<Op<T>>)
    ensures !Run(ops, false).gate.isReady
    ensures Run(ops, false).gate.onReady == Actions(ops)
    ensures Run(ops, false).invoked == ReRuns(ops)
    ensures Run(ops, false).gate.instance == Latest(ops)
  {
    if ops != [] {
      AsWritten(ops[..|ops| - 1]);
    }
  }

  /** So `DoOnReady` never runs its action, and a late action (passed after
      `SetReady`) does not run at all until `SetReady` is called again. */
  lemma {:induction false} NeverImmediate<T>(ops: seq<Op<T>>, action: Action)
    ensures DoOnReady(Run(ops, false).gate, action).invoked == []
  {
    AsWritten(ops);
  }

  /** An action queued before two `SetReady` calls runs twice, and the second
      call replaces `Instance`; with the intended `SetReady` it runs once and
      the first instance stays. */
  lemma SecondSetReadyReRuns()
    ensures Run([Do(Action(0)), Ready(1), Ready(2)], false) == Step(Gate(false, [Action(0)], Some(2)), [Action(0), Action(0)])
    ensures Run([Do(Action(0)), Ready(1), Ready(2)], true) == Step(Gate(true, [Action(0)], Some(1)), [Action(0)])
  {
    QueuedThenReady(false);
    QueuedThenReady(true);
    var ops := [Do(Action(0)), Ready(1), Ready(2)];
    assert ops[..2] == [Do(Action(0)), Ready(1)];
  }

  /** One action queued, then one `SetReady`. */
  lemma QueuedThenReady(fixed: bool)
    ensures Run([Do(Action(0)), Ready(1)], fixed) == Step(Gate(fixed, [Action(0)], Some(1)), [Action(0)])
  {
    var two := [Do(Action(0)), Ready(1)];
    var one := two[..1];
    assert one == [Do(Action(0))] && one[..0] == [];
    assert Run(one, fixed) == Step(Gate(false, [Action(0)], None), []);
  }

  /** As written, an action passed after the only `SetReady` of a run is
      queued and does not run until another `SetReady` replays the queue;
      with the intended `SetReady` it runs at once. */
  lemma LateActionNeverRuns()
    ensures Run([Ready(1), Do(Action(0))], false).invoked == []
    ensures Run([Ready(1), Do(Action(0))], false).gate.onReady == [Action(0)]
    ensures Run([Ready(1), Do(Action(0)), Ready(2)], false).invoked == [Action(0)]
    ensures Run([Ready(1), Do(Action(0))], true).invoked == [Action(0)]
  {
    var ops := [Ready(1), Do(Action(0))];
    assert ops[..1] == [Ready(1)];
  }

  /** With the intended `SetReady` and no `Reset`: the gate is open exactly
      after the first `SetReady`, which keeps its instance; until then the
      actions wait in the queue, and from then on every action passed has
      run exactly once, in the order passed. */
  lemma {:induction false} FixedRunsEachActionOnce<T>(ops: seq<Op<T>>)
    requires ResetFree(ops)
    ensures Run(ops, true).gate.isReady <==> HasReady(ops)
    ensures Run(ops, true).gate.instance == First(ops)
    ensures !HasReady(ops) ==> Run(ops, true).gate.onReady == Actions(ops) && Run(ops, true).invoked == []
    ensures HasReady(ops) ==> Run(ops, true).invoked == Actions(ops)
  {
    if ops != [] {
      var init, op := ops[..|ops| - 1], ops[|ops| - 1];
      assert ops == init + [op];
      FixedRunsEachActionOnce(init);
      HasReadyStep(init, op);
    }
  }
}

/** `StaticReadyChecker<T>`: one object per type argument `T` holds that
    instantiation's static state, so instantiations never share it. */
module ReadyChecker {
  import opened Wrappers
  import opened ReadyGate

  class StaticReadyChecker<T> {
    var isReady: bool
    var onReady: seq<Action>
    var instance: Option<T>

    function Abs(): Gate<T>
      reads this
    {
      Gate(isReady, onReady, instance)
    }

    constructor ()
      ensures Abs() == Initial()
    {
      isReady := false;
      onReady := [];
      instance := None;
    }

    /** `DoOnReady(action)`; `invoked` are the actions run. */
    method DoOnReady(action: Action) returns (invoked: seq<Action>)
      modifies this
      ensures Step(Abs(), invoked) == ReadyGate.DoOnReady(old(Abs()), action)
    {
      if isReady {
        invoked := [action];
      } else {
        onReady := onReady + [action];
        invoked := [];
      }
    }

    /** `SetReady(instance)` as written; `invoked` are the actions run. */
    method SetReady(instance: T) returns (invoked: seq<Action>)
      modifies this
      ensures Step(Abs(), invoked) == ReadyGate.SetReady(old(Abs()), instance)
    {
      if isReady {
        return [];
      }
      this.instance := Some(instance);
      invoked := onReady;
    }

    /** `SetReady(instance)` with the gate opened after `Instance` is set. */
    method SetReadyFixed(instance: T) returns (invoked: seq<Action>)
      modifies this
      ensures Step(Abs(), invoked) == ReadyGate.SetReadyFixed(old(Abs()), instance)
    {
      if isReady {
        return [];
      }
      this.instance := Some(instance);
      isReady := true;
      invoked := onReady;
    }

    /** `Reset()`. */
    method Reset()
      modifies this
      ensures Abs() == ReadyGate.Reset(old(Abs()))
    {
      isReady := false;
      instance := None;
    }
  }
}
