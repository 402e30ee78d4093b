/**
 What the generated setup code does when any of the calls it makes may fail.

 The code is interpreted statement by statement.  Every foreign call takes its return
 code from an oracle indexed by the number of calls made so far, so an oracle is one
 pattern of failures; a failing constructor leaves nothing behind.
 */
module DeploymentRuns {
  import opened Common
  import opened Deployment

  /** The code each successive foreign call returns. */
  type Oracle = nat -> int

  datatype Machine = Machine(
    calls: nat,
    live: seq<Resource>,      // created successfully, in order
    flags: set<Resource>,     // the context's initialised flags
    finished: seq<Resource>,  // finalizers called, in order
    capacity: nat,            // what the executor was created with
    handles: seq<string>,     // subscriptions it has accepted, in order
    ready: Option<seq<string>>) // those it was prepared with

  // ----- Interpreter -------------------------------------------------------------

  /** Runs fini code; `result` is its local variable, `given` that the pointer is not null. */
  function RunFini(code: seq<Statement>, m: Machine, result: int, oracle: Oracle, given: bool): (Machine, int) {
    if code == [] then (m, result)
    else
      match code[0]
      case RejectNull =>
        if given then RunFini(code[1..], m, result, oracle, given) else (m, INVALID_ARGUMENT)
      case FinishIfSet(r) =>
        if r in m.flags then
          RunFini(code[1..], m.(calls := m.calls + 1, finished := m.finished + [r]),
                  if oracle(m.calls) != OK then ERROR else result, oracle, given)
        else
          RunFini(code[1..], m, result, oracle, given)
      case ReturnResult => (m, result)
      case _ => RunFini(code[1..], m, result, oracle, given)
  }

  /** Records a successful constructor call. */
  function Created(m: Machine, r: Resource, capacity: nat): Machine {
    var next := m.(calls := m.calls + 1, live := m.live + [r]);
    if r == Executor then next.(capacity := capacity, handles := [], ready := None) else next
  }

  /** Records a successful prepare call. */
  function Prepared(m: Machine): Machine {
    m.(calls := m.calls + 1, ready := Some(m.handles))
  }

  /** Runs init code; on the way out it may run the fini code, whose result it drops. */
  function RunInit(code: seq<Statement>, m: Machine, result: int, oracle: Oracle, given: bool, fini: seq<Statement>)
    : (Machine, int)
  {
    if code == [] then (m, result)
    else
      var rest := code[1..];
      match code[0]
      case RejectNull =>
        if given then RunInit(rest, m, result, oracle, given, fini) else (m, INVALID_ARGUMENT)
      case ClearContext => RunInit(rest, m.(flags := {}), result, oracle, given, fini)
      case Create(r, capacity) =>
        if oracle(m.calls) == OK then RunInit(rest, Created(m, r, capacity), OK, oracle, given, fini)
        else RunInit(rest, m.(calls := m.calls + 1), oracle(m.calls), oracle, given, fini)
      case ReturnIfFailed(cleanUp) =>
        if result == OK then RunInit(rest, m, result, oracle, given, fini)
        else (if cleanUp then RunFini(fini, m, OK, oracle, true).0 else m, result)
      case SetFlag(r) => RunInit(rest, m.(flags := m.flags + {r}), result, oracle, given, fini)
      // A full executor refuses a further subscription.
      case AddSubscription(id) =>
        if |m.handles| >= m.capacity then RunInit(rest, m.(calls := m.calls + 1), ERROR, oracle, given, fini)
        else if oracle(m.calls) == OK then
          RunInit(rest, m.(calls := m.calls + 1, handles := m.handles + [id]), OK, oracle, given, fini)
        else RunInit(rest, m.(calls := m.calls + 1), oracle(m.calls), oracle, given, fini)
      case Prepare =>
        if oracle(m.calls) == OK then RunInit(rest, Prepared(m), OK, oracle, given, fini)
        else RunInit(rest, m.(calls := m.calls + 1), oracle(m.calls), oracle, given, fini)
      case ReturnOk => (m, OK)
      case _ => RunInit(rest, m, result, oracle, given, fini)
  }

  /** The generated fini, called on a context. */
  function Fini(endpoints: seq<Endpoint>, m: Machine, oracle: Oracle, given: bool): (Machine, int) {
    RunFini(FiniCode(endpoints), m, OK, oracle, given)
  }

  /** The generated init, called on a context. */
  function Init(endpoints: seq<Endpoint>, m: Machine, oracle: Oracle, given: bool): (Machine, int) {
    RunInit(InitCode(endpoints), m, OK, oracle, given, FiniCode(endpoints))
  }

  // ----- What the oracle decides -------------------------------------------------

  /** How many of the `n` calls from number `from` on succeed before the first failure. */
  function Successes(oracle: Oracle, from: nat, n: nat): (k: nat)
    ensures k <= n
    decreases n
  {
    if n == 0 || oracle(from) != OK then 0 else 1 + Successes(oracle, from + 1, n - 1)
  }

  lemma {:induction false} SuccessesExactly(oracle: Oracle, from: nat, n: nat)
    ensures var k := Successes(oracle, from, n);
      && (forall i :: from <= i < from + k ==> oracle(i) == OK)
      && (k < n ==> oracle(from + k) != OK)
    decreases n
  {
    if n > 0 && oracle(from) == OK {
      SuccessesExactly(oracle, from + 1, n - 1);
    }
  }

  /** A run of calls succeeds piece by piece. */
  lemma {:induction false} SuccessesSplit(oracle: Oracle, from: nat, a: nat, b: nat)
    ensures Successes(oracle, from, a + b) ==
      if Successes(oracle, from, a) < a then Successes(oracle, from, a)
      else a + Successes(oracle, from + a, b)
    decreases a
  {
    if a > 0 && oracle(from) == OK {
      SuccessesSplit(oracle, from + 1, a - 1, b);
    }
  }

  /** The endpoints of a validated deployment: distinct, in order, each of the kind its text names. */
  lemma ValidatedAreDistinct(raw: seq<RawEndpoint>, capacity: nat)
    requires Valid(raw, capacity)
    ensures var endpoints := seq(|raw|, i requires 0 <= i < |raw| => Parsed(raw[i]));
      && DistinctEndpoints(endpoints)
      && forall i :: 0 <= i < |raw| ==>
           && endpoints[i].id == raw[i].id
           && raw[i].kind == if endpoints[i].kind == Subscription then "subscription" else "publisher"
  {
    forall i | 0 <= i < |raw|
      ensures raw[i].kind == if Parsed(raw[i]).kind == Subscription then "subscription" else "publisher"
    {
      assert WellFormed(raw[i]);
    }
  }

  // ----- Fini --------------------------------------------------------------------

  /** The flagged resources among those looked at, in the same order. */
  function Flagged(resources: seq<Resource>, flags: set<Resource>): seq<Resource> {
    if resources == [] then []
    else (if resources[0] in flags then [resources[0]] else []) + Flagged(resources[1..], flags)
  }

  /** The machine after these finalizers have been called. */
  function Visited(m: Machine, visited: seq<Resource>): Machine {
    m.(calls := m.calls + |visited|, finished := m.finished + visited)
  }

  /** What fini reports after `n` finalizer calls. */
  function Verdict(oracle: Oracle, from: nat, n: nat, result: int): int {
    if Successes(oracle, from, n) < n then ERROR else result
  }

  lemma FinishOne(r: Resource, rest: seq<Statement>, m: Machine, result: int, oracle: Oracle, given: bool)
    requires r in m.flags
    ensures RunFini([FinishIfSet(r)] + rest, m, result, oracle, given) ==
      RunFini(rest, Visited(m, [r]), Verdict(oracle, m.calls, 1, result), oracle, given)
  {
    assert ([FinishIfSet(r)] + rest)[1..] == rest;
  }

  lemma FinishNone(r: Resource, rest: seq<Statement>, m: Machine, result: int, oracle: Oracle, given: bool)
    requires r !in m.flags
    ensures RunFini([FinishIfSet(r)] + rest, m, result, oracle, given) == RunFini(rest, m, result, oracle, given)
  {
    assert ([FinishIfSet(r)] + rest)[1..] == rest;
  }

  lemma VisitedAppend(m: Machine, a: seq<Resource>, b: seq<Resource>)
    ensures Visited(Visited(m, a), b) == Visited(m, a + b)
  {
    assert m.finished + a + b == m.finished + (a + b);
  }

  lemma VerdictNext(oracle: Oracle, from: nat, n: nat, result: int)
    ensures Verdict(oracle, from + 1, n, Verdict(oracle, from, 1, result)) == Verdict(oracle, from, n + 1, result)
  {
    SuccessesSplit(oracle, from, 1, n);
  }

  lemma {:induction false} FinishesRun(
      resources: seq<Resource>, m: Machine, result: int, oracle: Oracle, given: bool)
    ensures var visited := Flagged(resources, m.flags);
      RunFini(Finishes(resources) + [ReturnResult], m, result, oracle, given) ==
        (Visited(m, visited), Verdict(oracle, m.calls, |visited|, result))
  {
    if resources == [] {
      assert Visited(m, []) == m by { assert m.finished + [] == m.finished; }
    } else {
      var r, rest := resources[0], Finishes(resources[1..]) + [ReturnResult];
      assert Finishes(resources) + [ReturnResult] == [FinishIfSet(r)] + rest;
      var later := Flagged(resources[1..], m.flags);
      if r in m.flags {
        FinishOne(r, rest, m, result, oracle, given);
        FinishesRun(resources[1..], Visited(m, [r]), Verdict(oracle, m.calls, 1, result), oracle, given);
        VisitedAppend(m, [r], later);
        VerdictNext(oracle, m.calls, |later|, result);
      } else {
        FinishNone(r, rest, m, result, oracle, given);
        FinishesRun(resources[1..], m, result, oracle, given);
        assert [] + later == later;
      }
    }
  }

  /**
   Whatever fails, fini calls the finalizer of every flagged resource, in its fixed
   order, and reports an error exactly when one of those calls failed.
   */
  lemma FiniVisitsAll(endpoints: seq<Endpoint>, m: Machine, oracle: Oracle)
    ensures var visited := Flagged(FinishOrder(endpoints), m.flags);
      Fini(endpoints, m, oracle, true) == (Visited(m, visited), Verdict(oracle, m.calls, |visited|, OK))
  {
    assert FiniCode(endpoints)[1..] == Finishes(FinishOrder(endpoints)) + [ReturnResult];
    FinishesRun(FinishOrder(endpoints), m, OK, oracle, true);
  }

  // ----- Creation order backwards is the finish order ----------------------------

  ghost predicate NoRepeats(s: seq<Resource>) {
    forall i, j :: 0 <= i < j < |s| ==> s[i] != s[j]
  }

  ghost function ElementsOf(s: seq<Resource>): set<Resource> {
    set r | r in s
  }

  lemma {:induction false} FlaggedAll(s: seq<Resource>, flags: set<Resource>)
    requires forall i :: 0 <= i < |s| ==> s[i] in flags
    ensures Flagged(s, flags) == s
  {
    if s != [] {
      FlaggedAll(s[1..], flags);
    }
  }

  lemma {:induction false} ReversedKeepsElements(s: seq<Resource>)
    ensures forall r :: r in Reversed(s) <==> r in s
  {
    if s != [] {
      ReversedKeepsElements(s[..|s| - 1]);
      assert s == s[..|s| - 1] + [s[|s| - 1]];
    }
  }

  /** Of a list looked at backwards, the flagged first `k` are that prefix backwards. */
  lemma {:induction false} FlaggedBackwards(all: seq<Resource>, k: nat)
    requires NoRepeats(all) && k <= |all|
    ensures Flagged(Reversed(all), ElementsOf(all[..k])) == Reversed(all[..k])
  {
    if k == |all| {
      assert all[..k] == all;
      ReversedKeepsElements(all);
      FlaggedAll(Reversed(all), ElementsOf(all));
    } else {
      var x, shorter := all[|all| - 1], all[..|all| - 1];
      assert shorter[..k] == all[..k];
      assert x !in all[..k];
      FlaggedBackwards(shorter, k);
      assert Reversed(all)[1..] == Reversed(shorter);
    }
  }

  lemma {:induction false} ReversedAppend(a: seq<Resource>, b: seq<Resource>)
    ensures Reversed(a + b) == Reversed(b) + Reversed(a)
  {
    if b == [] {
      assert a + b == a;
    } else {
      var shorter := b[..|b| - 1];
      assert (a + b)[..|a + b| - 1] == a + shorter;
      ReversedAppend(a, shorter);
    }
  }

  lemma CreationHasNoRepeats(endpoints: seq<Endpoint>)
    requires DistinctEndpoints(endpoints)
    ensures NoRepeats(CreationOrder(endpoints))
  {
    var all := CreationOrder(endpoints);
    forall i, j | 0 <= i < j < |all|
      ensures all[i] != all[j]
    {
      if 0 < i && j <= |endpoints| {
        assert all[i] == OfEndpoint(endpoints[i - 1]) && all[j] == OfEndpoint(endpoints[j - 1]);
      }
    }
  }

  lemma ReversedOne(r: Resource)
    ensures Reversed([r]) == [r]
  {
    assert [r][..0] == [];
  }

  lemma FinishOrderIsBackwards(endpoints: seq<Endpoint>)
    ensures FinishOrder(endpoints) ==
      (if Subscriptions(endpoints) == [] then [Executor] else []) + Reversed(CreationOrder(endpoints))
  {
    var core, backwards := [Node] + OfEndpoints(endpoints), Reversed(OfEndpoints(endpoints));
    ReversedAppend([Node], OfEndpoints(endpoints));
    ReversedOne(Node);
    assert Reversed(core) == backwards + [Node];
    if Subscriptions(endpoints) == [] {
      assert CreationOrder(endpoints) == core;
      assert [Executor] + backwards + [Node] == [Executor] + (backwards + [Node]);
    } else {
      ReversedAppend(core, [Executor]);
      ReversedOne(Executor);
      assert [Executor] + backwards + [Node] == [] + ([Executor] + (backwards + [Node]));
    }
  }

  lemma FlaggedSkips(r: Resource, rest: seq<Resource>, flags: set<Resource>)
    requires r !in flags
    ensures Flagged([r] + rest, flags) == Flagged(rest, flags)
  {
    assert ([r] + rest)[1..] == rest;
  }

  /** Fini after the first `k` creations finalizes exactly those, last created first. */
  lemma FinishesPrefixBackwards(endpoints: seq<Endpoint>, k: nat)
    requires DistinctEndpoints(endpoints) && k <= |CreationOrder(endpoints)|
    ensures var made := CreationOrder(endpoints)[..k];
      Flagged(FinishOrder(endpoints), ElementsOf(made)) == Reversed(made)
  {
    var all := CreationOrder(endpoints);
    CreationHasNoRepeats(endpoints);
    FlaggedBackwards(all, k);
    FinishOrderIsBackwards(endpoints);
    if Subscriptions(endpoints) == [] {
      assert Executor !in all[..k];
      FlaggedSkips(Executor, Reversed(all), ElementsOf(all[..k]));
    } else {
      assert [] + Reversed(all) == Reversed(all);
    }
  }

  // ----- Init --------------------------------------------------------------------

  /** The machine after a resource has been created and flagged. */
  function MadeOne(m: Machine, r: Resource, capacity: nat): Machine {
    var next := Created(m, r, if r == Executor then capacity else 0);
    next.(flags := next.flags + {r})
  }

  function Made(m: Machine, resources: seq<Resource>, capacity: nat): Machine
    decreases |resources|
  {
    if resources == [] then m else Made(MadeOne(m, resources[0], capacity), resources[1..], capacity)
  }

  /** The machine after a call has failed and the code has cleaned up behind itself. */
  function Abandoned(m: Machine, cleanUp: bool, oracle: Oracle, fini: seq<Statement>): Machine {
    var failed := m.(calls := m.calls + 1);
    if cleanUp then RunFini(fini, failed, OK, oracle, true).0 else failed
  }

  lemma BlockRuns(r: Resource, capacity: nat, rest: seq<Statement>, m: Machine, oracle: Oracle, fini: seq<Statement>)
    ensures RunInit(Block(r, capacity) + rest, m, OK, oracle, true, fini) ==
      if oracle(m.calls) == OK then RunInit(rest, MadeOne(m, r, capacity), OK, oracle, true, fini)
      else (Abandoned(m, r != Node, oracle, fini), oracle(m.calls))
  {
    var code := Block(r, capacity) + rest;
    var flag := [SetFlag(r)] + rest;
    var check := [ReturnIfFailed(r != Node)] + flag;
    assert code[1..] == check && check[1..] == flag && flag[1..] == rest;
    if oracle(m.calls) == OK {
      var next := Created(m, r, if r == Executor then capacity else 0);
      assert RunInit(code, m, OK, oracle, true, fini) == RunInit(check, next, OK, oracle, true, fini);
      assert RunInit(check, next, OK, oracle, true, fini) == RunInit(flag, next, OK, oracle, true, fini);
    } else {
      var failed := m.(calls := m.calls + 1);
      assert RunInit(code, m, OK, oracle, true, fini) == RunInit(check, failed, oracle(m.calls), oracle, true, fini);
    }
  }

  lemma MadeFirst(m: Machine, resources: seq<Resource>, capacity: nat, k: nat)
    requires k < |resources|
    ensures Made(m, resources[..k + 1], capacity) == Made(MadeOne(m, resources[0], capacity), resources[1..][..k], capacity)
  {
    assert resources[..k + 1][1..] == resources[1..][..k];
  }

  lemma FirstBlock(resources: seq<Resource>, capacity: nat, rest: seq<Statement>)
    requires resources != []
    ensures Blocks(resources, capacity) + rest
         == Block(resources[0], capacity) + (Blocks(resources[1..], capacity) + rest)
  {
  }

  /** When every constructor succeeds, the blocks make their resources and the code goes on. */
  lemma {:induction false} BlocksRun(
      resources: seq<Resource>, capacity: nat, rest: seq<Statement>, m: Machine, oracle: Oracle, fini: seq<Statement>)
    requires Successes(oracle, m.calls, |resources|) == |resources|
    ensures RunInit(Blocks(resources, capacity) + rest, m, OK, oracle, true, fini)
         == RunInit(rest, Made(m, resources, capacity), OK, oracle, true, fini)
    decreases |resources|
  {
    if resources == [] {
      assert [] + rest == rest;
    } else {
      FirstBlock(resources, capacity, rest);
      BlockRuns(resources[0], capacity, Blocks(resources[1..], capacity) + rest, m, oracle, fini);
      BlocksRun(resources[1..], capacity, rest, MadeOne(m, resources[0], capacity), oracle, fini);
    }
  }

  /** When one fails, the code stops there with what was made before it. */
  lemma {:induction false} BlocksStop(
      resources: seq<Resource>, capacity: nat, rest: seq<Statement>, m: Machine, oracle: Oracle, fini: seq<Statement>,
      k: nat)
    requires k == Successes(oracle, m.calls, |resources|) < |resources|
    ensures RunInit(Blocks(resources, capacity) + rest, m, OK, oracle, true, fini)
         == (Abandoned(Made(m, resources[..k], capacity), resources[k] != Node, oracle, fini), oracle(m.calls + k))
    decreases |resources|
  {
    var others := Blocks(resources[1..], capacity) + rest;
    FirstBlock(resources, capacity, rest);
    BlockRuns(resources[0], capacity, others, m, oracle, fini);
    if k == 0 {
      assert resources[..0] == [];
    } else {
      BlocksStop(resources[1..], capacity, rest, MadeOne(m, resources[0], capacity), oracle, fini, k - 1);
      MadeFirst(m, resources, capacity, k - 1);
    }
  }

  lemma AdditionRuns(id: string, rest: seq<Statement>, m: Machine, oracle: Oracle, fini: seq<Statement>)
    requires |m.handles| < m.capacity
    ensures RunInit([AddSubscription(id), ReturnIfFailed(true)] + rest, m, OK, oracle, true, fini) ==
      if oracle(m.calls) == OK
      then RunInit(rest, Added(m, [id]), OK, oracle, true, fini)
      else (Abandoned(m, true, oracle, fini), oracle(m.calls))
  {
    var check := [ReturnIfFailed(true)] + rest;
    assert ([AddSubscription(id), ReturnIfFailed(true)] + rest)[1..] == check && check[1..] == rest;
  }

  lemma PrepareRuns(rest: seq<Statement>, m: Machine, oracle: Oracle, fini: seq<Statement>)
    ensures RunInit([Prepare, ReturnIfFailed(true)] + rest, m, OK, oracle, true, fini) ==
      if oracle(m.calls) == OK then RunInit(rest, Prepared(m), OK, oracle, true, fini)
      else (Abandoned(m, true, oracle, fini), oracle(m.calls))
  {
    var check := [ReturnIfFailed(true)] + rest;
    assert ([Prepare, ReturnIfFailed(true)] + rest)[1..] == check && check[1..] == rest;
  }

  /** The machine after these subscriptions have been added. */
  function Added(m: Machine, ids: seq<string>): Machine {
    m.(calls := m.calls + |ids|, handles := m.handles + ids)
  }

  function IdsOf(endpoints: seq<Endpoint>): (ids: seq<string>)
    ensures |ids| == |endpoints|
  {
    seq(|endpoints|, i requires 0 <= i < |endpoints| => endpoints[i].id)
  }

  lemma AddedNone(m: Machine)
    ensures Added(m, []) == m
  {
    assert m.handles + [] == m.handles;
  }

  lemma AddedFirst(m: Machine, subscriptions: seq<Endpoint>, k: nat)
    requires 0 < k <= |subscriptions|
    ensures Added(Added(m, [subscriptions[0].id]), IdsOf(subscriptions[1..][..k - 1])) == Added(m, IdsOf(subscriptions[..k]))
  {
    var first, others := [subscriptions[0].id], IdsOf(subscriptions[1..][..k - 1]);
    assert first + others == IdsOf(subscriptions[..k]);
    assert m.handles + first + others == m.handles + (first + others);
  }

  lemma FirstAddition(subscriptions: seq<Endpoint>, rest: seq<Statement>)
    requires subscriptions != []
    ensures Additions(subscriptions) + rest
         == [AddSubscription(subscriptions[0].id), ReturnIfFailed(true)] + (Additions(subscriptions[1..]) + rest)
  {
  }

  lemma FirstAdditionRuns(
      subscriptions: seq<Endpoint>, rest: seq<Statement>, m: Machine, oracle: Oracle, fini: seq<Statement>)
    requires subscriptions != [] && |m.handles| < m.capacity
    ensures RunInit(Additions(subscriptions) + rest, m, OK, oracle, true, fini) ==
      if oracle(m.calls) == OK
      then RunInit(Additions(subscriptions[1..]) + rest, Added(m, [subscriptions[0].id]), OK, oracle, true, fini)
      else (Abandoned(m, true, oracle, fini), oracle(m.calls))
  {
    FirstAddition(subscriptions, rest);
    AdditionRuns(subscriptions[0].id, Additions(subscriptions[1..]) + rest, m, oracle, fini);
  }

  lemma {:induction false} AdditionsRun(
      subscriptions: seq<Endpoint>, rest: seq<Statement>, m: Machine, oracle: Oracle, fini: seq<Statement>)
    requires |m.handles| + |subscriptions| <= m.capacity
    requires Successes(oracle, m.calls, |subscriptions|) == |subscriptions|
    ensures RunInit(Additions(subscriptions) + rest, m, OK, oracle, true, fini)
         == RunInit(rest, Added(m, IdsOf(subscriptions)), OK, oracle, true, fini)
    decreases |subscriptions|
  {
    if subscriptions == [] {
      assert [] + rest == rest;
      AddedNone(m);
    } else {
      FirstAdditionRuns(subscriptions, rest, m, oracle, fini);
      AdditionsRun(subscriptions[1..], rest, Added(m, [subscriptions[0].id]), oracle, fini);
      AddedFirst(m, subscriptions, |subscriptions|);
      assert subscriptions[..|subscriptions|] == subscriptions;
      assert subscriptions[1..][..|subscriptions| - 1] == subscriptions[1..];
    }
  }

  lemma {:induction false} AdditionsStop(
      subscriptions: seq<Endpoint>, rest: seq<Statement>, m: Machine, oracle: Oracle, fini: seq<Statement>, k: nat)
    requires |m.handles| + |subscriptions| <= m.capacity
    requires k == Successes(oracle, m.calls, |subscriptions|) < |subscriptions|
    ensures RunInit(Additions(subscriptions) + rest, m, OK, oracle, true, fini)
         == (Abandoned(Added(m, IdsOf(subscriptions[..k])), true, oracle, fini), oracle(m.calls + k))
    decreases |subscriptions|
  {
    FirstAdditionRuns(subscriptions, rest, m, oracle, fini);
    if k == 0 {
      AddedNone(m);
    } else {
      AdditionsStop(subscriptions[1..], rest, Added(m, [subscriptions[0].id]), oracle, fini, k - 1);
      AddedFirst(m, subscriptions, k);
    }
  }

  /** How many calls follow the constructors. */
  function WiringCalls(subscriptions: nat): nat {
    if subscriptions == 0 then 0 else subscriptions + 1
  }

  /** The machine after the subscriptions have been added and the executor prepared with them. */
  function Wired(m: Machine, subscriptions: seq<Endpoint>): Machine {
    if subscriptions == [] then m else Prepared(Added(m, IdsOf(subscriptions)))
  }

  lemma WiringRuns(subscriptions: seq<Endpoint>, m: Machine, oracle: Oracle, fini: seq<Statement>, k: nat)
    requires subscriptions == [] || |m.handles| + |subscriptions| <= m.capacity
    requires k == Successes(oracle, m.calls, WiringCalls(|subscriptions|))
    ensures RunInit(Wiring(subscriptions) + [ReturnOk], m, OK, oracle, true, fini) ==
        if k == WiringCalls(|subscriptions|) then (Wired(m, subscriptions), OK)
        else (Abandoned(Added(m, IdsOf(subscriptions[..k])), true, oracle, fini), oracle(m.calls + k))
  {
    var s := |subscriptions|;
    if s == 0 {
      assert [] + [ReturnOk] == [ReturnOk];
    } else {
      var rest := [Prepare, ReturnIfFailed(true)] + [ReturnOk];
      assert Wiring(subscriptions) + [ReturnOk] == Additions(subscriptions) + rest;
      SuccessesSplit(oracle, m.calls, s, 1);
      if k < s {
        AdditionsStop(subscriptions, rest, m, oracle, fini, k);
      } else {
        AdditionsRun(subscriptions, rest, m, oracle, fini);
        PrepareRuns([ReturnOk], Added(m, IdsOf(subscriptions)), oracle, fini);
        assert subscriptions[..s] == subscriptions;
      }
    }
  }

  lemma {:induction false} MadeResources(m: Machine, resources: seq<Resource>, capacity: nat)
    ensures Made(m, resources, capacity).live == m.live + resources
    ensures Made(m, resources, capacity).flags == m.flags + ElementsOf(resources)
    decreases |resources|
  {
    if resources == [] {
      assert m.live + [] == m.live;
    } else {
      var r, others := resources[0], resources[1..];
      MadeResources(MadeOne(m, r, capacity), others, capacity);
      assert resources == [r] + others;
      assert m.live + resources == m.live + [r] + others;
      assert ElementsOf(resources) == {r} + ElementsOf(others);
    }
  }

  lemma {:induction false} MadeCounters(m: Machine, resources: seq<Resource>, capacity: nat)
    ensures var made := Made(m, resources, capacity);
      && made.calls == m.calls + |resources|
      && made.finished == m.finished
      && (resources != [] && resources[|resources| - 1] == Executor ==> made.capacity == capacity && made.handles == [])
    decreases |resources|
  {
    if resources != [] {
      MadeCounters(MadeOne(m, resources[0], capacity), resources[1..], capacity);
    }
  }

  /** Giving up after the first `k` creations finalizes exactly those, last created first. */
  lemma AbandonedCleansUp(endpoints: seq<Endpoint>, m: Machine, k: nat, oracle: Oracle)
    requires DistinctEndpoints(endpoints) && k <= |CreationOrder(endpoints)|
    requires m.flags == ElementsOf(CreationOrder(endpoints)[..k]) && m.finished == []
    ensures var out := Abandoned(m, k > 0, oracle, FiniCode(endpoints));
      out.live == m.live && out.finished == Reversed(CreationOrder(endpoints)[..k])
  {
    if k > 0 {
      var failed := m.(calls := m.calls + 1);
      FiniVisitsAll(endpoints, failed, oracle);
      FinishesPrefixBackwards(endpoints, k);
      var visited := Reversed(CreationOrder(endpoints)[..k]);
      assert [] + visited == visited;
    }
  }

  /** A context on which nothing has been created or finalized yet; its flags may hold anything. */
  predicate Unused(m: Machine) {
    m.live == [] && m.finished == []
  }

  /**
   Everything is live and flagged, nothing finalized; the executor is exactly full, and was prepared
   with every subscription in its order.
   */
  ghost predicate FullySetUp(order: seq<Resource>, subscriptions: seq<Endpoint>, m: Machine) {
    && m.live == order && m.flags == ElementsOf(order) && m.finished == []
    && (subscriptions != [] ==>
          m.capacity == |subscriptions| && m.handles == IdsOf(subscriptions) && m.ready == Some(m.handles))
  }

  /** The first `k` resources were created, and then finalized once each, last created first. */
  ghost predicate FullyUnwound(order: seq<Resource>, m: Machine, k: nat) {
    k <= |order| && m.live == order[..k] && m.finished == Reversed(m.live)
  }

  /** Everything is live and flagged, and the executor still empty. */
  ghost predicate AllMade(order: seq<Resource>, subscriptions: nat, m: Machine) {
    && m.live == order && m.flags == ElementsOf(order) && m.finished == []
    && (subscriptions > 0 ==> m.handles == [] && m.capacity == subscriptions)
  }

  /** Starting from nothing, what has been made is what is live and flagged. */
  lemma MadeFromNothing(m: Machine, resources: seq<Resource>, capacity: nat)
    requires Unused(m) && m.flags == {}
    ensures var made := Made(m, resources, capacity);
      && made.live == resources && made.flags == ElementsOf(resources)
      && made.finished == [] && made.calls == m.calls + |resources|
  {
    MadeResources(m, resources, capacity);
    MadeCounters(m, resources, capacity);
    assert [] + resources == resources && {} + ElementsOf(resources) == ElementsOf(resources);
  }

  lemma OrderMade(endpoints: seq<Endpoint>, m: Machine)
    requires Unused(m) && m.flags == {}
    ensures var order, n := CreationOrder(endpoints), |Subscriptions(endpoints)|;
      AllMade(order, n, Made(m, order, n)) && Made(m, order, n).calls == m.calls + |order|
  {
    var order, n := CreationOrder(endpoints), |Subscriptions(endpoints)|;
    MadeFromNothing(m, order, n);
    MadeCounters(m, order, n);
  }

  lemma HeadRuns(body: seq<Statement>, m: Machine, oracle: Oracle, fini: seq<Statement>)
    ensures RunInit([RejectNull, ClearContext] + body, m, OK, oracle, true, fini)
         == RunInit(body, m.(flags := {}), OK, oracle, true, fini)
  {
    var code, clear := [RejectNull, ClearContext] + body, [ClearContext] + body;
    assert code[1..] == clear && clear[1..] == body;
    assert RunInit(code, m, OK, oracle, true, fini) == RunInit(clear, m, OK, oracle, true, fini);
  }

  /** What follows the constructors. */
  function Tail(endpoints: seq<Endpoint>): seq<Statement> {
    Wiring(Subscriptions(endpoints)) + [ReturnOk]
  }

  /** The context is cleared first, so the flags it came with do not matter. */
  lemma InitRunsBody(endpoints: seq<Endpoint>, m: Machine, oracle: Oracle)
    ensures var body := Blocks(CreationOrder(endpoints), |Subscriptions(endpoints)|) + Tail(endpoints);
      Init(endpoints, m, oracle, true) == RunInit(body, m.(flags := {}), OK, oracle, true, FiniCode(endpoints))
  {
    var body := Blocks(CreationOrder(endpoints), |Subscriptions(endpoints)|) + Tail(endpoints);
    assert InitCode(endpoints) == [RejectNull, ClearContext] + body;
    HeadRuns(body, m, oracle, FiniCode(endpoints));
  }

  /** How many constructors succeed before the first failure. */
  function CreatedCount(endpoints: seq<Endpoint>, m: Machine, oracle: Oracle): nat {
    Successes(oracle, m.calls, |CreationOrder(endpoints)|)
  }

  /** How many of the calls after the constructors succeed before the first failure. */
  function WiredCount(endpoints: seq<Endpoint>, m: Machine, oracle: Oracle): nat {
    Successes(oracle, m.calls + |CreationOrder(endpoints)|, WiringCalls(|Subscriptions(endpoints)|))
  }

  lemma GaveUpCreating(endpoints: seq<Endpoint>, m: Machine, oracle: Oracle, k: nat)
    requires DistinctEndpoints(endpoints) && Unused(m) && m.flags == {} && k < |CreationOrder(endpoints)|
    ensures var order := CreationOrder(endpoints);
      var made := Made(m, order[..k], |Subscriptions(endpoints)|);
      FullyUnwound(order, Abandoned(made, order[k] != Node, oracle, FiniCode(endpoints)), k)
  {
    var order, n := CreationOrder(endpoints), |Subscriptions(endpoints)|;
    MadeFromNothing(m, order[..k], n);
    CreationHasNoRepeats(endpoints);
    assert order[0] == Node && (order[k] != Node <==> k > 0);
    AbandonedCleansUp(endpoints, Made(m, order[..k], n), k, oracle);
  }

  /** Which of the three ends an init has, given how many of its calls succeeded. */
  ghost predicate Decided(order: seq<Resource>, subscriptions: seq<Endpoint>, calls: nat, created: nat, wired: nat, oracle: Oracle,
                          out: Machine, code: int)
  {
    if created < |order| then code == oracle(calls + created) && FullyUnwound(order, out, created)
    else if wired < WiringCalls(|subscriptions|) then
      code == oracle(calls + |order| + wired) && FullyUnwound(order, out, |order|)
    else
      && code == OK && FullySetUp(order, subscriptions, out)
      && out.calls == calls + |order| + WiringCalls(|subscriptions|)
  }

  /** Where init stops when a constructor fails. */
  lemma InitStopsCreating(endpoints: seq<Endpoint>, m: Machine, oracle: Oracle, k: nat) returns (out: Machine)
    requires k == CreatedCount(endpoints, m, oracle) < |CreationOrder(endpoints)|
    ensures Init(endpoints, m, oracle, true) == (out, oracle(m.calls + k))
    ensures var order := CreationOrder(endpoints);
      var made := Made(m.(flags := {}), order[..k], |Subscriptions(endpoints)|);
      out == Abandoned(made, order[k] != Node, oracle, FiniCode(endpoints))
  {
    var order, n, cleared := CreationOrder(endpoints), |Subscriptions(endpoints)|, m.(flags := {});
    InitRunsBody(endpoints, m, oracle);
    BlocksStop(order, n, Tail(endpoints), cleared, oracle, FiniCode(endpoints), k);
    out := Abandoned(Made(cleared, order[..k], n), order[k] != Node, oracle, FiniCode(endpoints));
  }

  lemma InitFailsCreating(endpoints: seq<Endpoint>, m: Machine, oracle: Oracle, k: nat) returns (out: Machine)
    requires DistinctEndpoints(endpoints) && Unused(m)
    requires k == CreatedCount(endpoints, m, oracle) < |CreationOrder(endpoints)|
    ensures Init(endpoints, m, oracle, true) == (out, oracle(m.calls + k))
    ensures FullyUnwound(CreationOrder(endpoints), out, k)
  {
    out := InitStopsCreating(endpoints, m, oracle, k);
    GaveUpCreating(endpoints, m.(flags := {}), oracle, k);
  }

  /** If every constructor succeeds, init comes down to the wiring. */
  lemma InitReachesWiring(endpoints: seq<Endpoint>, m: Machine, oracle: Oracle) returns (made: Machine)
    requires Unused(m) && CreatedCount(endpoints, m, oracle) == |CreationOrder(endpoints)|
    ensures AllMade(CreationOrder(endpoints), |Subscriptions(endpoints)|, made)
    ensures made.calls == m.calls + |CreationOrder(endpoints)|
    ensures Init(endpoints, m, oracle, true) == RunInit(Tail(endpoints), made, OK, oracle, true, FiniCode(endpoints))
  {
    var order, n, cleared := CreationOrder(endpoints), |Subscriptions(endpoints)|, m.(flags := {});
    made := Made(cleared, order, n);
    InitRunsBody(endpoints, m, oracle);
    BlocksRun(order, n, Tail(endpoints), cleared, oracle, FiniCode(endpoints));
    OrderMade(endpoints, cleared);
  }

  lemma TailUnwinds(endpoints: seq<Endpoint>, made: Machine, oracle: Oracle, j: nat) returns (out: Machine)
    requires DistinctEndpoints(endpoints) && AllMade(CreationOrder(endpoints), |Subscriptions(endpoints)|, made)
    requires j == Successes(oracle, made.calls, WiringCalls(|Subscriptions(endpoints)|))
    requires j < WiringCalls(|Subscriptions(endpoints)|)
    ensures RunInit(Tail(endpoints), made, OK, oracle, true, FiniCode(endpoints)) == (out, oracle(made.calls + j))
    ensures FullyUnwound(CreationOrder(endpoints), out, |CreationOrder(endpoints)|)
  {
    var order := CreationOrder(endpoints);
    WiringRuns(Subscriptions(endpoints), made, oracle, FiniCode(endpoints), j);
    var added := Added(made, IdsOf(Subscriptions(endpoints)[..j]));
    out := Abandoned(added, true, oracle, FiniCode(endpoints));
    assert order[..|order|] == order;
    AbandonedCleansUp(endpoints, added, |order|, oracle);
  }

  lemma TailCompletes(endpoints: seq<Endpoint>, made: Machine, oracle: Oracle) returns (out: Machine)
    requires AllMade(CreationOrder(endpoints), |Subscriptions(endpoints)|, made)
    requires Successes(oracle, made.calls, WiringCalls(|Subscriptions(endpoints)|))
          == WiringCalls(|Subscriptions(endpoints)|)
    ensures RunInit(Tail(endpoints), made, OK, oracle, true, FiniCode(endpoints)) == (out, OK)
    ensures out.calls == made.calls + WiringCalls(|Subscriptions(endpoints)|)
    ensures FullySetUp(CreationOrder(endpoints), Subscriptions(endpoints), out)
  {
    var subscriptions := Subscriptions(endpoints);
    WiringRuns(subscriptions, made, oracle, FiniCode(endpoints), WiringCalls(|subscriptions|));
    out := Wired(made, subscriptions);
  }

  lemma InitFailsWiring(endpoints: seq<Endpoint>, m: Machine, oracle: Oracle, j: nat) returns (out: Machine)
    requires DistinctEndpoints(endpoints) && Unused(m)
    requires CreatedCount(endpoints, m, oracle) == |CreationOrder(endpoints)|
    requires j == WiredCount(endpoints, m, oracle) < WiringCalls(|Subscriptions(endpoints)|)
    ensures Init(endpoints, m, oracle, true) == (out, oracle(m.calls + |CreationOrder(endpoints)| + j))
    ensures FullyUnwound(CreationOrder(endpoints), out, |CreationOrder(endpoints)|)
  {
    var made := InitReachesWiring(endpoints, m, oracle);
    out := TailUnwinds(endpoints, made, oracle, j);
  }

  lemma InitSucceeds(endpoints: seq<Endpoint>, m: Machine, oracle: Oracle) returns (out: Machine)
    requires Unused(m)
    requires CreatedCount(endpoints, m, oracle) == |CreationOrder(endpoints)|
    requires WiredCount(endpoints, m, oracle) == WiringCalls(|Subscriptions(endpoints)|)
    ensures Init(endpoints, m, oracle, true) == (out, OK)
    ensures out.calls == m.calls + |CreationOrder(endpoints)| + WiringCalls(|Subscriptions(endpoints)|)
    ensures FullySetUp(CreationOrder(endpoints), Subscriptions(endpoints), out)
  {
    var made := InitReachesWiring(endpoints, m, oracle);
    out := TailCompletes(endpoints, made, oracle);
  }

  /**
   The generated init under any pattern of failures.  If every call succeeds, everything
   is live and the executor holds as many subscriptions as it was created for.  Otherwise
   the code of the first call to fail is returned, and exactly the resources created
   before it have been finalized, once each and in reverse order.
   */
  lemma InitExactly(endpoints: seq<Endpoint>, m: Machine, oracle: Oracle) returns (out: Machine, code: int)
    requires DistinctEndpoints(endpoints) && Unused(m)
    ensures Init(endpoints, m, oracle, true) == (out, code)
    ensures Decided(CreationOrder(endpoints), Subscriptions(endpoints), m.calls,
                    CreatedCount(endpoints, m, oracle), WiredCount(endpoints, m, oracle), oracle, out, code)
  {
    var created, wired := CreatedCount(endpoints, m, oracle), WiredCount(endpoints, m, oracle);
    if created < |CreationOrder(endpoints)| {
      out := InitFailsCreating(endpoints, m, oracle, created);
      code := oracle(m.calls + created);
    } else if wired < WiringCalls(|Subscriptions(endpoints)|) {
      out := InitFailsWiring(endpoints, m, oracle, wired);
      code := oracle(m.calls + |CreationOrder(endpoints)| + wired);
    } else {
      out := InitSucceeds(endpoints, m, oracle);
      code := OK;
    }
  }

  ghost predicate AllSucceed(oracle: Oracle, from: nat, n: nat) {
    forall i :: from <= i < from + n ==> oracle(i) == 0
  }

  lemma SuccessesAll(oracle: Oracle, from: nat, n: nat)
    ensures Successes(oracle, from, n) == n <==> AllSucceed(oracle, from, n)
    ensures Successes(oracle, from, n) < n ==> oracle(from + Successes(oracle, from, n)) != OK
  {
    SuccessesExactly(oracle, from, n);
  }

  lemma DecidedOk(order: seq<Resource>, subscriptions: seq<Endpoint>, calls: nat, created: nat, wired: nat, oracle: Oracle,
                  out: Machine, code: int)
    requires Decided(order, subscriptions, calls, created, wired, oracle, out, code)
    requires created == Successes(oracle, calls, |order|)
    requires wired == Successes(oracle, calls + |order|, WiringCalls(|subscriptions|))
    ensures code == OK <==> AllSucceed(oracle, calls, |order|) && AllSucceed(oracle, calls + |order|, WiringCalls(|subscriptions|))
  {
    SuccessesAll(oracle, calls, |order|);
    SuccessesAll(oracle, calls + |order|, WiringCalls(|subscriptions|));
  }

  /** Init reports success exactly if every call it makes does. */
  lemma InitSucceedsExactly(endpoints: seq<Endpoint>, m: Machine, oracle: Oracle)
    requires DistinctEndpoints(endpoints) && Unused(m)
    ensures Init(endpoints, m, oracle, true).1 == 0 <==>
      && AllSucceed(oracle, m.calls, |CreationOrder(endpoints)|)
      && AllSucceed(oracle, m.calls + |CreationOrder(endpoints)|, WiringCalls(|Subscriptions(endpoints)|))
  {
    var out, code := InitExactly(endpoints, m, oracle);
    DecidedOk(CreationOrder(endpoints), Subscriptions(endpoints), m.calls,
              CreatedCount(endpoints, m, oracle), WiredCount(endpoints, m, oracle), oracle, out, code);
  }

  /** After a successful init, fini finalizes everything once, last created first. */
  lemma FiniUndoesInit(endpoints: seq<Endpoint>, m: Machine, oracle: Oracle)
    requires DistinctEndpoints(endpoints) && FullySetUp(CreationOrder(endpoints), Subscriptions(endpoints), m)
    ensures var (out, code) := Fini(endpoints, m, oracle, true);
      && FullyUnwound(CreationOrder(endpoints), out, |CreationOrder(endpoints)|)
      && code == if AllSucceed(oracle, m.calls, |m.live|) then 0 else 1
  {
    var all := CreationOrder(endpoints);
    assert all[..|all|] == all;
    FiniVisitsAll(endpoints, m, oracle);
    FinishesPrefixBackwards(endpoints, |all|);
    SuccessesAll(oracle, m.calls, |m.live|);
    assert [] + Reversed(all) == Reversed(all);
  }

  /** Without a context to work on, both return the invalid-argument code and make no call. */
  lemma NullRejected(endpoints: seq<Endpoint>, m: Machine, oracle: Oracle)
    ensures Init(endpoints, m, oracle, false) == (m, 11)
    ensures Fini(endpoints, m, oracle, false) == (m, 11)
  {
    assert InitCode(endpoints)[0] == RejectNull && FiniCode(endpoints)[0] == RejectNull;
  }
}
