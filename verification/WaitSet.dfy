/**
 The fixed wait-set patch of the C RMW: `rmw_wait` keeps the entities attached to
 the DDS wait set from one call to the next, and skips the detach-all/attach-all
 round when the requested entities are the ones already attached.

 The DDS wait set is modelled by the set of entities it observes.  Detaching an
 entity it does not observe fails, and so does attaching one it already observes;
 apart from that a call carries a fault naming the DDS call, if any, that fails.
 */
module WaitSet {
  import opened Common

  type Entity = int

  function ListOf(list: Option<seq<Option<Entity>>>): seq<Option<Entity>> {
    if list.Some? then list.value else []
  }

  /** A request: two optional arrays, each entry possibly null. */
  datatype Request = Request(
    subscriptions: Option<seq<Option<Entity>>>,
    guards: Option<seq<Option<Entity>>>)
  {
    /** Subscriptions, then guard conditions; an absent array requests nothing. */
    function Items(): seq<Option<Entity>> {
      ListOf(subscriptions) + ListOf(guards)
    }
  }

  datatype Fault = NoFault | DetachFails(index: nat) | AttachFails(index: nat)

  /** `Waits` is a call that reaches the wait step; the others return early. */
  datatype Outcome = Waits | Rejected | DdsError

  datatype WaitSet = WaitSet(capacity: nat, attached: seq<Entity>, observed: set<Entity>)

  predicate AllPresent(items: seq<Option<Entity>>) {
    forall i :: 0 <= i < |items| ==> items[i].Some?
  }

  function Entities(items: seq<Option<Entity>>): (r: seq<Entity>)
    requires AllPresent(items)
    ensures |r| == |items|
  {
    seq(|items|, i requires 0 <= i < |items| => items[i].value)
  }

  predicate Acceptable(capacity: nat, r: Request) {
    |r.Items()| <= capacity && AllPresent(r.Items())
  }

  // ----- What the two arrays of a request ask for --------------------------------

  function LengthOf(list: Option<seq<Option<Entity>>>): nat {
    if list.Some? then |list.value| else 0
  }

  predicate HoldsNull(list: Option<seq<Option<Entity>>>) {
    list.Some? && exists i :: 0 <= i < |list.value| && list.value[i].None?
  }

  /** More entries than the wait set can hold, or a null entry in either array. */
  predicate Malformed(capacity: nat, r: Request) {
    || LengthOf(r.subscriptions) + LengthOf(r.guards) > capacity
    || HoldsNull(r.subscriptions) || HoldsNull(r.guards)
  }

  /** The list holds the subscriptions in their order and then the guard conditions in theirs. */
  ghost predicate Requested(r: Request, entities: seq<Entity>) {
    && |entities| == LengthOf(r.subscriptions) + LengthOf(r.guards)
    && (forall i :: 0 <= i < LengthOf(r.subscriptions) ==> r.subscriptions.value[i] == Some(entities[i]))
    && (forall j :: 0 <= j < LengthOf(r.guards) ==>
          r.guards.value[j] == Some(entities[LengthOf(r.subscriptions) + j]))
  }

  lemma AcceptableExactly(capacity: nat, r: Request)
    ensures Acceptable(capacity, r) <==> !Malformed(capacity, r)
  {
    PresentSplit(ListOf(r.subscriptions), ListOf(r.guards));
  }

  lemma ItemAt(r: Request, i: nat)
    requires i < |r.Items()|
    ensures |r.Items()| == LengthOf(r.subscriptions) + LengthOf(r.guards)
    ensures var n := LengthOf(r.subscriptions);
      r.Items()[i] == if i < n then r.subscriptions.value[i] else r.guards.value[i - n]
  {
  }

  lemma EntitiesRequested(r: Request)
    requires AllPresent(r.Items())
    ensures Requested(r, Entities(r.Items()))
  {
    var n := LengthOf(r.subscriptions);
    forall i | 0 <= i < n
      ensures r.subscriptions.value[i] == Some(Entities(r.Items())[i])
    {
      ItemAt(r, i);
    }
    forall j | 0 <= j < LengthOf(r.guards)
      ensures r.guards.value[j] == Some(Entities(r.Items())[n + j])
    {
      ItemAt(r, n + j);
    }
  }

  /** The two arrays fix the list. */
  lemma RequestedOnce(r: Request, a: seq<Entity>, b: seq<Entity>)
    requires Requested(r, a) && Requested(r, b)
    ensures a == b
  {
    var n := LengthOf(r.subscriptions);
    forall i | 0 <= i < |a|
      ensures a[i] == b[i]
    {
      if i >= n {
        var j := i - n;
        assert r.guards.value[j] == Some(a[n + j]) && r.guards.value[j] == Some(b[n + j]);
      }
    }
  }

  lemma RequestedExactly(r: Request, entities: seq<Entity>)
    requires AllPresent(r.Items())
    ensures Requested(r, entities) <==> entities == Entities(r.Items())
  {
    EntitiesRequested(r);
    if Requested(r, entities) {
      RequestedOnce(r, entities, Entities(r.Items()));
    }
  }

  /** A request matches the saved list exactly if it is a prefix of it and as long. */
  lemma WholeMatch(r: Request, saved: seq<Entity>)
    requires AllPresent(r.Items())
    ensures Entities(r.Items()) <= saved && |r.Items()| == |saved| <==> Requested(r, saved)
  {
    RequestedExactly(r, saved);
  }

  // ----- DDS calls in order, stopping at the first failure -----------------------

  function DetachFrom(observed: set<Entity>, entries: seq<Entity>, i: nat, fault: Fault): (bool, set<Entity>)
    requires i <= |entries|
    decreases |entries| - i
  {
    if i == |entries| then (true, observed)
    else if fault == DetachFails(i) || entries[i] !in observed then (false, observed)
    else DetachFrom(observed - {entries[i]}, entries, i + 1, fault)
  }

  /** Appends on success and changes nothing on failure, as `attach_entity` does. */
  function AttachOne(ws: WaitSet, e: Entity, fails: bool): (bool, WaitSet) {
    if fails || |ws.attached| >= ws.capacity || e in ws.observed then (false, ws)
    else (true, ws.(attached := ws.attached + [e], observed := ws.observed + {e}))
  }

  function AttachFrom(ws: WaitSet, entities: seq<Entity>, i: nat, fault: Fault): (bool, WaitSet)
    requires i <= |entities|
    decreases |entities| - i
  {
    if i == |entities| then (true, ws)
    else
      var (ok, next) := AttachOne(ws, entities[i], fault == AttachFails(i));
      if ok then AttachFrom(next, entities, i + 1, fault) else (false, next)
  }

  /** The attachment phase the patch removes: always detach all, then attach all. */
  function OldWait(ws: WaitSet, r: Request, fault: Fault): (Outcome, WaitSet) {
    var (detached, observed) := DetachFrom(ws.observed, ws.attached, 0, fault);
    if !detached then (DdsError, ws.(observed := observed))
    else OldAttach(WaitSet(ws.capacity, [], observed), r.Items(), 0, fault)
  }

  function OldAttach(ws: WaitSet, items: seq<Option<Entity>>, i: nat, fault: Fault): (Outcome, WaitSet)
    requires i <= |items|
    decreases |items| - i
  {
    if i == |items| then (Waits, ws)
    else if items[i].None? then (Rejected, ws)
    else
      var (ok, next) := AttachOne(ws, items[i].value, fault == AttachFails(i));
      if ok then OldAttach(next, items, i + 1, fault) else (DdsError, next)
  }

  /** The attachment phase the patch adds; a rejected request leaves everything untouched. */
  function NewWait(ws: WaitSet, r: Request, fault: Fault): (result: (Outcome, WaitSet))
    ensures result.0 == Rejected <==> Malformed(ws.capacity, r)
    ensures result.0 == Rejected ==> result.1 == ws
    ensures !Malformed(ws.capacity, r) && Requested(r, ws.attached) ==> result == (Waits, ws)
  {
    AcceptableExactly(ws.capacity, r);
    if !Acceptable(ws.capacity, r) then (Rejected, ws)
    else if Entities(r.Items()) == ws.attached then (Waits, ws)
    else
      RequestedExactly(r, ws.attached);
      var (detached, observed) := DetachFrom(ws.observed, ws.attached, 0, fault);
      if !detached then (DdsError, ws.(observed := observed))
      else
        var (attached, next) := AttachFrom(WaitSet(ws.capacity, [], observed), Entities(r.Items()), 0, fault);
        (if attached then Waits else DdsError, next)
  }

  // ----- The component as the patch writes it ------------------------------------

  class WaitSetData {
    const capacity: nat
    const attached: array<Entity>
    var attachedCount: nat

    /** What the DDS wait set observes. */
    var observed: set<Entity>

    ghost predicate Valid()
      reads this
    {
      attached.Length == capacity && attachedCount <= capacity
    }

    ghost function View(): WaitSet
      requires Valid()
      reads this, attached
    {
      WaitSet(capacity, attached[..attachedCount], observed)
    }

    constructor (capacity: nat)
      ensures Valid() && fresh(attached) && View() == WaitSet(capacity, [], {})
    {
      this.capacity := capacity;
      attached := new Entity[capacity](_ => 0);
      attachedCount := 0;
      observed := {};
    }

    /**
     One array of the request: counts its entries in after those already `done`, and
     keeps track of whether everything counted so far is what is attached.
     */
    method ValidateList(items: seq<Option<Entity>>, ghost done: seq<Entity>, countSoFar: nat, matchSoFar: bool)
      returns (accepted: bool, count: nat, matching: bool)
      requires Valid() && countSoFar == |done| <= capacity
      requires matchSoFar == (done <= attached[..attachedCount])
      ensures accepted <==> countSoFar + |items| <= capacity && AllPresent(items)
      ensures accepted ==> count == countSoFar + |items|
      ensures accepted ==> matching == (done + Entities(items) <= attached[..attachedCount])
    {
      count, matching := countSoFar, matchSoFar;
      if |items| > capacity - count {
        return false, count, matching;
      }
      ghost var seen := done;
      for index := 0 to |items|
        invariant AllPresent(items[..index])
        invariant seen == done + Entities(items[..index])
        invariant count == |seen| == countSoFar + index
        invariant matching == (seen <= attached[..attachedCount])
      {
        if items[index].None? {
          return false, count, matching;
        }
        if count >= attachedCount || attached[count] != items[index].value {
          matching := false;
        }
        count := count + 1;
        assert items[..index + 1] == items[..index] + [items[index]];
        assert Entities(items[..index + 1]) == Entities(items[..index]) + [items[index].value];
        PrefixGrows(seen, items[index].value, attached[..attachedCount]);
        seen := seen + [items[index].value];
      }
      assert items[..|items|] == items;
      return true, count, matching;
    }

    /** Accepts exactly the well-formed requests, and compares them with the saved attachments. */
    method ValidateRequestedAttachments(r: Request) returns (accepted: bool, count: nat, matching: bool)
      requires Valid()
      ensures accepted <==> !Malformed(capacity, r)
      ensures accepted ==> count == LengthOf(r.subscriptions) + LengthOf(r.guards)
      ensures accepted ==> (matching <==> Requested(r, attached[..attachedCount]))
    {
      AcceptableExactly(capacity, r);
      count, matching := 0, true;
      ghost var subscriptions, guards := ListOf(r.subscriptions), ListOf(r.guards);
      PresentSplit(subscriptions, guards);
      if r.subscriptions.Some? {
        accepted, count, matching := ValidateList(r.subscriptions.value, [], count, matching);
        if !accepted {
          return;
        }
      }
      assert Entities(subscriptions) == [] + Entities(subscriptions);
      if r.guards.Some? {
        accepted, count, matching := ValidateList(r.guards.value, Entities(subscriptions), count, matching);
        if !accepted {
          return;
        }
      }
      assert Entities(subscriptions + guards) == Entities(subscriptions) + Entities(guards);
      WholeMatch(r, attached[..attachedCount]);
      return true, count, matching && count == attachedCount;
    }

    method DetachAll(fault: Fault) returns (ok: bool)
      requires Valid()
      modifies this`observed
      ensures (ok, observed) == DetachFrom(old(observed), attached[..attachedCount], 0, fault)
    {
      ghost var entries := attached[..attachedCount];
      var index := 0;
      while index < attachedCount
        invariant 0 <= index <= attachedCount
        invariant DetachFrom(observed, entries, index, fault) == DetachFrom(old(observed), entries, 0, fault)
      {
        if fault == DetachFails(index) || attached[index] !in observed {
          return false;
        }
        observed := observed - {attached[index]};
        index := index + 1;
      }
      return true;
    }

    method AttachEntity(e: Entity, fails: bool) returns (ok: bool)
      requires Valid()
      modifies this`attachedCount, this`observed, attached
      ensures Valid() && (ok, View()) == AttachOne(old(View()), e, fails)
    {
      if fails || attachedCount >= capacity || e in observed {
        return false;
      }
      attached[attachedCount] := e;
      attachedCount := attachedCount + 1;
      observed := observed + {e};
      assert attached[..attachedCount] == old(attached[..attachedCount]) + [e];
      return true;
    }

    /** Attaches subscriptions and then guard conditions, stopping at the first failure. */
    method AttachList(entities: seq<Entity>, fault: Fault) returns (ok: bool)
      requires Valid()
      modifies this`attachedCount, this`observed, attached
      ensures Valid() && (ok, View()) == AttachFrom(old(View()), entities, 0, fault)
    {
      var index := 0;
      while index < |entities|
        invariant 0 <= index <= |entities| && Valid()
        invariant AttachFrom(View(), entities, index, fault) == AttachFrom(old(View()), entities, 0, fault)
      {
        ok := AttachEntity(entities[index], fault == AttachFails(index));
        if !ok {
          return false;
        }
        index := index + 1;
      }
      return true;
    }

    /** The attachment phase of `rmw_wait`. */
    method Attach(r: Request, fault: Fault) returns (outcome: Outcome)
      requires Valid()
      modifies this`attachedCount, this`observed, attached
      ensures Valid() && (outcome, View()) == NewWait(old(View()), r, fault)
    {
      var accepted, _, matching := ValidateRequestedAttachments(r);
      if !accepted {
        return Rejected;
      }
      AcceptableExactly(capacity, r);
      RequestedExactly(r, attached[..attachedCount]);
      if !matching {
        var detached := DetachAll(fault);
        if !detached {
          return DdsError;
        }
        attachedCount := 0;
        var ok := AttachList(Entities(r.Items()), fault);
        if !ok {
          return DdsError;
        }
      }
      return Waits;
    }
  }

  lemma PrefixGrows(s: seq<Entity>, e: Entity, whole: seq<Entity>)
    ensures s + [e] <= whole <==> s <= whole && |s| < |whole| && whole[|s|] == e
  {
    if s <= whole && |s| < |whole| && whole[|s|] == e {
      assert whole[..|s| + 1] == s + [e];
    }
    if s + [e] <= whole {
      assert whole[|s|] == (s + [e])[|s|];
      assert s == (s + [e])[..|s|];
    }
  }

  lemma PresentSplit(a: seq<Option<Entity>>, b: seq<Option<Entity>>)
    ensures AllPresent(a + b) <==> AllPresent(a) && AllPresent(b)
  {
    if AllPresent(a + b) {
      forall i | 0 <= i < |a| ensures a[i].Some? { assert (a + b)[i] == a[i]; }
      forall i | 0 <= i < |b| ensures b[i].Some? { assert (a + b)[|a| + i] == b[i]; }
    }
  }

  // ----- Consistency of the cache with DDS ---------------------------------------

  ghost predicate Distinct(s: seq<Entity>) {
    forall i, j :: 0 <= i < j < |s| ==> s[i] != s[j]
  }

  ghost function ElementsOf(s: seq<Entity>): set<Entity> {
    set e | e in s
  }

  /** DDS observes exactly the saved attachments, within capacity. */
  ghost predicate Consistent(ws: WaitSet) {
    && |ws.attached| <= ws.capacity
    && Distinct(ws.attached)
    && ws.observed == ElementsOf(ws.attached)
  }

  lemma ElementsOfTail(s: seq<Entity>, i: nat)
    requires Distinct(s) && i < |s|
    ensures ElementsOf(s[i..]) - {s[i]} == ElementsOf(s[i + 1..])
    ensures s[i] in ElementsOf(s[i..])
  {
    assert s[i..] == [s[i]] + s[i + 1..];
    assert s[i] !in s[i + 1..];
    assert s[i] == s[i..][0];
  }

  /** Detaching a consistent cache stops only at the injected failure. */
  lemma {:induction false} DetachOutcome(entries: seq<Entity>, i: nat, fault: Fault)
    requires Distinct(entries) && i <= |entries|
    ensures DetachFrom(ElementsOf(entries[i..]), entries, i, fault) ==
      if fault.DetachFails? && i <= fault.index < |entries|
      then (false, ElementsOf(entries[fault.index..]))
      else (true, {})
    decreases |entries| - i
  {
    if i == |entries| {
      assert ElementsOf(entries[i..]) == {};
    } else {
      ElementsOfTail(entries, i);
      DetachOutcome(entries, i + 1, fault);
    }
  }

  lemma AttachOneOutcome(ws: WaitSet, e: Entity, fails: bool)
    requires Consistent(ws)
    ensures Consistent(AttachOne(ws, e, fails).1)
    ensures AttachOne(ws, e, fails).0 <==> !fails && |ws.attached| < ws.capacity && e !in ws.attached
  {
    assert ElementsOf(ws.attached + [e]) == ElementsOf(ws.attached) + {e};
  }

  /** Attaching extends a consistent cache, by everything exactly if it succeeds. */
  lemma {:induction false} AttachOutcome(ws: WaitSet, entities: seq<Entity>, i: nat, fault: Fault)
    requires Consistent(ws) && i <= |entities|
    ensures var (ok, next) := AttachFrom(ws, entities, i, fault);
      && Consistent(next) && next.capacity == ws.capacity
      && (ok ==> next.attached == ws.attached + entities[i..])
    decreases |entities| - i
  {
    if i < |entities| {
      AttachOneOutcome(ws, entities[i], fault == AttachFails(i));
      var (ok, next) := AttachOne(ws, entities[i], fault == AttachFails(i));
      if ok {
        assert ws.attached + entities[i..] == next.attached + entities[i + 1..];
        AttachOutcome(next, entities, i + 1, fault);
      }
    }
  }

  /** Attaching succeeds exactly when nothing repeats, all fits and no call fails. */
  lemma {:induction false} AttachSucceedsExactly(ws: WaitSet, entities: seq<Entity>, i: nat, fault: Fault)
    requires Consistent(ws) && i <= |entities|
    ensures AttachFrom(ws, entities, i, fault).0 <==>
      && Distinct(ws.attached + entities[i..]) && |ws.attached| + |entities| - i <= ws.capacity
      && !(fault.AttachFails? && i <= fault.index < |entities|)
    decreases |entities| - i
  {
    var all := ws.attached + entities[i..];
    if i == |entities| {
      assert all == ws.attached;
    } else if fault != AttachFails(i) {
      var e := entities[i];
      AttachOneOutcome(ws, e, false);
      var (ok, next) := AttachOne(ws, e, false);
      if ok {
        assert all == next.attached + entities[i + 1..];
        AttachSucceedsExactly(next, entities, i + 1, fault);
      } else if e in ws.attached {
        var j :| 0 <= j < |ws.attached| && ws.attached[j] == e;
        assert all[j] == all[|ws.attached|];
      }
    }
  }

  /** Attaching stops at the first entity that is named twice or whose call fails, keeping those before it. */
  lemma {:induction false} AttachStops(ws: WaitSet, entities: seq<Entity>, i: nat, fault: Fault) returns (j: nat)
    requires Consistent(ws) && i <= |entities| && |ws.attached| + |entities| - i <= ws.capacity
    ensures i <= j <= |entities|
    ensures AttachFrom(ws, entities, i, fault).0 <==> j == |entities|
    ensures AttachFrom(ws, entities, i, fault).1.attached == ws.attached + entities[i..j]
    ensures forall k :: i <= k < j ==> fault != AttachFails(k)
    ensures j < |entities| ==> fault == AttachFails(j) || entities[j] in ws.attached + entities[i..j]
    decreases |entities| - i
  {
    j := i;
    assert ws.attached + entities[i..i] == ws.attached;
    if i < |entities| {
      AttachOneOutcome(ws, entities[i], fault == AttachFails(i));
      var (ok, next) := AttachOne(ws, entities[i], fault == AttachFails(i));
      if ok {
        j := AttachStops(next, entities, i + 1, fault);
        assert ws.attached + entities[i..j] == next.attached + entities[i + 1..j];
      }
    }
  }

  /** A detach that fails after another has succeeded, on the slow path. */
  predicate Breaks(ws: WaitSet, r: Request, fault: Fault) {
    && Acceptable(ws.capacity, r)
    && Entities(r.Items()) != ws.attached
    && fault.DetachFails? && 0 < fault.index < |ws.attached|
  }

  /** Some saved attachments, the first among them, are no longer observed. */
  ghost predicate Stale(ws: WaitSet) {
    && |ws.attached| <= ws.capacity
    && ws.attached != [] && ws.attached[0] !in ws.observed
  }

  /** Any call but a breaking one keeps the cache consistent; a breaking one leaves it stale. */
  lemma WaitStep(ws: WaitSet, r: Request, fault: Fault)
    requires Consistent(ws)
    ensures var next := NewWait(ws, r, fault).1;
      && next.capacity == ws.capacity
      && (if Breaks(ws, r, fault) then Stale(next) else Consistent(next))
  {
    assert ws.attached[0..] == ws.attached;
    DetachOutcome(ws.attached, 0, fault);
    if Acceptable(ws.capacity, r) && Entities(r.Items()) != ws.attached {
      if fault.DetachFails? && fault.index < |ws.attached| {
        assert ws.attached[0] == ws.attached[..][0];
        assert fault.index > 0 ==> ws.attached[0] !in ws.attached[fault.index..];
      } else {
        AttachOutcome(WaitSet(ws.capacity, [], {}), Entities(r.Items()), 0, fault);
      }
    }
  }

  /** Once stale, no later call changes anything: every slow path fails at its first detach. */
  lemma StaleForEver(ws: WaitSet, r: Request, fault: Fault)
    requires Stale(ws)
    ensures NewWait(ws, r, fault).1 == ws
    ensures NewWait(ws, r, fault).0 == Waits ==> ElementsOf(Entities(r.Items())) != ws.observed
  {
    if NewWait(ws, r, fault).0 == Waits {
      assert ws.attached[0] in ElementsOf(ws.attached);
    }
  }

  // ----- Whole runs --------------------------------------------------------------

  datatype Call = Call(request: Request, fault: Fault)

  function After(ws: WaitSet, calls: seq<Call>): WaitSet {
    if calls == [] then ws
    else
      var last := calls[|calls| - 1];
      NewWait(After(ws, calls[..|calls| - 1]), last.request, last.fault).1
  }

  /** Some call of the run broke the cache. */
  predicate Broken(ws: WaitSet, calls: seq<Call>) {
    if calls == [] then false
    else
      var earlier, last := calls[..|calls| - 1], calls[|calls| - 1];
      Broken(ws, earlier) || Breaks(After(ws, earlier), last.request, last.fault)
  }

  lemma {:induction false} CacheAfter(ws: WaitSet, calls: seq<Call>)
    requires Consistent(ws)
    ensures After(ws, calls).capacity == ws.capacity
    ensures |After(ws, calls).attached| <= ws.capacity
    ensures if Broken(ws, calls) then Stale(After(ws, calls)) else Consistent(After(ws, calls))
  {
    if calls != [] {
      var earlier, last := calls[..|calls| - 1], calls[|calls| - 1];
      CacheAfter(ws, earlier);
      if Broken(ws, earlier) {
        StaleForEver(After(ws, earlier), last.request, last.fault);
      } else {
        WaitStep(After(ws, earlier), last.request, last.fault);
      }
    }
  }

  /** A broken cache in action: the second call waits while DDS observes only entity 2. */
  lemma BrokenCacheWaitsOnWrongSet()
    ensures var r12 := Request(Some([Some(1), Some(2)]), None);
      var r3 := Request(Some([Some(3)]), None);
      var calls := [Call(r12, NoFault), Call(r3, DetachFails(1))];
      var (outcome, ws) := NewWait(After(WaitSet(2, [], {}), calls), r12, NoFault);
      outcome == Waits && ws.observed == {2}
  {
    var r12 := Request(Some([Some(1), Some(2)]), None);
    var r3 := Request(Some([Some(3)]), None);
    var first := Call(r12, NoFault);
    var calls := [first, Call(r3, DetachFails(1))];
    assert calls[..1] == [first];
    var empty := WaitSet(2, [], {});
    assert Entities(r12.Items()) == [1, 2];
    assert Entities(r3.Items()) == [3];
    var one := AttachOne(empty, 1, false).1;
    var two := AttachOne(one, 2, false).1;
    assert AttachFrom(empty, [1, 2], 0, NoFault) == AttachFrom(one, [1, 2], 1, NoFault)
                                                 == AttachFrom(two, [1, 2], 2, NoFault) == (true, two);
    assert After(empty, [first]) == two;
    assert two.observed - {1} == {2};
    assert DetachFrom(two.observed, [1, 2], 0, DetachFails(1)) == DetachFrom({2}, [1, 2], 1, DetachFails(1));
    assert two.attached == [1, 2] && |[3]| != |[1, 2]|;
    assert NewWait(two, r3, DetachFails(1)).1 == two.(observed := {2});
    assert After(empty, calls) == two.(observed := {2});
  }

  // ----- Agreement with the removed code -----------------------------------------

  lemma {:induction false} OldAttachOutcome(ws: WaitSet, items: seq<Option<Entity>>, i: nat, fault: Fault)
    requires Consistent(ws) && i <= |items|
    ensures Consistent(OldAttach(ws, items, i, fault).1)
    ensures OldAttach(ws, items, i, fault).1.capacity == ws.capacity
    ensures AllPresent(items) ==>
      var (ok, next) := AttachFrom(ws, Entities(items), i, fault);
      OldAttach(ws, items, i, fault) == (if ok then Waits else DdsError, next)
    ensures OldAttach(ws, items, i, fault).0 == Waits ==> AllPresent(items[i..])
    decreases |items| - i
  {
    if i < |items| && items[i].Some? {
      var fails := fault == AttachFails(i);
      AttachOneOutcome(ws, items[i].value, fails);
      var (ok, next) := AttachOne(ws, items[i].value, fails);
      if ok {
        OldAttachOutcome(next, items, i + 1, fault);
        assert items[i..] == [items[i]] + items[i + 1..];
      }
    }
  }

  /** A request both versions serve when no DDS call fails. */
  ghost predicate Servable(capacity: nat, r: Request) {
    Acceptable(capacity, r) && Distinct(Entities(r.Items()))
  }

  /** The fault falls on a detach, or an attach, that the slow path makes. */
  predicate DetachHit(ws: WaitSet, fault: Fault) {
    fault.DetachFails? && fault.index < |ws.attached|
  }

  predicate AttachHit(r: Request, fault: Fault) {
    fault.AttachFails? && fault.index < |r.Items()|
  }

  lemma OldAttachesExactly(capacity: nat, r: Request, fault: Fault)
    ensures var (outcome, next) := OldAttach(WaitSet(capacity, [], {}), r.Items(), 0, fault);
      && Consistent(next) && next.capacity == capacity
      && (outcome == Waits <==> Servable(capacity, r) && !AttachHit(r, fault))
      && (outcome == Waits ==> next.attached == Entities(r.Items()))
  {
    var empty, items := WaitSet(capacity, [], {}), r.Items();
    OldAttachOutcome(empty, items, 0, fault);
    assert items[0..] == items;
    if AllPresent(items) {
      AttachSucceedsExactly(empty, Entities(items), 0, fault);
      AttachOutcome(empty, Entities(items), 0, fault);
      assert empty.attached + Entities(items)[0..] == Entities(items);
    }
  }

  /** The removed code breaks whenever a detach fails after another has succeeded. */
  predicate OldBreaks(ws: WaitSet, fault: Fault) {
    DetachHit(ws, fault) && fault.index > 0
  }

  /** One call of the removed code, with any fault. */
  lemma OldStep(ws: WaitSet, r: Request, fault: Fault)
    requires Consistent(ws)
    ensures var (outcome, next) := OldWait(ws, r, fault);
      && next.capacity == ws.capacity && (if OldBreaks(ws, fault) then Stale(next) else Consistent(next))
      && (outcome == Waits <==> Servable(ws.capacity, r) && !DetachHit(ws, fault) && !AttachHit(r, fault))
      && (outcome == Waits ==> next.attached == Entities(r.Items()))
  {
    assert ws.attached[0..] == ws.attached;
    DetachOutcome(ws.attached, 0, fault);
    OldAttachesExactly(ws.capacity, r, fault);
  }

  /** A request the cache answers without any DDS call. */
  predicate Cached(ws: WaitSet, r: Request) {
    Acceptable(ws.capacity, r) && Entities(r.Items()) == ws.attached
  }

  /** One call of the cached code, with any fault. */
  lemma NewStep(ws: WaitSet, r: Request, fault: Fault)
    requires Consistent(ws)
    ensures var (outcome, next) := NewWait(ws, r, fault);
      && next.capacity == ws.capacity && (!Breaks(ws, r, fault) ==> Consistent(next))
      && (outcome == Waits <==>
            Servable(ws.capacity, r) && (Cached(ws, r) || (!DetachHit(ws, fault) && !AttachHit(r, fault))))
      && (outcome == Waits ==> next.attached == Entities(r.Items()))
  {
    WaitStep(ws, r, fault);
    assert ws.attached[0..] == ws.attached;
    DetachOutcome(ws.attached, 0, fault);
    if Acceptable(ws.capacity, r) {
      var empty, entities := WaitSet(ws.capacity, [], {}), Entities(r.Items());
      AttachSucceedsExactly(empty, entities, 0, fault);
      AttachOutcome(empty, entities, 0, fault);
      assert empty.attached + entities[0..] == entities;
    }
  }

  // ----- What a call waits on ----------------------------------------------------

  /** The saved list is what the request asks for, and DDS observes exactly the entities in it. */
  ghost predicate WaitsOn(ws: WaitSet, r: Request) {
    Requested(r, ws.attached) && forall e :: e in ws.observed <==> e in ws.attached
  }

  lemma ConsistentWaitsOn(ws: WaitSet, r: Request)
    requires Consistent(ws) && AllPresent(r.Items()) && ws.attached == Entities(r.Items())
    ensures WaitsOn(ws, r)
  {
    EntitiesRequested(r);
  }

  /** A waiting call on a consistent cache leaves it observing the request. */
  lemma WaitsConsistently(ws: WaitSet, r: Request, fault: Fault)
    requires Consistent(ws) && NewWait(ws, r, fault).0 == Waits
    ensures WaitsOn(NewWait(ws, r, fault).1, r) && NewWait(ws, r, fault).1.capacity == ws.capacity
    ensures |NewWait(ws, r, fault).1.attached| <= ws.capacity
  {
    NewStep(ws, r, fault);
    AcceptableExactly(ws.capacity, r);
    ConsistentWaitsOn(NewWait(ws, r, fault).1, r);
  }

  /** A waiting call on a stale cache leaves it as it was, with something saved that is not observed. */
  lemma WaitsStale(ws: WaitSet, r: Request, fault: Fault)
    requires Stale(ws) && NewWait(ws, r, fault).0 == Waits
    ensures NewWait(ws, r, fault).1 == ws && Requested(r, ws.attached) && !WaitsOn(ws, r)
  {
    StaleForEver(ws, r, fault);
    AcceptableExactly(ws.capacity, r);
    assert !DetachFrom(ws.observed, ws.attached, 0, fault).0;
    assert Entities(r.Items()) == ws.attached;
    EntitiesRequested(r);
    var e := ws.attached[0];
    assert e in ws.attached && e !in ws.observed;
  }

  /**
   A call that reaches the wait step has saved exactly what was requested, and DDS
   observes exactly that if and only if no earlier detach of the run failed midway.
   */
  lemma WaitsOnRequestedExactly(capacity: nat, calls: seq<Call>, r: Request, fault: Fault)
    requires NewWait(After(WaitSet(capacity, [], {}), calls), r, fault).0 == Waits
    ensures !Malformed(capacity, r)
    ensures var next := NewWait(After(WaitSet(capacity, [], {}), calls), r, fault).1;
      && Requested(r, next.attached) && |next.attached| <= capacity
      && (WaitsOn(next, r) <==> !Broken(WaitSet(capacity, [], {}), calls))
  {
    var start := WaitSet(capacity, [], {});
    assert Consistent(start);
    CacheAfter(start, calls);
    if Broken(start, calls) {
      WaitsStale(After(start, calls), r, fault);
    } else {
      WaitsConsistently(After(start, calls), r, fault);
    }
  }

  /** The wait set a failing detach leaves: the saved list as it was, its first entries no longer observed. */
  ghost predicate LeftByDetach(ws: WaitSet, next: WaitSet, index: nat) {
    && index < |ws.attached| && next.attached == ws.attached
    && forall e :: e in next.observed <==> e in ws.attached[index..]
  }

  /** The wait set a failing attach leaves: the entities before the one that failed, saved and observed. */
  ghost predicate LeftByAttach(entities: seq<Entity>, fault: Fault, next: WaitSet, j: nat) {
    && j < |entities| && next.attached == entities[..j]
    && (forall e :: e in next.observed <==> e in next.attached)
    && (fault == AttachFails(j) || entities[j] in entities[..j])
    && (forall k :: 0 <= k < j ==> fault != AttachFails(k))
  }

  /** What a call of the cached code leaves behind when it is refused by DDS. */
  lemma DdsErrorLeaves(ws: WaitSet, r: Request, fault: Fault, entities: seq<Entity>) returns (j: nat)
    requires Consistent(ws) && Requested(r, entities) && NewWait(ws, r, fault).0 == DdsError
    ensures var next := NewWait(ws, r, fault).1;
      if DetachHit(ws, fault) then LeftByDetach(ws, next, fault.index) else LeftByAttach(entities, fault, next, j)
  {
    j := 0;
    AcceptableExactly(ws.capacity, r);
    RequestedExactly(r, entities);
    assert ws.attached[0..] == ws.attached;
    DetachOutcome(ws.attached, 0, fault);
    if !DetachHit(ws, fault) {
      var empty := WaitSet(ws.capacity, [], {});
      j := AttachStops(empty, entities, 0, fault);
      AttachOutcome(empty, entities, 0, fault);
      assert [] + entities[0..j] == entities[..j];
    }
  }

  function OldAfter(ws: WaitSet, calls: seq<Call>): WaitSet {
    if calls == [] then ws
    else
      var last := calls[|calls| - 1];
      OldWait(OldAfter(ws, calls[..|calls| - 1]), last.request, last.fault).1
  }

  predicate OldBroken(ws: WaitSet, calls: seq<Call>) {
    if calls == [] then false
    else
      var earlier, last := calls[..|calls| - 1], calls[|calls| - 1];
      OldBroken(ws, earlier) || OldBreaks(OldAfter(ws, earlier), last.fault)
  }

  lemma {:induction false} OldStaysConsistent(ws: WaitSet, calls: seq<Call>)
    requires Consistent(ws) && !OldBroken(ws, calls)
    ensures Consistent(OldAfter(ws, calls)) && OldAfter(ws, calls).capacity == ws.capacity
  {
    if calls != [] {
      var earlier, last := calls[..|calls| - 1], calls[|calls| - 1];
      OldStaysConsistent(ws, earlier);
      OldStep(OldAfter(ws, earlier), last.request, last.fault);
    }
  }

  /** Runs in which no detach fails break neither version. */
  lemma {:induction false} NeverBroken(ws: WaitSet, calls: seq<Call>)
    requires forall i :: 0 <= i < |calls| ==> !calls[i].fault.DetachFails?
    ensures !Broken(ws, calls) && !OldBroken(ws, calls)
  {
    if calls != [] {
      NeverBroken(ws, calls[..|calls| - 1]);
    }
  }

  /**
   After any two runs that broke neither version, whatever calls and attach failures they
   held, the cached code waits exactly when the removed code would or the request is what
   it has attached already.  When it waits it observes exactly the request, and when both
   wait they leave the same wait set.
   */
  lemma CachedRefinesUncached(ws: WaitSet, oldCalls: seq<Call>, newCalls: seq<Call>, r: Request, fault: Fault)
    requires Consistent(ws) && !OldBroken(ws, oldCalls) && !Broken(ws, newCalls) && !fault.DetachFails?
    ensures var (oldOutcome, oldNext) := OldWait(OldAfter(ws, oldCalls), r, fault);
      var (newOutcome, newNext) := NewWait(After(ws, newCalls), r, fault);
      && (newOutcome == Waits <==> oldOutcome == Waits || Cached(After(ws, newCalls), r))
      && (newOutcome == Waits && oldOutcome != Waits ==> AttachHit(r, fault))
      && (newOutcome == Waits ==> WaitsOn(newNext, r))
      && (oldOutcome == Waits ==> newNext == oldNext)
  {
    AcceptableExactly(ws.capacity, r);
    if Acceptable(ws.capacity, r) {
      RequestedExactly(r, Entities(r.Items()));
    }
    OldStaysConsistent(ws, oldCalls);
    CacheAfter(ws, newCalls);
    OldStep(OldAfter(ws, oldCalls), r, fault);
    NewStep(After(ws, newCalls), r, fault);
  }

  /** In every run where no detach fails, a call without a failing attach fares alike in both versions. */
  lemma SameOverEveryRun(capacity: nat, calls: seq<Call>, r: Request, fault: Fault)
    requires forall i :: 0 <= i < |calls| ==> !calls[i].fault.DetachFails?
    requires !fault.DetachFails? && !AttachHit(r, fault)
    ensures var start := WaitSet(capacity, [], {});
      var (oldOutcome, oldNext) := OldWait(OldAfter(start, calls), r, fault);
      var (newOutcome, newNext) := NewWait(After(start, calls), r, fault);
      && (newOutcome == Waits <==> oldOutcome == Waits)
      && (newOutcome == Waits ==> newNext == oldNext && WaitsOn(newNext, r))
  {
    var start := WaitSet(capacity, [], {});
    assert Consistent(start);
    NeverBroken(start, calls);
    CachedRefinesUncached(start, calls, calls, r, fault);
  }
}
