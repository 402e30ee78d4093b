/**
 The deployment compiler: validation of the endpoint list, and the C setup code it
 generates, with each generated line as an abstract statement.
 */
module Deployment {
  import opened Common

  datatype Kind = Publisher | Subscription

  /** An endpoint as read from the deployment file, fields already of their JSON types. */
  datatype RawEndpoint = RawEndpoint(
    id: string,
    kind: string,
    topic: string,
    typeName: string,
    lifetime: string,
    callback: Option<string>,
    reliability: string,
    durability: string,
    history: string,
    depth: int)

  datatype Error = Schema | DuplicateEndpoint | LifetimeUnsupported | EndpointCapacity

  // ----- Lexical rules -----------------------------------------------------------

  predicate IsLower(c: char) {
    'a' <= c <= 'z'
  }

  predicate IsLetter(c: char) {
    IsLower(c) || 'A' <= c <= 'Z'
  }

  predicate IsWord(c: char) {
    IsLetter(c) || '0' <= c <= '9' || c == '_'
  }

  predicate IsLowerIdentifier(s: string) {
    s != "" && IsLower(s[0]) && forall i :: 0 <= i < |s| ==> IsLower(s[i]) || '0' <= s[i] <= '9' || s[i] == '_'
  }

  predicate IsIdentifier(s: string) {
    s != "" && (IsLetter(s[0]) || s[0] == '_') && forall i :: 0 <= i < |s| ==> IsWord(s[i])
  }

  predicate IsTypeName(s: string) {
    s != "" && IsLetter(s[0]) && forall i :: 0 <= i < |s| ==> IsWord(s[i])
  }

  const MSG := "/msg/"

  predicate IsMessageType(s: string) {
    exists i :: 0 <= i <= |s| - |MSG| && s[i..i + |MSG|] == MSG && IsTypeName(s[..i]) && IsTypeName(s[i + |MSG|..])
  }

  predicate IsTopic(s: string) {
    s != "" && s[|s| - 1] != '/' && forall i :: 0 <= i < |s| - 1 ==> !(s[i] == '/' && s[i + 1] == '/')
  }

  // ----- Validation --------------------------------------------------------------

  /** What is wrong with an endpoint once its identifier has been accepted. */
  function CheckFields(e: RawEndpoint): Option<Error> {
    if e.kind != "publisher" && e.kind != "subscription" then Some(Schema)
    else if !IsTopic(e.topic) then Some(Schema)
    else if !IsMessageType(e.typeName) then Some(Schema)
    else if e.lifetime != "fixed_startup" then Some(LifetimeUnsupported)
    else if e.kind == "subscription" && (e.callback.None? || !IsIdentifier(e.callback.value)) then Some(Schema)
    else if e.kind == "publisher" && e.callback.Some? then Some(Schema)
    else if e.reliability != "best_effort" && e.reliability != "reliable" then Some(Schema)
    else if e.durability != "volatile" && e.durability != "transient_local" then Some(Schema)
    else if e.history != "keep_last" then Some(Schema)
    else if e.depth < 1 then Some(Schema)
    else None
  }

  /** The first complaint about an endpoint, given the identifiers already taken. */
  function CheckEndpoint(e: RawEndpoint, taken: set<string>): Option<Error> {
    if !IsLowerIdentifier(e.id) then Some(Schema)
    else if e.id in taken then Some(DuplicateEndpoint)
    else CheckFields(e)
  }

  function Ids(endpoints: seq<RawEndpoint>): set<string> {
    set e | e in endpoints :: e.id
  }

  /** Kind, topic and type are in order. */
  predicate Described(e: RawEndpoint) {
    e.kind in {"publisher", "subscription"} && IsTopic(e.topic) && IsMessageType(e.typeName)
  }

  /** A callback for subscriptions only, and supported quality of service. */
  predicate Configured(e: RawEndpoint) {
    && (e.kind == "subscription" <==> e.callback.Some?) && (e.callback.Some? ==> IsIdentifier(e.callback.value))
    && e.reliability in {"best_effort", "reliable"} && e.durability in {"volatile", "transient_local"}
    && e.history == "keep_last" && e.depth >= 1
  }

  predicate WellFormed(e: RawEndpoint) {
    IsLowerIdentifier(e.id) && Described(e) && e.lifetime == "fixed_startup" && Configured(e)
  }

  /** Which complaint an endpoint deserves, if `taken` says that an earlier one has its identifier. */
  predicate Deserves(e: RawEndpoint, taken: bool, error: Error) {
    match error
    case Schema =>
      || !IsLowerIdentifier(e.id)
      || (!taken && (!Described(e) || (e.lifetime == "fixed_startup" && !Configured(e))))
    case DuplicateEndpoint => IsLowerIdentifier(e.id) && taken
    case LifetimeUnsupported => IsLowerIdentifier(e.id) && !taken && Described(e) && e.lifetime != "fixed_startup"
    case EndpointCapacity => false
  }

  /** The checks in their order complain of exactly what an endpoint deserves. */
  lemma ComplainsExactly(e: RawEndpoint, taken: set<string>, error: Error)
    ensures CheckEndpoint(e, taken) == Some(error) <==> Deserves(e, e.id in taken, error)
    ensures CheckEndpoint(e, taken).None? <==> WellFormed(e) && e.id !in taken
  {
  }

  ghost predicate DistinctIds(endpoints: seq<RawEndpoint>) {
    forall i, j :: 0 <= i < j < |endpoints| ==> endpoints[i].id != endpoints[j].id
  }

  ghost predicate Valid(endpoints: seq<RawEndpoint>, capacity: nat) {
    && |endpoints| <= capacity
    && DistinctIds(endpoints)
    && forall i :: 0 <= i < |endpoints| ==> WellFormed(endpoints[i])
  }

  /** The list is accepted up to `k`, where the first complaint is `error`. */
  ghost predicate FirstComplaint(endpoints: seq<RawEndpoint>, k: nat, error: Error) {
    && k < |endpoints|
    && Valid(endpoints[..k], k)
    && Deserves(endpoints[k], exists j :: 0 <= j < k && endpoints[j].id == endpoints[k].id, error)
  }

  lemma IdTaken(endpoints: seq<RawEndpoint>, k: nat)
    requires k < |endpoints|
    ensures endpoints[k].id in Ids(endpoints[..k]) <==> exists j :: 0 <= j < k && endpoints[j].id == endpoints[k].id
  {
    forall j | 0 <= j < k && endpoints[j].id == endpoints[k].id
      ensures endpoints[k].id in Ids(endpoints[..k])
    {
      assert endpoints[..k][j] in endpoints[..k];
    }
    if endpoints[k].id in Ids(endpoints[..k]) {
      var e :| e in endpoints[..k] && e.id == endpoints[k].id;
      var j :| 0 <= j < k && endpoints[..k][j] == e;
      assert endpoints[j].id == endpoints[k].id;
    }
  }

  /** The first endpoint the checks complain of gets what it deserves, and spoils the list. */
  lemma Complains(endpoints: seq<RawEndpoint>, k: nat, error: Error)
    requires k < |endpoints| && Valid(endpoints[..k], k)
    requires CheckEndpoint(endpoints[k], Ids(endpoints[..k])) == Some(error)
    ensures FirstComplaint(endpoints, k, error)
    ensures forall capacity: nat :: !Valid(endpoints, capacity)
  {
    IdTaken(endpoints, k);
    ComplainsExactly(endpoints[k], Ids(endpoints[..k]), error);
    if endpoints[k].id in Ids(endpoints[..k]) {
      DuplicateFound(endpoints, k);
    }
  }

  /** One the checks pass keeps the list valid. */
  lemma Passes(endpoints: seq<RawEndpoint>, k: nat)
    requires k < |endpoints| && Valid(endpoints[..k], k)
    requires CheckEndpoint(endpoints[k], Ids(endpoints[..k])).None?
    ensures Valid(endpoints[..k + 1], k + 1)
    ensures Ids(endpoints[..k + 1]) == Ids(endpoints[..k]) + {endpoints[k].id}
  {
    assert endpoints[..k + 1] == endpoints[..k] + [endpoints[k]];
    ComplainsExactly(endpoints[k], Ids(endpoints[..k]), Schema);
    IdsAreDistinct(endpoints[..k], endpoints[k]);
  }

  lemma DuplicateFound(endpoints: seq<RawEndpoint>, k: nat)
    requires k < |endpoints| && endpoints[k].id in Ids(endpoints[..k])
    ensures !DistinctIds(endpoints)
  {
    var e :| e in endpoints[..k] && e.id == endpoints[k].id;
    var j :| 0 <= j < k && endpoints[..k][j] == e;
    assert endpoints[j].id == endpoints[k].id;
  }

  lemma IdsAreDistinct(endpoints: seq<RawEndpoint>, e: RawEndpoint)
    requires DistinctIds(endpoints) && e.id !in Ids(endpoints)
    ensures DistinctIds(endpoints + [e])
    ensures Ids(endpoints + [e]) == Ids(endpoints) + {e.id}
  {
    forall j | 0 <= j < |endpoints|
      ensures endpoints[j].id != e.id
    {
      assert endpoints[j] in endpoints;
    }
  }

  /** Accepts exactly the valid lists, and otherwise reports the first complaint. */
  method ValidateEndpoints(endpoints: seq<RawEndpoint>, capacity: nat) returns (error: Option<Error>)
    ensures error.None? <==> Valid(endpoints, capacity)
    ensures error.Some? ==>
      || (exists k :: FirstComplaint(endpoints, k, error.value))
      || (Valid(endpoints, |endpoints|) && |endpoints| > capacity && error.value == EndpointCapacity)
  {
    var ids: set<string> := {};
    for index := 0 to |endpoints|
      invariant ids == Ids(endpoints[..index])
      invariant Valid(endpoints[..index], index)
    {
      var e := endpoints[index];
      if !IsLowerIdentifier(e.id) {
        Complains(endpoints, index, Schema);
        return Some(Schema);
      }
      if e.id in ids {
        Complains(endpoints, index, DuplicateEndpoint);
        return Some(DuplicateEndpoint);
      }
      error := CheckFields(e);
      if error.Some? {
        Complains(endpoints, index, error.value);
        return;
      }
      Passes(endpoints, index);
      ids := ids + {e.id};
    }
    assert endpoints[..|endpoints|] == endpoints;
    if |endpoints| > capacity {
      return Some(EndpointCapacity);
    }
    return None;
  }

  // ----- Generated code ----------------------------------------------------------

  datatype Endpoint = Endpoint(kind: Kind, id: string)

  ghost predicate DistinctEndpoints(endpoints: seq<Endpoint>) {
    forall i, j :: 0 <= i < j < |endpoints| ==> endpoints[i].id != endpoints[j].id
  }

  function Parsed(e: RawEndpoint): Endpoint {
    Endpoint(if e.kind == "subscription" then Subscription else Publisher, e.id)
  }

  datatype Resource = Node | OfEndpoint(endpoint: Endpoint) | Executor

  const OK := 0
  const ERROR := 1
  const INVALID_ARGUMENT := 11

  /** One line or guarded group of lines of the generated C. */
  datatype Statement =
    | RejectNull                          // return invalid-argument on a null pointer
    | ClearContext                        // memset and zero-initialised members
    | Create(resource: Resource, capacity: nat) // result = ..._init(...); only an executor has a capacity
    | ReturnIfFailed(cleanUp: bool)       // if result is not ok: maybe fini, then return it
    | SetFlag(resource: Resource)         // context->..._initialized = true
    | AddSubscription(id: string)
    | Prepare
    | FinishIfSet(resource: Resource)     // if flagged and its fini fails: result = error
    | ReturnOk
    | ReturnResult

  function Subscriptions(endpoints: seq<Endpoint>): seq<Endpoint> {
    if endpoints == [] then []
    else
      var last := endpoints[|endpoints| - 1];
      Subscriptions(endpoints[..|endpoints| - 1]) + if last.kind == Subscription then [last] else []
  }

  lemma {:induction false} InSubscriptions(endpoints: seq<Endpoint>)
    ensures forall e :: e in Subscriptions(endpoints) <==> e in endpoints && e.kind == Subscription
  {
    if endpoints != [] {
      InSubscriptions(endpoints[..|endpoints| - 1]);
      assert endpoints == endpoints[..|endpoints| - 1] + [endpoints[|endpoints| - 1]];
    }
  }

  /** `at` lists the places of the chosen endpoints: all the subscriptions, each once, in order. */
  ghost predicate Chosen(endpoints: seq<Endpoint>, chosen: seq<Endpoint>, at: seq<nat>) {
    && |at| == |chosen|
    && (forall k :: 0 <= k < |at| ==> at[k] < |endpoints| && endpoints[at[k]] == chosen[k])
    && (forall k, l :: 0 <= k < l < |at| ==> at[k] < at[l])
    && (forall i :: 0 <= i < |endpoints| ==> (endpoints[i].kind == Subscription <==> i in at))
  }

  lemma ChosenSkips(endpoints: seq<Endpoint>, last: Endpoint, chosen: seq<Endpoint>, at: seq<nat>)
    requires Chosen(endpoints, chosen, at) && last.kind != Subscription
    ensures Chosen(endpoints + [last], chosen, at)
  {
  }

  lemma ChosenTakes(endpoints: seq<Endpoint>, last: Endpoint, chosen: seq<Endpoint>, at: seq<nat>)
    requires Chosen(endpoints, chosen, at) && last.kind == Subscription
    ensures Chosen(endpoints + [last], chosen + [last], at + [|endpoints|])
  {
  }

  /** The executor's subscriptions are the deployment's, in the deployment's order. */
  lemma {:induction false} SubscriptionsInOrder(endpoints: seq<Endpoint>) returns (at: seq<nat>)
    ensures Chosen(endpoints, Subscriptions(endpoints), at)
  {
    if endpoints == [] {
      at := [];
    } else {
      var n := |endpoints| - 1;
      var earlier, last := endpoints[..n], endpoints[n];
      at := SubscriptionsInOrder(earlier);
      assert endpoints == earlier + [last];
      if last.kind == Subscription {
        ChosenTakes(earlier, last, Subscriptions(earlier), at);
        at := at + [n];
      } else {
        ChosenSkips(earlier, last, Subscriptions(earlier), at);
        assert Subscriptions(endpoints) == Subscriptions(earlier);
      }
    }
  }

  function OfEndpoints(endpoints: seq<Endpoint>): (r: seq<Resource>)
    ensures |r| == |endpoints|
  {
    seq(|endpoints|, i requires 0 <= i < |endpoints| => OfEndpoint(endpoints[i]))
  }

  /** Everything the generated code creates, in the order it does. */
  function CreationOrder(endpoints: seq<Endpoint>): seq<Resource> {
    [Node] + OfEndpoints(endpoints) + if Subscriptions(endpoints) == [] then [] else [Executor]
  }

  /** The node first, then every endpoint in its place, and an executor last exactly if there is a subscription. */
  lemma CreatesEverything(endpoints: seq<Endpoint>)
    ensures var order, n := CreationOrder(endpoints), |endpoints|;
      && n + 1 <= |order| <= n + 2 && order[0] == Node
      && (forall i :: 0 <= i < n ==> order[i + 1] == OfEndpoint(endpoints[i]))
      && (|order| == n + 2 <==> exists i :: 0 <= i < n && endpoints[i].kind == Subscription)
      && (|order| == n + 2 ==> order[n + 1] == Executor)
  {
    InSubscriptions(endpoints);
    var subscriptions := Subscriptions(endpoints);
    if subscriptions != [] {
      assert subscriptions[0] in endpoints;
    }
    forall i | 0 <= i < |endpoints| && endpoints[i].kind == Subscription
      ensures subscriptions != []
    {
      assert endpoints[i] in subscriptions;
    }
  }

  function Reversed<T>(s: seq<T>): (r: seq<T>)
    ensures |r| == |s|
  {
    if s == [] then [] else [s[|s| - 1]] + Reversed(s[..|s| - 1])
  }

  /** The order in which the generated fini looks at its flags. */
  function FinishOrder(endpoints: seq<Endpoint>): seq<Resource> {
    [Executor] + Reversed(OfEndpoints(endpoints)) + [Node]
  }

  /** Create a resource, leave on failure, flag it on success. */
  function Block(r: Resource, capacity: nat): seq<Statement> {
    [Create(r, if r == Executor then capacity else 0), ReturnIfFailed(r != Node), SetFlag(r)]
  }

  function Blocks(resources: seq<Resource>, capacity: nat): seq<Statement> {
    if resources == [] then [] else Block(resources[0], capacity) + Blocks(resources[1..], capacity)
  }

  function Additions(subscriptions: seq<Endpoint>): seq<Statement> {
    if subscriptions == [] then []
    else [AddSubscription(subscriptions[0].id), ReturnIfFailed(true)] + Additions(subscriptions[1..])
  }

  function Finishes(resources: seq<Resource>): seq<Statement> {
    if resources == [] then [] else [FinishIfSet(resources[0])] + Finishes(resources[1..])
  }

  function FiniCode(endpoints: seq<Endpoint>): seq<Statement> {
    [RejectNull] + Finishes(FinishOrder(endpoints)) + [ReturnResult]
  }

  function Wiring(subscriptions: seq<Endpoint>): seq<Statement> {
    if subscriptions == [] then [] else Additions(subscriptions) + [Prepare, ReturnIfFailed(true)]
  }

  function InitCode(endpoints: seq<Endpoint>): seq<Statement> {
    var subscriptions := Subscriptions(endpoints);
    [RejectNull, ClearContext]
    + Blocks(CreationOrder(endpoints), |subscriptions|)
    + Wiring(subscriptions)
    + [ReturnOk]
  }

  lemma {:induction false} BlocksAppend(a: seq<Resource>, b: seq<Resource>, capacity: nat)
    ensures Blocks(a + b, capacity) == Blocks(a, capacity) + Blocks(b, capacity)
  {
    if a == [] {
      assert a + b == b;
    } else {
      assert (a + b)[1..] == a[1..] + b;
      BlocksAppend(a[1..], b, capacity);
    }
  }

  lemma {:induction false} AdditionsAppend(a: seq<Endpoint>, b: seq<Endpoint>)
    ensures Additions(a + b) == Additions(a) + Additions(b)
  {
    if a == [] {
      assert a + b == b;
    } else {
      assert (a + b)[1..] == a[1..] + b;
      AdditionsAppend(a[1..], b);
    }
  }

  lemma {:induction false} FinishesAppend(a: seq<Resource>, b: seq<Resource>)
    ensures Finishes(a + b) == Finishes(a) + Finishes(b)
  {
    if a == [] {
      assert a + b == b;
    } else {
      assert (a + b)[1..] == a[1..] + b;
      FinishesAppend(a[1..], b);
    }
  }

  lemma {:induction false} ReversedAt<T>(s: seq<T>, k: nat)
    requires k < |s|
    ensures Reversed(s)[k] == s[|s| - 1 - k]
  {
    if k > 0 {
      ReversedAt(s[..|s| - 1], k - 1);
    }
  }

  /** The generated fini: executor first, then the endpoints backwards, then the node. */
  method GenerateFini(endpoints: seq<Endpoint>) returns (lines: seq<Statement>)
    ensures lines == FiniCode(endpoints)
  {
    lines := [RejectNull, FinishIfSet(Executor)];
    ghost var backwards := Reversed(OfEndpoints(endpoints));
    var i := |endpoints|;
    while i > 0
      invariant 0 <= i <= |endpoints|
      invariant lines == [RejectNull, FinishIfSet(Executor)] + Finishes(backwards[..|endpoints| - i])
    {
      i := i - 1;
      lines := lines + [FinishIfSet(OfEndpoint(endpoints[i]))];
      ghost var k := |endpoints| - i - 1;
      ReversedAt(OfEndpoints(endpoints), k);
      assert backwards[..k + 1] == backwards[..k] + [OfEndpoint(endpoints[i])];
      FinishesAppend(backwards[..k], [OfEndpoint(endpoints[i])]);
    }
    assert backwards[..|endpoints|] == backwards;
    lines := lines + [FinishIfSet(Node), ReturnResult];
    FinishesAppend([Executor], backwards);
    FinishesAppend([Executor] + backwards, [Node]);
  }

  /** The part of the generated init that creates node and endpoints, in the order given. */
  method GenerateCreation(endpoints: seq<Endpoint>) returns (lines: seq<Statement>)
    ensures lines == Blocks([Node] + OfEndpoints(endpoints), |Subscriptions(endpoints)|)
  {
    ghost var capacity := |Subscriptions(endpoints)|;
    ghost var order := [Node] + OfEndpoints(endpoints);
    lines := [Create(Node, 0), ReturnIfFailed(false), SetFlag(Node)];
    assert order[..1] == [Node] && [Node][1..] == [];
    for i := 0 to |endpoints|
      invariant lines == Blocks(order[..i + 1], capacity)
    {
      var r := OfEndpoint(endpoints[i]);
      lines := lines + [Create(r, 0), ReturnIfFailed(true), SetFlag(r)];
      assert order[..i + 2] == order[..i + 1] + [r] && [r][1..] == [];
      BlocksAppend(order[..i + 1], [r], capacity);
    }
    assert order[..|endpoints| + 1] == order;
  }

  /** The part of the generated init that gives the executor its subscriptions. */
  method GenerateWiring(subscriptions: seq<Endpoint>) returns (lines: seq<Statement>)
    requires subscriptions != []
    ensures lines == Block(Executor, |subscriptions|) + Wiring(subscriptions)
  {
    lines := [Create(Executor, |subscriptions|), ReturnIfFailed(true), SetFlag(Executor)];
    for i := 0 to |subscriptions|
      invariant lines == Block(Executor, |subscriptions|) + Additions(subscriptions[..i])
    {
      var s := subscriptions[i];
      lines := lines + [AddSubscription(s.id), ReturnIfFailed(true)];
      assert subscriptions[..i + 1] == subscriptions[..i] + [s] && [s][1..] == [];
      AdditionsAppend(subscriptions[..i], [s]);
    }
    assert subscriptions[..|subscriptions|] == subscriptions;
    lines := lines + [Prepare, ReturnIfFailed(true)];
  }

  method GenerateInit(endpoints: seq<Endpoint>) returns (lines: seq<Statement>)
    ensures lines == InitCode(endpoints)
  {
    var creation := GenerateCreation(endpoints);
    lines := [RejectNull, ClearContext] + creation;
    var subscriptions := Subscriptions(endpoints);
    if subscriptions != [] {
      var wiring := GenerateWiring(subscriptions);
      lines := lines + wiring;
      BlocksAppend([Node] + OfEndpoints(endpoints), [Executor], |subscriptions|);
      assert [Executor][1..] == [];
      assert Blocks([Executor], |subscriptions|) == Block(Executor, |subscriptions|) + [];
    } else {
      assert CreationOrder(endpoints) == [Node] + OfEndpoints(endpoints);
    }
    lines := lines + [ReturnOk];
  }
}
