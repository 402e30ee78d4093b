/**
 The members of the context structure that the generated init and fini name, against those
 the generated header declares.
 */
module GeneratedUses {
  import opened Common
  import opened Deployment
  import opened GeneratedHeader
  import DeploymentRuns

  // ----- Names in the generated code ---------------------------------------------

  function ResourceName(r: Resource): string {
    match r
    case Node => "node"
    case OfEndpoint(e) => EndpointName(e.kind, e.id, "")
    case Executor => "executor"
  }

  function FlagName(r: Resource): string {
    match r
    case Node => "node_initialized"
    case OfEndpoint(e) => EndpointName(e.kind, e.id, INITIALIZED)
    case Executor => "executor_initialized"
  }

  /** The context member a statement names, an endpoint's call naming the node as well. */
  predicate Mentions(endpoints: seq<Endpoint>, s: Statement, name: string) {
    match s
    case ClearContext =>
      || name == "node" || name == "executor"
      || exists i :: 0 <= i < |endpoints| && name == ResourceName(OfEndpoint(endpoints[i]))
    case Create(r, _) => name == ResourceName(r) || (r.OfEndpoint? && name == "node")
    case SetFlag(r) => name == FlagName(r)
    case AddSubscription(id) =>
      name == "executor" || name == EndpointName(Subscription, id, "") || name == EndpointName(Subscription, id, MESSAGE)
    case Prepare => name == "executor"
    case FinishIfSet(r) => name == ResourceName(r) || name == FlagName(r) || (r.OfEndpoint? && name == "node")
    case _ => false
  }

  ghost predicate Used(endpoints: seq<Endpoint>, name: string) {
    exists s :: (s in InitCode(endpoints) || s in FiniCode(endpoints)) && Mentions(endpoints, s, name)
  }

  ghost predicate DeclaredName(endpoints: seq<Endpoint>, name: string) {
    exists f :: Declared(endpoints, f) && Name(endpoints, f) == name
  }

  // ----- The statements of each part ---------------------------------------------

  lemma {:induction false} InFinishes(resources: seq<Resource>)
    ensures forall s :: s in Finishes(resources) <==> s.FinishIfSet? && s.resource in resources
  {
    if resources != [] {
      InFinishes(resources[1..]);
      assert resources == [resources[0]] + resources[1..];
    }
  }

  lemma {:induction false} InBlocks(resources: seq<Resource>, capacity: nat)
    ensures forall s :: s in Blocks(resources, capacity) ==>
      s.ReturnIfFailed? || ((s.Create? || s.SetFlag?) && s.resource in resources)
  {
    if resources != [] {
      InBlocks(resources[1..], capacity);
      assert resources == [resources[0]] + resources[1..];
    }
  }

  lemma {:induction false} InAdditions(subscriptions: seq<Endpoint>)
    ensures forall s :: s in Additions(subscriptions) ==>
      s.ReturnIfFailed? || (s.AddSubscription? && exists e :: e in subscriptions && e.id == s.id)
    ensures forall e :: e in subscriptions ==> AddSubscription(e.id) in Additions(subscriptions)
  {
    if subscriptions != [] {
      InAdditions(subscriptions[1..]);
      assert subscriptions == [subscriptions[0]] + subscriptions[1..];
    }
  }

  lemma InFinishOrder(endpoints: seq<Endpoint>)
    ensures forall r :: r in FinishOrder(endpoints) <==> !r.OfEndpoint? || r.endpoint in endpoints
  {
    DeploymentRuns.ReversedKeepsElements(OfEndpoints(endpoints));
    InOfEndpoints(endpoints);
  }

  lemma InOfEndpoints(endpoints: seq<Endpoint>)
    ensures forall r :: r in OfEndpoints(endpoints) <==> r.OfEndpoint? && r.endpoint in endpoints
  {
    forall r: Resource | r.OfEndpoint? && r.endpoint in endpoints
      ensures r in OfEndpoints(endpoints)
    {
      var i :| 0 <= i < |endpoints| && endpoints[i] == r.endpoint;
      assert OfEndpoints(endpoints)[i] == r;
    }
  }

  lemma InFini(endpoints: seq<Endpoint>, r: Resource)
    requires r.OfEndpoint? ==> r.endpoint in endpoints
    ensures FinishIfSet(r) in FiniCode(endpoints)
  {
    InFinishOrder(endpoints);
    InFinishes(FinishOrder(endpoints));
  }

  // ----- Used is declared --------------------------------------------------------

  lemma ResourceDeclared(endpoints: seq<Endpoint>, r: Resource)
    requires r.OfEndpoint? ==> r.endpoint in endpoints
    ensures DeclaredName(endpoints, ResourceName(r)) && DeclaredName(endpoints, FlagName(r))
  {
    match r
    case Node =>
      assert Name(endpoints, NodeField) == "node" && Name(endpoints, NodeFlag) == "node_initialized";
    case Executor =>
      assert Name(endpoints, ExecutorField) == "executor" && Name(endpoints, ExecutorFlag) == "executor_initialized";
    case OfEndpoint(e) =>
      var i :| 0 <= i < |endpoints| && endpoints[i] == e;
      assert Name(endpoints, Member(i)) == ResourceName(r) && Name(endpoints, Flag(i)) == FlagName(r);
  }

  lemma MessageDeclared(endpoints: seq<Endpoint>, e: Endpoint)
    requires e in endpoints && e.kind == Subscription
    ensures DeclaredName(endpoints, EndpointName(Subscription, e.id, MESSAGE))
  {
    var i :| 0 <= i < |endpoints| && endpoints[i] == e;
    assert Name(endpoints, Message(i)) == EndpointName(Subscription, e.id, MESSAGE);
  }

  /** A statement that handles only resources of the deployment. */
  predicate Handles(endpoints: seq<Endpoint>, s: Statement) {
    match s
    case Create(r, _) => r.OfEndpoint? ==> r.endpoint in endpoints
    case SetFlag(r) => r.OfEndpoint? ==> r.endpoint in endpoints
    case FinishIfSet(r) => r.OfEndpoint? ==> r.endpoint in endpoints
    case AddSubscription(id) => Endpoint(Subscription, id) in endpoints
    case _ => true
  }

  lemma MentionsDeclared(endpoints: seq<Endpoint>, s: Statement, name: string)
    requires Handles(endpoints, s) && Mentions(endpoints, s, name)
    ensures DeclaredName(endpoints, name)
  {
    ResourceDeclared(endpoints, Node);
    ResourceDeclared(endpoints, Executor);
    match s
    case ClearContext =>
      if name != "node" && name != "executor" {
        var i :| 0 <= i < |endpoints| && name == ResourceName(OfEndpoint(endpoints[i]));
        ResourceDeclared(endpoints, OfEndpoint(endpoints[i]));
      }
    case Create(r, _) => ResourceDeclared(endpoints, r);
    case SetFlag(r) => ResourceDeclared(endpoints, r);
    case FinishIfSet(r) => ResourceDeclared(endpoints, r);
    case AddSubscription(id) =>
      ResourceDeclared(endpoints, OfEndpoint(Endpoint(Subscription, id)));
      MessageDeclared(endpoints, Endpoint(Subscription, id));
    case _ =>
  }

  lemma WiringHandles(endpoints: seq<Endpoint>, s: Statement)
    requires s in Wiring(Subscriptions(endpoints))
    ensures Handles(endpoints, s)
  {
    InSubscriptions(endpoints);
    InAdditions(Subscriptions(endpoints));
    if s.AddSubscription? {
      var e :| e in Subscriptions(endpoints) && e.id == s.id;
      assert e == Endpoint(Subscription, s.id);
    }
  }

  lemma CreationHandles(endpoints: seq<Endpoint>, capacity: nat, s: Statement)
    requires s in Blocks(CreationOrder(endpoints), capacity)
    ensures Handles(endpoints, s)
  {
    InOfEndpoints(endpoints);
    InBlocks(CreationOrder(endpoints), capacity);
  }

  lemma InitHandles(endpoints: seq<Endpoint>, s: Statement)
    requires s in InitCode(endpoints)
    ensures Handles(endpoints, s)
  {
    var subscriptions := Subscriptions(endpoints);
    if s in Wiring(subscriptions) {
      WiringHandles(endpoints, s);
    } else if s in Blocks(CreationOrder(endpoints), |subscriptions|) {
      CreationHandles(endpoints, |subscriptions|, s);
    }
  }

  lemma FiniHandles(endpoints: seq<Endpoint>, s: Statement)
    requires s in FiniCode(endpoints)
    ensures Handles(endpoints, s)
  {
    InFinishOrder(endpoints);
    InFinishes(FinishOrder(endpoints));
  }

  // ----- Declared is used --------------------------------------------------------

  lemma DeclaredUsed(endpoints: seq<Endpoint>, f: Field)
    requires Declared(endpoints, f)
    ensures Used(endpoints, Name(endpoints, f))
  {
    match f
    case NodeFlag => InFini(endpoints, Node); assert Mentions(endpoints, FinishIfSet(Node), Name(endpoints, f));
    case ExecutorFlag => InFini(endpoints, Executor); assert Mentions(endpoints, FinishIfSet(Executor), Name(endpoints, f));
    case Flag(i) =>
      InFini(endpoints, OfEndpoint(endpoints[i]));
      assert Mentions(endpoints, FinishIfSet(OfEndpoint(endpoints[i])), Name(endpoints, f));
    case Message(i) => MessageUsed(endpoints, i);
    case _ =>
      assert InitCode(endpoints)[1] == ClearContext;
      assert Mentions(endpoints, ClearContext, Name(endpoints, f));
  }

  lemma MessageUsed(endpoints: seq<Endpoint>, i: nat)
    requires i < |endpoints| && endpoints[i].kind == Subscription
    ensures Used(endpoints, Name(endpoints, Message(i)))
  {
    var s, subscriptions := AddSubscription(endpoints[i].id), Subscriptions(endpoints);
    InSubscriptions(endpoints);
    InAdditions(subscriptions);
    assert s in Wiring(subscriptions);
    assert s in InitCode(endpoints);
    assert Mentions(endpoints, s, Name(endpoints, Message(i)));
  }

  /** The members the generated code names are exactly those the generated header declares. */
  lemma UsesExactly(endpoints: seq<Endpoint>, name: string)
    ensures Used(endpoints, name) <==> DeclaredName(endpoints, name)
  {
    if Used(endpoints, name) {
      var s :| (s in InitCode(endpoints) || s in FiniCode(endpoints)) && Mentions(endpoints, s, name);
      if s in InitCode(endpoints) {
        InitHandles(endpoints, s);
      } else {
        FiniHandles(endpoints, s);
      }
      MentionsDeclared(endpoints, s, name);
    }
    if DeclaredName(endpoints, name) {
      var f :| Declared(endpoints, f) && Name(endpoints, f) == name;
      DeclaredUsed(endpoints, f);
    }
  }
}
