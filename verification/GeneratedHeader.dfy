/**
 The context structure the deployment compiler declares in its generated header: which
 members it has, how they are named, and exactly when those names are distinct.
 */
module GeneratedHeader {
  import opened Common
  import opened Deployment

  /** A member of the context structure; endpoints are named by their position. */
  datatype Field =
    | NodeField
    | Member(i: nat)
    | Message(i: nat)
    | ExecutorField
    | NodeFlag
    | Flag(i: nat)
    | ExecutorFlag

  function KindName(k: Kind): string {
    if k == Publisher then "publisher" else "subscription"
  }

  function EndpointName(k: Kind, id: string, suffix: string): string {
    KindName(k) + ("_" + (id + suffix))
  }

  const MESSAGE := "_message"
  const INITIALIZED := "_initialized"

  /** The members a deployment's structure has. */
  predicate Declared(endpoints: seq<Endpoint>, f: Field) {
    match f
    case Member(i) => i < |endpoints|
    case Message(i) => i < |endpoints| && endpoints[i].kind == Subscription
    case Flag(i) => i < |endpoints|
    case _ => true
  }

  function Name(endpoints: seq<Endpoint>, f: Field): string
    requires Declared(endpoints, f)
  {
    match f
    case NodeField => "node"
    case Member(i) => EndpointName(endpoints[i].kind, endpoints[i].id, "")
    case Message(i) => EndpointName(Subscription, endpoints[i].id, MESSAGE)
    case ExecutorField => "executor"
    case NodeFlag => "node_initialized"
    case Flag(i) => EndpointName(endpoints[i].kind, endpoints[i].id, INITIALIZED)
    case ExecutorFlag => "executor_initialized"
  }

  lemma PublisherSpelled(id: string, suffix: string)
    ensures EndpointName(Publisher, id, suffix) == "publisher_" + id + suffix
  {
    assert "publisher_" == "publisher" + "_";
  }

  lemma SubscriptionSpelled(id: string, suffix: string)
    ensures EndpointName(Subscription, id, suffix) == "subscription_" + id + suffix
  {
    assert "subscription_" == "subscription" + "_";
  }

  /** The names of an endpoint's members as the header spells them. */
  lemma NamesSpelled(endpoints: seq<Endpoint>, i: nat)
    requires i < |endpoints|
    ensures endpoints[i].kind == Publisher ==>
      && Name(endpoints, Member(i)) == "publisher_" + endpoints[i].id + ""
      && Name(endpoints, Flag(i)) == "publisher_" + endpoints[i].id + "_initialized"
    ensures endpoints[i].kind == Subscription ==>
      && Name(endpoints, Member(i)) == "subscription_" + endpoints[i].id + ""
      && Name(endpoints, Message(i)) == "subscription_" + endpoints[i].id + "_message"
      && Name(endpoints, Flag(i)) == "subscription_" + endpoints[i].id + "_initialized"
  {
    var id := endpoints[i].id;
    if endpoints[i].kind == Publisher {
      PublisherSpelled(id, "");
      PublisherSpelled(id, "_initialized");
    } else {
      SubscriptionSpelled(id, "");
      SubscriptionSpelled(id, "_message");
      SubscriptionSpelled(id, "_initialized");
    }
  }

  ghost predicate NoRepeats(fields: seq<Field>) {
    forall i, j :: 0 <= i < j < |fields| ==> fields[i] != fields[j]
  }

  lemma AppendNew(fields: seq<Field>, f: Field)
    requires NoRepeats(fields) && f !in fields
    ensures NoRepeats(fields + [f])
  {
  }

  /** The header declares every member, and none of them twice. */
  method GenerateHeader(endpoints: seq<Endpoint>) returns (fields: seq<Field>)
    ensures forall f :: f in fields <==> Declared(endpoints, f)
    ensures NoRepeats(fields)
  {
    fields := [NodeField];
    for i := 0 to |endpoints|
      invariant forall f :: f in fields <==>
        f == NodeField || (f.Member? && f.i < i) || (f.Message? && f.i < i && endpoints[f.i].kind == Subscription)
      invariant NoRepeats(fields)
    {
      AppendNew(fields, Member(i));
      fields := fields + [Member(i)];
      if endpoints[i].kind == Subscription {
        AppendNew(fields, Message(i));
        fields := fields + [Message(i)];
      }
    }
    AppendNew(fields, ExecutorField);
    fields := fields + [ExecutorField];
    AppendNew(fields, NodeFlag);
    fields := fields + [NodeFlag];
    for i := 0 to |endpoints|
      invariant forall f :: f in fields <==>
        f != ExecutorFlag && Declared(endpoints, f) && (f.Flag? ==> f.i < i)
      invariant NoRepeats(fields)
    {
      AppendNew(fields, Flag(i));
      fields := fields + [Flag(i)];
    }
    AppendNew(fields, ExecutorFlag);
    fields := fields + [ExecutorFlag];
  }

  // ----- Distinct names ----------------------------------------------------------

  ghost predicate NamesDistinct(endpoints: seq<Endpoint>) {
    forall f, g :: Declared(endpoints, f) && Declared(endpoints, g) && f != g ==>
      Name(endpoints, f) != Name(endpoints, g)
  }

  /** Endpoint `i`'s identifier with a suffix the compiler adds is endpoint `j`'s identifier. */
  predicate Clash(endpoints: seq<Endpoint>, i: nat, j: nat)
    requires i < |endpoints| && j < |endpoints|
  {
    && endpoints[i].kind == endpoints[j].kind
    && (|| endpoints[j].id == endpoints[i].id + INITIALIZED
        || (endpoints[i].kind == Subscription && endpoints[j].id == endpoints[i].id + MESSAGE))
  }

  ghost predicate SuffixFree(endpoints: seq<Endpoint>) {
    forall i: nat, j: nat :: i < |endpoints| && j < |endpoints| ==> !Clash(endpoints, i, j)
  }

  lemma CancelPrefix(p: string, a: string, b: string)
    ensures p + a == p + b <==> a == b
  {
    assert (p + a)[|p|..] == a && (p + b)[|p|..] == b;
  }

  lemma CancelSuffix(a: string, b: string, s: string)
    ensures a + s == b + s <==> a == b
  {
    if a + s == b + s {
      assert |a| == |b|;
      assert (a + s)[..|a|] == a && (b + s)[..|b|] == b;
    }
  }

  lemma EndpointNamesEqual(k: Kind, id: string, s: string, l: Kind, other: string, t: string)
    ensures EndpointName(k, id, s) == EndpointName(l, other, t) <==> k == l && id + s == other + t
  {
    if k != l {
      assert EndpointName(k, id, s)[0] == KindName(k)[0] != KindName(l)[0] == EndpointName(l, other, t)[0];
    } else {
      CancelPrefix(KindName(k), "_" + (id + s), "_" + (other + t));
      CancelPrefix("_", id + s, other + t);
    }
  }

  /** A message member and a flag never share a name: they end differently. */
  lemma MessageIsNotFlag(a: string, b: string)
    ensures a + MESSAGE != b + INITIALIZED
  {
    var x, y := a + MESSAGE, b + INITIALIZED;
    assert x[|x| - 1] == 'e' && y[|y| - 1] == 'd';
  }

  predicate OfAnEndpoint(f: Field) {
    f.Member? || f.Message? || f.Flag?
  }

  /** Members that do not belong to an endpoint begin with a letter no endpoint's does. */
  lemma FixedNames(endpoints: seq<Endpoint>, f: Field, g: Field)
    requires Declared(endpoints, f) && Declared(endpoints, g) && f != g && !OfAnEndpoint(f)
    ensures Name(endpoints, f) != Name(endpoints, g)
  {
    if OfAnEndpoint(g) {
      var k := if g.Message? then Subscription else endpoints[g.i].kind;
      assert Name(endpoints, g)[0] == KindName(k)[0];
      assert Name(endpoints, f)[0] == 'n' || Name(endpoints, f)[0] == 'e';
    } else {
      assert |"node"| == 4 && |"executor"| == 8 && |"node_initialized"| == 16 && |"executor_initialized"| == 20;
    }
  }

  lemma EndpointNames(endpoints: seq<Endpoint>, f: Field, g: Field)
    requires DistinctEndpoints(endpoints) && SuffixFree(endpoints)
    requires Declared(endpoints, f) && Declared(endpoints, g) && f != g && OfAnEndpoint(f) && OfAnEndpoint(g)
    ensures Name(endpoints, f) != Name(endpoints, g)
  {
    var e, d := endpoints[f.i], endpoints[g.i];
    var s := if f.Member? then "" else if f.Message? then MESSAGE else INITIALIZED;
    var t := if g.Member? then "" else if g.Message? then MESSAGE else INITIALIZED;
    EndpointNamesEqual(e.kind, e.id, s, d.kind, d.id, t);
    assert e.id + "" == e.id && d.id + "" == d.id;
    assert !Clash(endpoints, f.i, g.i) && !Clash(endpoints, g.i, f.i);
    if s == t {
      CancelSuffix(e.id, d.id, s);
    } else {
      MessageIsNotFlag(e.id, d.id);
      MessageIsNotFlag(d.id, e.id);
    }
  }

  /**
   For a deployment with distinct identifiers the generated members are distinctly named
   exactly when no identifier is another one of the same kind with a generated suffix.
   */
  lemma NamesDistinctExactly(endpoints: seq<Endpoint>)
    requires DistinctEndpoints(endpoints)
    ensures NamesDistinct(endpoints) <==> SuffixFree(endpoints)
  {
    if SuffixFree(endpoints) {
      forall f, g | Declared(endpoints, f) && Declared(endpoints, g) && f != g
        ensures Name(endpoints, f) != Name(endpoints, g)
      {
        if !OfAnEndpoint(f) {
          FixedNames(endpoints, f, g);
        } else if !OfAnEndpoint(g) {
          FixedNames(endpoints, g, f);
        } else {
          EndpointNames(endpoints, f, g);
        }
      }
    } else {
      var i: nat, j: nat :| i < |endpoints| && j < |endpoints| && Clash(endpoints, i, j);
      var e, d := endpoints[i], endpoints[j];
      assert d.id + "" == d.id;
      EndpointNamesEqual(e.kind, e.id, INITIALIZED, d.kind, d.id, "");
      EndpointNamesEqual(e.kind, e.id, MESSAGE, d.kind, d.id, "");
      assert Name(endpoints, Flag(i)) == Name(endpoints, Member(j))
          || Name(endpoints, Message(i)) == Name(endpoints, Member(j));
    }
  }

  function ExampleEndpoint(id: string): RawEndpoint {
    RawEndpoint(id, "publisher", "t", "p/msg/M", "fixed_startup", None, "reliable", "volatile", "keep_last", 1)
  }

  lemma ExampleTypeIsAccepted()
    ensures IsMessageType("p/msg/M")
  {
    var message := "p/msg/M";
    assert message[1..1 + |MSG|] == MSG && message[..1] == "p" && message[1 + |MSG|..] == "M";
  }

  lemma ExampleIsAccepted(id: string)
    requires IsLowerIdentifier(id)
    ensures WellFormed(ExampleEndpoint(id))
  {
    ExampleTypeIsAccepted();
  }

  lemma PairIsValid(a: RawEndpoint, b: RawEndpoint)
    requires WellFormed(a) && WellFormed(b) && a.id != b.id
    ensures Valid([a, b], 2)
  {
  }

  lemma PairClashes(a: Endpoint, b: Endpoint)
    requires a.kind == b.kind && b.id == a.id + INITIALIZED
    ensures !NamesDistinct([a, b])
  {
    assert Clash([a, b], 0, 1);
    assert |a.id| != |b.id|;
    NamesDistinctExactly([a, b]);
  }

  /** Validation does not rule the clash out: this accepted pair shares a member name. */
  lemma AcceptedClash()
    ensures var first, second := ExampleEndpoint("a"), ExampleEndpoint("a_initialized");
      Valid([first, second], 2) && !NamesDistinct([Parsed(first), Parsed(second)])
  {
    var first, second := ExampleEndpoint("a"), ExampleEndpoint("a_initialized");
    assert |"a"| != |"a_initialized"|;
    ExampleIsAccepted("a");
    ExampleIsAccepted("a_initialized");
    PairIsValid(first, second);
    assert "a_initialized" == "a" + INITIALIZED;
    PairClashes(Parsed(first), Parsed(second));
  }
}
