/** What `publishServices` (build/discoverable.js:311-343) does with each
    caller-supplied service object: which are advertised, and with what. */
module Publication {
  import opened Common
  import opened Registry
  import opened Resolver
  import opened Identifiers

  /** An element of the caller's array: a service object (`publishOptions`,
      lib/declarations.d.ts:2-7) whose every field may be missing, or
      `null`/`undefined`, on which reading `identifier` throws. */
  datatype PublishEntry =
    | PublishEntry(identifier: Option<string>, name: Option<string>, host: Option<string>, port: Option<int>)
    | NullEntry

  /** The `publishDetails` object handed to `publishInstance.publish` (lines 327-336). */
  datatype PublishDetails = PublishDetails(
    name: string, port: int, serviceType: string, subtypes: seq<string>, protocol: string, host: Option<string>)

  /** The `forEach` body at lines 319-339 for one object: `Failure` when
      reading `service.identifier` or `determineServiceInfo` throws,
      `Success(None)` when the object is skipped, `Success(Some(d))` when
      `d` is published. The only throws are the `null` element and the
      registered identifier the pattern rejects. */
  function PublishDecision(entry: PublishEntry, catalog: seq<ServiceEntry>): (r: Result<Option<PublishDetails>>)
    ensures entry.NullEntry? ==> r == Failure(PropertyOfNull)
    ensures r.Failure? && entry.PublishEntry? ==>
      entry.identifier.Some? && FindValidService(entry.identifier.value, catalog).Some?
      && r.error == NoMatch(FindValidService(entry.identifier.value, catalog).value.service)
  {
    if entry.NullEntry? then Failure(PropertyOfNull)
    else if entry.identifier.None? || entry.name.None? then Success(None)
    else
      match FindValidService(entry.identifier.value, catalog)
      case None => Success(None)
      case Some(registered) =>
        match DetermineServiceInfo(registered)
        case Failure(err) => Failure(err)
        case Success(info) =>
          if info.serviceType.Some? && info.protocol.Some? && entry.port.Some? then
            Success(Some(PublishDetails(entry.name.value, entry.port.value, info.serviceType.value,
                                        info.subtypes, info.protocol.value, entry.host)))
          else Success(None)
  }

  /** An object is published exactly when it is not `null`, its identifier,
      name and port are present, its identifier resolves and the registered
      identifier parses; it then advertises under the caller's name, port and host (the host
      only when given) and with the type, protocol and subtypes of the
      registered identifier, which reassemble into that identifier. */
  lemma PublishedExactly(entry: PublishEntry, catalog: seq<ServiceEntry>)
    ensures var d := PublishDecision(entry, catalog);
            (d.Success? && d.value.Some?) <==>
              (entry.PublishEntry? && entry.identifier.Some? && entry.name.Some? && entry.port.Some?
               && FindValidService(entry.identifier.value, catalog).Some?
               && DetermineServiceInfo(FindValidService(entry.identifier.value, catalog).value).Success?)
    ensures var d := PublishDecision(entry, catalog);
            d.Success? && d.value.Some? ==>
              var registered := FindValidService(entry.identifier.value, catalog).value;
              var details := d.value.value;
              registered in catalog
              && Matches(registered, entry.identifier.value)
              && details.name == entry.name.value && details.port == entry.port.value
              && details.host == entry.host
              && |details.subtypes| <= 1
              && Assemble(Groups(if details.subtypes == [] then None else Some(details.subtypes[0]),
                                 details.serviceType, details.protocol)) == registered.service
  {
    var d := PublishDecision(entry, catalog);
    if d.Success? && d.value.Some? {
      var registered := FindValidService(entry.identifier.value, catalog).value;
      MatchReassembles(registered.service);
    }
  }

  /** The objects published by the `forEach`, and the error that stopped it. */
  datatype PublishPlan = PublishPlan(published: seq<PublishDetails>, error: Option<Error>)

  /** The decision for each object, in order. */
  function Decisions(entries: seq<PublishEntry>, catalog: seq<ServiceEntry>): (r: seq<Result<Option<PublishDetails>>>)
    ensures |r| == |entries|
    ensures forall d :: d in r && d.Failure? ==> d.error == PropertyOfNull || d.error.NoMatch?
  {
    if entries == [] then [] else [PublishDecision(entries[0], catalog)] + Decisions(entries[1..], catalog)
  }

  lemma {:induction false} DecisionAt(entries: seq<PublishEntry>, catalog: seq<ServiceEntry>, i: nat)
    requires i < |entries|
    ensures Decisions(entries, catalog)[i] == PublishDecision(entries[i], catalog)
  {
    if i > 0 {
      DecisionAt(entries[1..], catalog, i - 1);
    }
  }

  /** The published objects and the stopping error for a run of decisions. */
  function PublishAllOf(decisions: seq<Result<Option<PublishDetails>>>): (r: PublishPlan)
    ensures r.error.Some? ==> Failure(r.error.value) in decisions
  {
    if decisions == [] then PublishPlan([], None)
    else
      match decisions[0]
      case Failure(err) => PublishPlan([], Some(err))
      case Success(None) => PublishAllOf(decisions[1..])
      case Success(Some(d)) =>
        var rest := PublishAllOf(decisions[1..]);
        PublishPlan([d] + rest.published, rest.error)
  }

  /** The `forEach` over every object: what it publishes and the throw
      that stops it, which is a `null` element or an identifier the
      pattern rejects. */
  function PublishAll(entries: seq<PublishEntry>, catalog: seq<ServiceEntry>): (r: PublishPlan)
    ensures r.error.Some? ==> r.error.value == PropertyOfNull || r.error.value.NoMatch?
  {
    PublishAllOf(Decisions(entries, catalog))
  }

  /** The objects are handled one after another: publishing `a + b` is
      publishing `a`, then, when `a` raised nothing, publishing `b`. */
  lemma {:induction false} PublishAllAppend(a: seq<PublishEntry>, b: seq<PublishEntry>, catalog: seq<ServiceEntry>)
    ensures var pa := PublishAll(a, catalog);
            PublishAll(a + b, catalog) ==
              (if pa.error.Some? then pa
               else PublishPlan(pa.published + PublishAll(b, catalog).published, PublishAll(b, catalog).error))
  {
    if a == [] {
      assert a + b == b;
    } else {
      assert (a + b)[0] == a[0];
      assert (a + b)[1..] == a[1..] + b;
      PublishAllAppend(a[1..], b, catalog);
      match PublishDecision(a[0], catalog)
      case Failure(err) =>
      case Success(None) =>
      case Success(Some(d)) =>
        var pa := PublishAll(a[1..], catalog);
        var pb := PublishAll(b, catalog);
        assert [d] + (pa.published + pb.published) == ([d] + pa.published) + pb.published;
    }
  }

  /** Every published object is the decision for one of the entries, and
      there are never more published objects than entries. */
  lemma {:induction false} PublishAllFromEntries(entries: seq<PublishEntry>, catalog: seq<ServiceEntry>)
    ensures |PublishAll(entries, catalog).published| <= |entries|
    ensures forall d :: d in PublishAll(entries, catalog).published ==>
      exists k :: 0 <= k < |entries| && PublishDecision(entries[k], catalog) == Success(Some(d))
  {
    if entries != [] {
      PublishAllFromEntries(entries[1..], catalog);
      forall d | d in PublishAll(entries, catalog).published
        ensures exists k :: 0 <= k < |entries| && PublishDecision(entries[k], catalog) == Success(Some(d))
      {
        if PublishDecision(entries[0], catalog) != Success(Some(d)) {
          assert d in PublishAll(entries[1..], catalog).published;
          var k :| 0 <= k < |entries[1..]| && PublishDecision(entries[1..][k], catalog) == Success(Some(d));
          assert entries[k + 1] == entries[1..][k];
        }
      }
    }
  }
}
