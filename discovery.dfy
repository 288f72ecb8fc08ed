/** What `findServices` (build/discoverable.js:233-289) decides before and
    after it talks to the network: the argument checks, the interface check
    (`hasValidInterfaces`, lines 154-160), the plan of browses built from the
    caller's strings, and the flattening of what the browses collect. */
module Discovery {
  import opened Common
  import opened Registry
  import opened Resolver
  import opened Identifiers

  /** One address of a network interface, as `os.networkInterfaces()` lists it. */
  datatype Address = Address(internal: bool)

  /** `_.some(value, {internal: false})` over the addresses of one interface. */
  function AnyExternal(addresses: seq<Address>): (r: bool)
    ensures r <==> exists j :: 0 <= j < |addresses| && !addresses[j].internal
  {
    if addresses == [] then false
    else if !addresses[0].internal then true
    else
      var r := AnyExternal(addresses[1..]);
      assert r ==> exists j :: 1 <= j < |addresses| && !addresses[j].internal by {
        if r {
          var j :| 0 <= j < |addresses[1..]| && !addresses[1..][j].internal;
          assert addresses[j + 1] == addresses[1..][j];
        }
      }
      assert (exists j :: 0 <= j < |addresses| && !addresses[j].internal) ==> r by {
        if exists j :: 0 <= j < |addresses| && !addresses[j].internal {
          var j :| 0 <= j < |addresses| && !addresses[j].internal;
          assert addresses[1..][j - 1] == addresses[j];
        }
      }
      r
  }

  /** `hasValidInterfaces()` (lines 154-160): some interface has an address
      that is not internal (not loopback). */
  function HasValidInterfaces(interfaces: seq<seq<Address>>): (r: bool)
    ensures r <==> exists i, j :: 0 <= i < |interfaces| && 0 <= j < |interfaces[i]| && !interfaces[i][j].internal
  {
    if interfaces == [] then false
    else if AnyExternal(interfaces[0]) then true
    else
      var r := HasValidInterfaces(interfaces[1..]);
      assert r ==> exists i, j :: 1 <= i < |interfaces| && 0 <= j < |interfaces[i]| && !interfaces[i][j].internal by {
        if r {
          var i, j :| 0 <= i < |interfaces[1..]| && 0 <= j < |interfaces[1..][i]| && !interfaces[1..][i][j].internal;
          assert interfaces[i + 1] == interfaces[1..][i];
        }
      }
      assert (exists i, j :: 0 <= i < |interfaces| && 0 <= j < |interfaces[i]| && !interfaces[i][j].internal) ==> r by {
        if exists i, j :: 0 <= i < |interfaces| && 0 <= j < |interfaces[i]| && !interfaces[i][j].internal {
          var i, j :| 0 <= i < |interfaces| && 0 <= j < |interfaces[i]| && !interfaces[i][j].internal;
          assert interfaces[1..][i - 1] == interfaces[i];
        }
      }
      r
  }

  /** The `timeout` argument: omitted (`null`/`undefined`), a number, or any other value. */
  datatype TimeoutArg = TimeoutNull | TimeoutNumber(ms: int) | TimeoutOther

  /** The timeout used when none is given (line 236). */
  const DefaultTimeout: int := 2000

  /** The checks `findServices` makes before it creates an mDNS instance
      (lines 235-248), in their order: the timeout, then the array of
      strings, then the interfaces. Yields the strings and the timeout. */
  function CheckFindArgs(services: ListArg<string>, timeout: TimeoutArg, interfacesUp: bool): (r: Result<(seq<string>, int)>)
    ensures r.Success? <==> !timeout.TimeoutOther? && services.List? && interfacesUp
    ensures timeout.TimeoutOther? ==> r == Failure(TimeoutNotNumber)
    ensures !timeout.TimeoutOther? && services.NotAList? ==> r == Failure(ServiceNamesNotArray)
    ensures !timeout.TimeoutOther? && services.List? && !interfacesUp ==> r == Failure(NoUsableInterface)
    ensures r.Success? ==> r.value.0 == services.items
    ensures r.Success? && timeout.TimeoutNull? ==> r.value.1 == DefaultTimeout
    ensures r.Success? && timeout.TimeoutNumber? ==> r.value.1 == timeout.ms
  {
    if timeout.TimeoutOther? then Failure(TimeoutNotNumber)
    else if services.NotAList? then Failure(ServiceNamesNotArray)
    else if !interfacesUp then Failure(NoUsableInterface)
    else Success((services.items, if timeout.TimeoutNull? then DefaultTimeout else timeout.ms))
  }

  /** One `findInstance.find({type, subtypes, protocol}, …)` call, with the
      identifier its results are tagged with (`createBrowser`, lines 250-265). */
  datatype Browse = Browse(service: string, subtypes: seq<string>, serviceType: string, protocol: string)

  /** The browse started for a resolved entry, when its type and protocol are
      both defined (lines 273-276). */
  function BrowseFor(entry: ServiceEntry, info: ServiceInfo): seq<Browse>
  {
    if info.serviceType.Some? && info.protocol.Some? then
      [Browse(entry.service, info.subtypes, info.serviceType.value, info.protocol.value)]
    else []
  }

  /** The browses started by the `forEach` at lines 270-278, and the error
      that stopped it, if any: browses started before a throw stay started. */
  datatype BrowsePlan = BrowsePlan(browses: seq<Browse>, error: Option<Error>)

  /** `p` after the browses `done` were started. */
  function After(done: seq<Browse>, p: BrowsePlan): BrowsePlan
  {
    BrowsePlan(done + p.browses, p.error)
  }

  lemma AfterAfter(done: seq<Browse>, started: seq<Browse>, p: BrowsePlan)
    ensures After(done, After(started, p)) == After(done + started, p)
  {
    assert done + (started + p.browses) == (done + started) + p.browses;
  }

  /** What the `forEach` body does with one string: nothing when it
      resolves to no entry, a throw when the entry's identifier does not
      match the pattern, otherwise the browses it starts. */
  datatype Step = Skip | Stop(error: Error) | Start(started: seq<Browse>)

  function StepFor(id: string, catalog: seq<ServiceEntry>): (r: Step)
    ensures r.Skip? <==> FindValidService(id, catalog).None?
    ensures r.Stop? ==> r.error == NoMatch(FindValidService(id, catalog).value.service)
    ensures r.Start? ==>
      DetermineServiceInfo(FindValidService(id, catalog).value).Success?
      && r.started == [BrowseOf(FindValidService(id, catalog).value)]
  {
    match FindValidService(id, catalog)
    case None => Skip
    case Some(entry) =>
      match DetermineServiceInfo(entry)
      case Failure(err) => Stop(err)
      case Success(info) => Start(BrowseFor(entry, info))
  }

  /** The step taken for each string, in order. */
  function Steps(ids: seq<string>, catalog: seq<ServiceEntry>): (r: seq<Step>)
    ensures |r| == |ids|
    ensures forall s :: s in r ==> (s.Stop? ==> s.error.NoMatch?) && (s.Start? ==> |s.started| == 1)
  {
    if ids == [] then [] else [StepFor(ids[0], catalog)] + Steps(ids[1..], catalog)
  }

  lemma {:induction false} StepAt(ids: seq<string>, catalog: seq<ServiceEntry>, i: nat)
    requires i < |ids|
    ensures Steps(ids, catalog)[i] == StepFor(ids[i], catalog)
  {
    if i > 0 {
      StepAt(ids[1..], catalog, i - 1);
    }
  }

  lemma {:induction false} StepsAppend(a: seq<string>, b: seq<string>, catalog: seq<ServiceEntry>)
    ensures Steps(a + b, catalog) == Steps(a, catalog) + Steps(b, catalog)
  {
    if a == [] {
      assert a + b == b;
    } else {
      assert (a + b)[0] == a[0] && (a + b)[1..] == a[1..] + b;
      StepsAppend(a[1..], b, catalog);
    }
  }

  /** The browses a run of steps starts, up to the first throw. */
  function PlanOf(steps: seq<Step>): (r: BrowsePlan)
    ensures r.error.Some? ==> Stop(r.error.value) in steps
    ensures (forall s :: s in steps && s.Start? ==> |s.started| == 1) ==> |r.browses| <= |steps|
  {
    if steps == [] then BrowsePlan([], None)
    else
      match steps[0]
      case Skip => PlanOf(steps[1..])
      case Stop(err) => BrowsePlan([], Some(err))
      case Start(started) => After(started, PlanOf(steps[1..]))
  }

  /** The browses the `forEach` at lines 270-278 starts and the error that
      stops it: at most one browse per string, and the only possible throw
      is a registered identifier the pattern rejects. */
  function Plan(ids: seq<string>, catalog: seq<ServiceEntry>): (r: BrowsePlan)
    ensures |r.browses| <= |ids|
    ensures r.error.Some? ==> r.error.value.NoMatch?
  {
    PlanOf(Steps(ids, catalog))
  }

  /** The catalog entries the caller's strings resolve to, in request order;
      strings that resolve to nothing are dropped. */
  function Resolved(ids: seq<string>, catalog: seq<ServiceEntry>): (r: seq<ServiceEntry>)
    ensures |r| <= |ids|
    ensures forall e :: e in r ==> e in catalog
  {
    if ids == [] then []
    else
      match FindValidService(ids[0], catalog)
      case None => Resolved(ids[1..], catalog)
      case Some(entry) => [entry] + Resolved(ids[1..], catalog)
  }

  /** The browse a parsed entry gets: tagged with the entry's own
      identifier, not the caller's string. */
  function BrowseOf(entry: ServiceEntry): Browse
    requires DetermineServiceInfo(entry).Success?
  {
    var info := DetermineServiceInfo(entry).value;
    Browse(entry.service, info.subtypes, info.serviceType.value, info.protocol.value)
  }

  /** The plan over entries that have already been resolved. */
  function PlanEntries(entries: seq<ServiceEntry>): BrowsePlan
  {
    if entries == [] then BrowsePlan([], None)
    else
      match DetermineServiceInfo(entries[0])
      case Failure(err) => BrowsePlan([], Some(err))
      case Success(info) => After(BrowseFor(entries[0], info), PlanEntries(entries[1..]))
  }

  /** Strings that resolve to nothing are dropped without error. */
  lemma {:induction false} PlanIsOverResolved(ids: seq<string>, catalog: seq<ServiceEntry>)
    ensures Plan(ids, catalog) == PlanEntries(Resolved(ids, catalog))
  {
    if ids != [] {
      PlanIsOverResolved(ids[1..], catalog);
      var steps := Steps(ids, catalog);
      assert steps[0] == StepFor(ids[0], catalog) && steps[1..] == Steps(ids[1..], catalog);
      match FindValidService(ids[0], catalog)
      case None =>
      case Some(entry) =>
        var rtail := Resolved(ids[1..], catalog);
        assert Resolved(ids, catalog) == [entry] + rtail;
        assert ([entry] + rtail)[0] == entry && ([entry] + rtail)[1..] == rtail;
    }
  }

  /** One step of the plan over resolved entries. */
  lemma PlanEntriesCons(entries: seq<ServiceEntry>)
    requires entries != []
    ensures DetermineServiceInfo(entries[0]).Failure? ==>
              PlanEntries(entries) == BrowsePlan([], Some(NoMatch(entries[0].service)))
    ensures DetermineServiceInfo(entries[0]).Success? ==>
              PlanEntries(entries) == After([BrowseOf(entries[0])], PlanEntries(entries[1..]))
  {
  }

  /** The position of the first entry whose identifier does not parse,
      or the number of entries when all of them parse. */
  function FirstUnparsed(entries: seq<ServiceEntry>): (n: nat)
    ensures n <= |entries|
    ensures forall k :: 0 <= k < n ==> DetermineServiceInfo(entries[k]).Success?
    ensures n < |entries| ==> DetermineServiceInfo(entries[n]).Failure?
  {
    if entries == [] || DetermineServiceInfo(entries[0]).Failure? then 0
    else
      var n := FirstUnparsed(entries[1..]);
      assert forall k :: 1 <= k < n + 1 ==> entries[k] == entries[1..][k - 1];
      n + 1
  }

  /** The plan over resolved entries stops at the first entry whose
      identifier does not parse, raising for it, and raises nothing when
      there is none; before it, each entry gets exactly one browse, in
      order, tagged with the entry's identifier. */
  lemma {:induction false} PlanEntriesBrowses(entries: seq<ServiceEntry>)
    ensures var p := PlanEntries(entries);
            var n := FirstUnparsed(entries);
            p.error == (if n < |entries| then Some(NoMatch(entries[n].service)) else None)
            && |p.browses| == n
            && forall k :: 0 <= k < n ==> p.browses[k] == BrowseOf(entries[k])
  {
    if entries != [] {
      var tail := entries[1..];
      PlanEntriesCons(entries);
      if DetermineServiceInfo(entries[0]).Failure? {
        assert FirstUnparsed(entries) == 0;
      } else {
        PlanEntriesBrowses(tail);
        var p := PlanEntries(entries);
        var q := PlanEntries(tail);
        var n := FirstUnparsed(tail);
        assert FirstUnparsed(entries) == n + 1;
        assert p.error == q.error;
        assert n < |tail| ==> entries[n + 1] == tail[n];
        assert forall k :: 1 <= k < n + 1 ==> entries[k] == tail[k - 1] && p.browses[k] == q.browses[k - 1];
      }
    }
  }

  /** Requests add up: the plan for `a + b` is the plan for `a`, followed,
      when `a` raised nothing, by the plan for `b`. */
  lemma {:induction false} PlanAppend(a: seq<string>, b: seq<string>, catalog: seq<ServiceEntry>)
    ensures Plan(a + b, catalog) ==
      (if Plan(a, catalog).error.Some? then Plan(a, catalog) else After(Plan(a, catalog).browses, Plan(b, catalog)))
  {
    StepsAppend(a, b, catalog);
    PlanOfAppend(Steps(a, catalog), Steps(b, catalog));
  }

  lemma {:induction false} PlanOfAppend(a: seq<Step>, b: seq<Step>)
    ensures PlanOf(a + b) == (if PlanOf(a).error.Some? then PlanOf(a) else After(PlanOf(a).browses, PlanOf(b)))
  {
    if a == [] {
      assert a + b == b;
    } else {
      assert (a + b)[0] == a[0] && (a + b)[1..] == a[1..] + b;
      PlanOfAppend(a[1..], b);
      match a[0]
      case Skip =>
      case Stop(err) =>
      case Start(started) =>
        assert started + (PlanOf(a[1..]).browses + PlanOf(b).browses)
          == (started + PlanOf(a[1..]).browses) + PlanOf(b).browses;
    }
  }

  /** `findServices` over `[]` starts nothing and raises nothing. */
  lemma EmptyRequest(catalog: seq<ServiceEntry>)
    ensures Plan([], catalog) == BrowsePlan([], None)
  {
  }

  /** The body of the `forEach` at lines 271-277 for the string `ids[i]`. */
  method Decide(ids: seq<string>, i: nat, catalog: seq<ServiceEntry>) returns (step: Step)
    requires i < |ids|
    ensures step == Steps(ids, catalog)[i]
  {
    StepAt(ids, catalog, i);
    var registered := FindValidService(ids[i], catalog);
    if registered.None? {
      return Skip;
    }
    var details := DetermineServiceInfo(registered.value);
    if details.Failure? {
      return Stop(details.error);
    }
    return Start(BrowseFor(registered.value, details.value));
  }

  /** The `forEach` at lines 270-278, pushing onto `serviceBrowsers`. */
  method PlanBrowses(ids: seq<string>, catalog: seq<ServiceEntry>) returns (browses: seq<Browse>, error: Option<Error>)
    ensures BrowsePlan(browses, error) == Plan(ids, catalog)
  {
    ghost var steps := Steps(ids, catalog);
    browses := [];
    error := None;
    var i := 0;
    assert steps[0..] == steps;
    while i < |ids|
      invariant 0 <= i <= |ids|
      invariant After(browses, PlanOf(steps[i..])) == PlanOf(steps)
    {
      var step := Decide(ids, i, catalog);
      var rest := PlanOf(steps[i + 1..]);
      assert steps[i..][0] == step && steps[i..][1..] == steps[i + 1..];
      if step.Stop? {
        return browses, Some(step.error);
      } else if step.Start? {
        AfterAfter(browses, step.started, rest);
        browses := browses + step.started;
      }
      i := i + 1;
    }
    assert steps[i..] == [] && browses + [] == browses;
  }

  /** A service record a browser reports (bonjour's service object). */
  datatype Record = Record(name: string, host: string, port: int)

  /** A record after the callback at lines 257-260 set its `service` field. */
  datatype Found = Found(record: Record, service: string)

  /** `foundServices` of one browser: every record it reported, in order,
      tagged with the browse's identifier. A slot holds `None` for a `null`
      result (the filter at lines 281-283 looks for those). */
  function Collect(browse: Browse, records: seq<Record>): (r: seq<Option<Found>>)
    ensures |r| == |records|
    ensures forall j :: 0 <= j < |r| ==> r[j] == Some(Found(records[j], browse.service))
  {
    if records == [] then []
    else [Some(Found(records[0], browse.service))] + Collect(browse, records[1..])
  }

  /** The records that reached browse `k` before its timeout; the network is
      an input, and a browse with no list given received nothing. */
  function Answer(answers: seq<seq<Record>>, k: nat): seq<Record>
  {
    if k < |answers| then answers[k] else []
  }

  /** What `Promise.all(serviceBrowsers)` resolves to: one list per browse. */
  function Gathered(browses: seq<Browse>, answers: seq<seq<Record>>): seq<seq<Option<Found>>>
  {
    if browses == [] then []
    else [Collect(browses[0], Answer(answers, 0))] + Gathered(browses[1..], if answers == [] then [] else answers[1..])
  }

  /** `_.flatten`, one level deep. */
  function Flatten<T>(lists: seq<seq<T>>): (r: seq<T>)
    ensures forall k, x :: 0 <= k < |lists| && x in lists[k] ==> x in r
  {
    if lists == [] then [] else lists[0] + Flatten(lists[1..])
  }

  /** The list with `null` entries taken out, the rest in order. */
  function NonNull(entries: seq<Option<Found>>): (r: seq<Found>)
    ensures |r| <= |entries|
  {
    if entries == [] then []
    else (if entries[0].Some? then [entries[0].value] else []) + NonNull(entries[1..])
  }

  lemma {:induction false} NonNullAppend(a: seq<Option<Found>>, b: seq<Option<Found>>)
    ensures NonNull(a + b) == NonNull(a) + NonNull(b)
  {
    if a == [] {
      assert a + b == b;
    } else {
      var h := if a[0].Some? then [a[0].value] else [];
      assert (a + b)[0] == a[0] && (a + b)[1..] == a[1..] + b;
      assert NonNull(a + b) == h + NonNull(a[1..] + b);
      NonNullAppend(a[1..], b);
      assert h + (NonNull(a[1..]) + NonNull(b)) == (h + NonNull(a[1..])) + NonNull(b);
    }
  }

  /** `_.remove` takes out exactly the `null` entries. */
  lemma {:induction false} NonNullMembers(entries: seq<Option<Found>>, x: Found)
    ensures x in NonNull(entries) <==> Some(x) in entries
  {
    if entries != [] {
      NonNullMembers(entries[1..], x);
      assert entries == [entries[0]] + entries[1..];
    }
  }

  /** Lines 280-284: `_.flatten`, then `_.remove` of the `null` entries. */
  method Aggregate(gathered: seq<seq<Option<Found>>>) returns (services: seq<Found>)
    ensures services == NonNull(Flatten(gathered))
  {
    var flat := Flatten(gathered);
    services := [];
    var i := 0;
    while i < |flat|
      invariant 0 <= i <= |flat|
      invariant services + NonNull(flat[i..]) == NonNull(flat)
    {
      assert flat[i..] == [flat[i]] + flat[i + 1..];
      NonNullAppend([flat[i]], flat[i + 1..]);
      if flat[i].Some? {
        services := services + [flat[i].value];
      }
      i := i + 1;
    }
    assert flat[i..] == [];
  }

  /** Every record each browse received, tagged with that browse's
      identifier, browse after browse. */
  function Tagged(browses: seq<Browse>, answers: seq<seq<Record>>): seq<Found>
  {
    if browses == [] then []
    else
      seq(|Answer(answers, 0)|, j requires 0 <= j < |Answer(answers, 0)| => Found(Answer(answers, 0)[j], browses[0].service))
      + Tagged(browses[1..], if answers == [] then [] else answers[1..])
  }

  lemma {:induction false} CollectHasNoNull(browse: Browse, records: seq<Record>)
    ensures NonNull(Collect(browse, records)) ==
      seq(|records|, j requires 0 <= j < |records| => Found(records[j], browse.service))
  {
    if records != [] {
      CollectHasNoNull(browse, records[1..]);
      NonNullAppend([Some(Found(records[0], browse.service))], Collect(browse, records[1..]));
    }
  }

  /** The callback never pushes `null`, so the filter removes nothing: the
      result is every record received, each tagged with its browse's
      identifier, in browse order. */
  lemma {:induction false} AggregateIsTagged(browses: seq<Browse>, answers: seq<seq<Record>>)
    ensures NonNull(Flatten(Gathered(browses, answers))) == Tagged(browses, answers)
  {
    if browses != [] {
      var rest := if answers == [] then [] else answers[1..];
      AggregateIsTagged(browses[1..], rest);
      CollectHasNoNull(browses[0], Answer(answers, 0));
      NonNullAppend(Collect(browses[0], Answer(answers, 0)), Flatten(Gathered(browses[1..], rest)));
    }
  }

  /** Every result carries the identifier of the browse that found it and is
      a record that browse received. */
  lemma {:induction false} TaggedMembers(browses: seq<Browse>, answers: seq<seq<Record>>, f: Found)
    requires f in Tagged(browses, answers)
    ensures exists k :: 0 <= k < |browses| && f.service == browses[k].service && f.record in Answer(answers, k)
  {
    var rest := if answers == [] then [] else answers[1..];
    var head := seq(|Answer(answers, 0)|, j requires 0 <= j < |Answer(answers, 0)| => Found(Answer(answers, 0)[j], browses[0].service));
    if f in head {
      var j :| 0 <= j < |head| && head[j] == f;
      assert f.record == Answer(answers, 0)[j];
    } else {
      TaggedMembers(browses[1..], rest, f);
      var k :| 0 <= k < |browses[1..]| && f.service == browses[1..][k].service && f.record in Answer(rest, k);
      assert Answer(rest, k) == Answer(answers, k + 1);
    }
  }

  /** The number of results is the number of records received by the browses. */
  function Received(browses: seq<Browse>, answers: seq<seq<Record>>): nat
  {
    if browses == [] then 0 else |Answer(answers, 0)| + Received(browses[1..], if answers == [] then [] else answers[1..])
  }

  lemma {:induction false} TaggedCount(browses: seq<Browse>, answers: seq<seq<Record>>)
    ensures |Tagged(browses, answers)| == Received(browses, answers)
  {
    if browses != [] {
      TaggedCount(browses[1..], if answers == [] then [] else answers[1..]);
    }
  }

  /** What the promise of `findServices` settles to once the catalog is
      loaded and the browses have timed out: the plan's error, or every
      record found, tagged. */
  function FindResults(ids: seq<string>, catalog: seq<ServiceEntry>, answers: seq<seq<Record>>): Result<seq<Found>>
  {
    var p := Plan(ids, catalog);
    if p.error.Some? then Failure(p.error.value) else Success(Tagged(p.browses, answers))
  }

  /** Every result of `findServices` is tagged with the identifier of a
      catalog entry one of the caller's strings resolved to (lines 258,
      275), never with the caller's string itself unless the two coincide. */
  lemma ResultsCarryCanonicalService(ids: seq<string>, catalog: seq<ServiceEntry>, answers: seq<seq<Record>>, f: Found)
    requires FindResults(ids, catalog, answers).Success? && f in FindResults(ids, catalog, answers).value
    ensures exists e :: e in Resolved(ids, catalog) && f.service == e.service
  {
    var p := Plan(ids, catalog);
    PlanIsOverResolved(ids, catalog);
    PlanEntriesBrowses(Resolved(ids, catalog));
    TaggedMembers(p.browses, answers, f);
    var k :| 0 <= k < |p.browses| && f.service == p.browses[k].service && f.record in Answer(answers, k);
    assert Resolved(ids, catalog)[k] in Resolved(ids, catalog);
  }

  /** With a registry whose directory names are plain, every resolved
      string gets its browse and `findServices` raises nothing after the
      load. */
  lemma PlainRegistryPlansEveryResolved(root: Node, ids: seq<string>)
    requires PlainTree(root) && LoadRegistry(root).Success?
    ensures var catalog := LoadRegistry(root).value;
            Plan(ids, catalog).error.None?
            && |Plan(ids, catalog).browses| == |Resolved(ids, catalog)|
  {
    var catalog := LoadRegistry(root).value;
    var res := Resolved(ids, catalog);
    PlanIsOverResolved(ids, catalog);
    PlanEntriesBrowses(res);
    forall k | 0 <= k < |res| ensures DetermineServiceInfo(res[k]).Success? {
      assert res[k] in catalog;
      var j :| 0 <= j < |catalog| && catalog[j] == res[k];
      PlainRegistryParses(root, j);
    }
  }
}
