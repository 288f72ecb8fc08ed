/** The module-level state of build/discoverable.js and the public
    operations that read and change it: `registryPath` (lines 33, 186), the
    memo cache of `registryServices` (line 107, cleared at line 187) and the
    publishing session `publishInstance` (lines 35, 324-326, 364-365). What
    the library asks of the mDNS engine is recorded, call by call, in `log`. */
module Process {
  import opened Common
  import opened Registry
  import opened Resolver
  import opened Discovery
  import opened Publication

  /** A request made of the mDNS engine; each `bonjour()` instance has a number. */
  datatype MdnsCall =
    | CreateInstance(instance: nat)                      // `bonjour()`
    | Find(instance: nat, browse: Browse, timeout: int)  // `find(...)`, stopped after `timeout` ms
    | Publish(instance: nat, details: PublishDetails)    // `publish(details)`
    | UnpublishAll(instance: nat)
    | Destroy(instance: nat)

  /** The argument of `setRegistryPath`: `null`/`undefined`, a string, or any other value. */
  datatype PathArg = NullPath | StringPath(path: string) | NonStringPath

  /** The registry tree at `path`; a path that does not exist cannot be listed. */
  function RootAt(fs: map<string, Node>, path: string): Node
  {
    if path in fs then fs[path] else Unlistable
  }

  /** One `find` per browse, in order, on `instance`. */
  function FindCalls(instance: nat, browses: seq<Browse>, timeout: int): (r: seq<MdnsCall>)
    ensures |r| == |browses|
    ensures forall k :: 0 <= k < |browses| ==> r[k] == Find(instance, browses[k], timeout)
  {
    if browses == [] then []
    else
      var rest := FindCalls(instance, browses[1..], timeout);
      assert forall k :: 1 <= k < |browses| ==> browses[k] == browses[1..][k - 1];
      [Find(instance, browses[0], timeout)] + rest
  }

  /** One `publish` per published object, in order, on `instance`. */
  function PublishCalls(instance: nat, details: seq<PublishDetails>): (r: seq<MdnsCall>)
    ensures |r| == |details|
    ensures forall k :: 0 <= k < |details| ==> r[k] == Publish(instance, details[k])
  {
    if details == [] then []
    else
      var rest := PublishCalls(instance, details[1..]);
      assert forall k :: 1 <= k < |details| ==> details[k] == details[1..][k - 1];
      [Publish(instance, details[0])] + rest
  }

  /** The session the publishing calls go to: the open one, or the one created next. */
  function SessionId(session: Option<nat>, next: nat): nat
  {
    if session.Some? then session.value else next
  }

  /** What `publishServices` asks of the engine to publish `details`, given
      the session `session` it starts with: a session is created just before
      the first publication when none is open, and none when nothing is
      published (lines 324-326). */
  function PublishLog(session: Option<nat>, next: nat, details: seq<PublishDetails>): seq<MdnsCall>
  {
    if details == [] then []
    else (if session.None? then [CreateInstance(next)] else []) + PublishCalls(SessionId(session, next), details)
  }

  /** The session is created at most once, first, and only when something
      is published and no session is open; every publication goes to the
      same session. */
  lemma PublishLogShape(session: Option<nat>, next: nat, details: seq<PublishDetails>)
    ensures var calls := PublishLog(session, next, details);
            var created := session.None? && details != [];
            |calls| == |details| + (if created then 1 else 0)
            && (forall k :: 0 <= k < |calls| ==> (calls[k].CreateInstance? <==> created && k == 0))
            && (created ==> calls[0] == CreateInstance(next))
            && (forall k :: 0 <= k < |calls| && !calls[k].CreateInstance? ==>
                  calls[k].Publish? && calls[k].instance == SessionId(session, next))
  {
  }

  /** What publishing works on: the open session, the number of instances
      created, what is published and the calls made so far. */
  datatype Publisher = Publisher(session: Option<nat>, count: nat, published: seq<PublishDetails>, calls: seq<MdnsCall>)

  /** Publishing one object (lines 324-335): a session is created first
      when none is open. */
  function PublishOneStep(p: Publisher, d: PublishDetails): Publisher
  {
    var id := SessionId(p.session, p.count);
    Publisher(Some(id), if p.session.None? then p.count + 1 else p.count, p.published + [d],
              p.calls + (if p.session.None? then [CreateInstance(p.count)] else []) + [Publish(id, d)])
  }

  /** Publishing `details`, one after another. */
  function PublishSeq(p: Publisher, details: seq<PublishDetails>): Publisher
    decreases |details|
  {
    if details == [] then p
    else PublishOneStep(PublishSeq(p, details[..|details| - 1]), details[|details| - 1])
  }

  /** Publishing `details` from `p` opens a session only when none is open
      and something is published, and makes the calls `PublishLog` lists. */
  lemma {:induction false} PublishSeqClosed(p: Publisher, details: seq<PublishDetails>)
    ensures var starts := p.session.None? && details != [];
            PublishSeq(p, details) ==
              Publisher(if starts then Some(p.count) else p.session,
                        if starts then p.count + 1 else p.count,
                        p.published + details,
                        p.calls + PublishLog(p.session, p.count, details))
    decreases |details|
  {
    if details != [] {
      var init := details[..|details| - 1];
      var d := details[|details| - 1];
      assert details == init + [d];
      PublishSeqClosed(p, init);
      PublishLogSnoc(p.calls, p.session, p.count, init, d);
      assert (p.published + init) + [d] == p.published + details;
    }
  }

  lemma PublishLogSnoc(calls: seq<MdnsCall>, session: Option<nat>, next: nat, init: seq<PublishDetails>, d: PublishDetails)
    ensures calls + PublishLog(session, next, init + [d]) ==
      calls + PublishLog(session, next, init) + (if session.None? && init == [] then [CreateInstance(next)] else [])
      + [Publish(SessionId(session, next), d)]
  {
    var id := SessionId(session, next);
    assert PublishCalls(id, init + [d]) == PublishCalls(id, init) + [Publish(id, d)];
  }

  /** The body of the `forEach` at lines 320-336 for the object `items[i]`,
      up to the `publish` call: a throw, a skip, or the details to publish. */
  method DecideAt(items: seq<PublishEntry>, i: nat, catalog: seq<ServiceEntry>) returns (d: Result<Option<PublishDetails>>)
    requires i < |items|
    ensures d == Decisions(items, catalog)[i]
  {
    DecisionAt(items, catalog, i);
    var service := items[i];
    if service.NullEntry? {
      return Failure(PropertyOfNull);
    }
    if service.identifier.None? || service.name.None? {
      return Success(None);
    }
    var registeredService := FindValidService(service.identifier.value, catalog);
    if registeredService.None? {
      return Success(None);
    }
    var serviceDetails := DetermineServiceInfo(registeredService.value);
    if serviceDetails.Failure? {
      return Failure(serviceDetails.error);
    }
    var info := serviceDetails.value;
    if info.serviceType.None? || info.protocol.None? || service.port.None? {
      return Success(None);
    }
    var publishDetails := PublishDetails(service.name.value, service.port.value, info.serviceType.value,
                                         info.subtypes, info.protocol.value, None);
    if service.host.Some? {
      publishDetails := publishDetails.(host := service.host);
    }
    return Success(Some(publishDetails));
  }

  /** The `forEach` at lines 319-339 over a loaded catalog, on the
      publishing state `start`: each object that qualifies is published,
      and a throw stops the loop. */
  method PublishLoop(items: seq<PublishEntry>, catalog: seq<ServiceEntry>, start: Publisher)
    returns (state: Publisher, err: Option<Error>)
    ensures state == PublishSeq(start, PublishAll(items, catalog).published)
    ensures err == PublishAll(items, catalog).error
  {
    ghost var ds := Decisions(items, catalog);
    state := start;
    ghost var done: seq<PublishDetails> := [];
    err := None;
    var i := 0;
    assert ds[0..] == ds;
    while i < |items| && err.None?
      invariant 0 <= i <= |items|
      invariant err.None? ==>
                var rest := PublishAllOf(ds[i..]);
                PublishPlan(done + rest.published, rest.error) == PublishAllOf(ds)
      invariant err.Some? ==> PublishPlan(done, err) == PublishAllOf(ds)
      invariant state == PublishSeq(start, done)
    {
      var decision := DecideAt(items, i, catalog);
      assert ds[i..][0] == decision && ds[i..][1..] == ds[i + 1..];
      if decision.Failure? {
        err := Some(decision.error);
        assert done + [] == done;
      } else if decision.value.Some? {
        var details := decision.value.value;
        state := PublishOneStep(state, details);
        assert (done + [details])[..|done|] == done;
        done := done + [details];
      }
      i := i + 1;
    }
    assert err.None? ==> ds[i..] == [] && done + [] == done;
  }

  /** The library's module state. */
  class Discoverable {
    /** `__dirname + "/../services"` (lines 33, 181). */
    const defaultPath: string
    var registryPath: string
    /** The outcome `registryServices` memoised, failure included. */
    var cache: Option<Result<seq<ServiceEntry>>>
    var publishInstance: Option<nat>
    /** What the open session advertises. */
    var published: seq<PublishDetails>
    /** How many `bonjour()` instances were created so far. */
    var instances: nat
    var log: seq<MdnsCall>

    /** A session is open exactly while something is published through it. */
    ghost predicate Valid()
      reads this
    {
      (publishInstance.None? <==> published == [])
      && (publishInstance.Some? ==> publishInstance.value < instances)
    }

    /** The state when the module has just been loaded (lines 31-35). */
    constructor(defaultPath: string)
      ensures Valid()
      ensures this.defaultPath == defaultPath && registryPath == defaultPath
      ensures cache.None? && publishInstance.None? && published == [] && instances == 0 && log == []
    {
      this.defaultPath := defaultPath;
      registryPath := defaultPath;
      cache := None;
      publishInstance := None;
      published := [];
      instances := 0;
      log := [];
    }

    /** The catalog outcome the next `registryServices()` gives over `fs`. */
    function Loaded(fs: map<string, Node>): Result<seq<ServiceEntry>>
      reads this
    {
      if cache.Some? then cache.value else LoadRegistry(RootAt(fs, registryPath))
    }

    /** `setRegistryPath(path)` (lines 179-188). */
    method SetRegistryPath(path: PathArg) returns (err: Option<Error>)
      requires Valid()
      modifies this
      ensures Valid()
      ensures path.NonStringPath? ==> err == Some(PathNotString) && unchanged(this)
      ensures !path.NonStringPath? ==>
        err.None? && cache.None?
        && registryPath == (if path.NullPath? then defaultPath else path.path)
        && publishInstance == old(publishInstance) && published == old(published)
        && instances == old(instances) && log == old(log)
    {
      if path.NonStringPath? {
        return Some(PathNotString);
      }
      registryPath := if path.NullPath? then defaultPath else path.path;
      cache := None;
      err := None;
    }

    /** The memoised `registryServices()` (line 107): the first call walks
        the registry, later calls give the same outcome, a failure included,
        until `setRegistryPath` empties the cache. */
    method RegistryServices(fs: map<string, Node>) returns (r: Result<seq<ServiceEntry>>)
      requires Valid()
      modifies this
      ensures Valid()
      ensures r == old(Loaded(fs)) && cache == Some(r)
      ensures old(cache).Some? ==> r == old(cache).value
      ensures registryPath == old(registryPath) && publishInstance == old(publishInstance)
      ensures published == old(published) && instances == old(instances) && log == old(log)
    {
      if cache.Some? {
        return cache.value;
      }
      r := RetrieveServices(RootAt(fs, registryPath));
      cache := Some(r);
    }

    /** `enumerateServices()` (lines 208-210). */
    method EnumerateServices(fs: map<string, Node>) returns (r: Result<seq<ServiceEntry>>)
      requires Valid()
      modifies this
      ensures Valid()
      ensures r == old(Loaded(fs)) && cache == Some(r)
      ensures registryPath == old(registryPath) && publishInstance == old(publishInstance)
      ensures published == old(published) && instances == old(instances) && log == old(log)
    {
      r := RegistryServices(fs);
    }

    /** `findServices(services, timeout)` (lines 233-289). A rejected
        argument creates no mDNS instance and loads nothing; otherwise one
        instance is created, one `find` issued per planned browse, and the
        instance destroyed whatever the outcome. `answers[k]` is what the
        network delivers to browse `k` before its timeout. */
    method FindServices(services: ListArg<string>, timeout: TimeoutArg, interfaces: seq<seq<Address>>,
                        fs: map<string, Node>, answers: seq<seq<Record>>) returns (r: Result<seq<Found>>)
      requires Valid()
      modifies this
      ensures Valid()
      ensures var args := CheckFindArgs(services, timeout, HasValidInterfaces(interfaces));
              args.Failure? ==> r == Failure(args.error) && unchanged(this)
      ensures var args := CheckFindArgs(services, timeout, HasValidInterfaces(interfaces));
              args.Success? ==>
                var catalog := old(Loaded(fs));
                var id := old(instances);
                cache == Some(catalog) && instances == id + 1
                && registryPath == old(registryPath) && publishInstance == old(publishInstance)
                && published == old(published)
                && r == (if catalog.Failure? then Failure(catalog.error)
                         else FindResults(args.value.0, catalog.value, answers))
                && log == old(log) + [CreateInstance(id)]
                          + (if catalog.Failure? then []
                             else FindCalls(id, Plan(args.value.0, catalog.value).browses, args.value.1))
                          + [Destroy(id)]
    {
      var args := CheckFindArgs(services, timeout, HasValidInterfaces(interfaces));
      if args.Failure? {
        return Failure(args.error);
      }
      var ids, ms := args.value.0, args.value.1;
      var id := instances;
      instances := instances + 1;
      log := log + [CreateInstance(id)];
      var catalog := RegistryServices(fs);
      if catalog.Failure? {
        r := Failure(catalog.error);
      } else {
        var browses, error := PlanBrowses(ids, catalog.value);
        log := log + FindCalls(id, browses, ms);
        if error.Some? {
          r := Failure(error.value);
        } else {
          var found := Aggregate(Gathered(browses, answers));
          AggregateIsTagged(browses, answers);
          r := Success(found);
        }
      }
      log := log + [Destroy(id)];
    }

    /** `publishServices(services)` (lines 311-343): the array and interface
        checks, the catalog load, then each object in turn; the session is
        created on the first publication and reused. A throw stops the loop
        with what was published before it still published. */
    method PublishServices(services: ListArg<PublishEntry>, interfaces: seq<seq<Address>>, fs: map<string, Node>)
      returns (err: Option<Error>)
      requires Valid()
      modifies this
      ensures Valid()
      ensures services.NotAList? ==> err == Some(ServiceObjectsNotArray) && unchanged(this)
      ensures services.List? && !HasValidInterfaces(interfaces) ==> err == Some(NoUsableInterface) && unchanged(this)
      ensures services.List? && HasValidInterfaces(interfaces) ==>
        var catalog := old(Loaded(fs));
        cache == Some(catalog) && registryPath == old(registryPath)
        && (catalog.Failure? ==>
              err == Some(catalog.error) && publishInstance == old(publishInstance)
              && published == old(published) && instances == old(instances) && log == old(log))
        && (catalog.Success? ==>
              var plan := PublishAll(services.items, catalog.value);
              var starts := old(publishInstance).None? && plan.published != [];
              err == plan.error
              && published == old(published) + plan.published
              && publishInstance == (if starts then Some(old(instances)) else old(publishInstance))
              && instances == (if starts then old(instances) + 1 else old(instances))
              && log == old(log) + PublishLog(old(publishInstance), old(instances), plan.published))
    {
      if services.NotAList? {
        return Some(ServiceObjectsNotArray);
      }
      if !HasValidInterfaces(interfaces) {
        return Some(NoUsableInterface);
      }
      var catalog := RegistryServices(fs);
      if catalog.Failure? {
        return Some(catalog.error);
      }
      err := PublishEach(services.items, catalog.value);
    }

    /** The `forEach` at lines 319-339 over a loaded catalog. */
    method PublishEach(items: seq<PublishEntry>, catalog: seq<ServiceEntry>) returns (err: Option<Error>)
      requires Valid()
      modifies this
      ensures Valid()
      ensures var plan := PublishAll(items, catalog);
              var starts := old(publishInstance).None? && plan.published != [];
              err == plan.error
              && published == old(published) + plan.published
              && publishInstance == (if starts then Some(old(instances)) else old(publishInstance))
              && instances == (if starts then old(instances) + 1 else old(instances))
              && log == old(log) + PublishLog(old(publishInstance), old(instances), plan.published)
      ensures registryPath == old(registryPath) && cache == old(cache)
    {
      var start := Publisher(publishInstance, instances, published, log);
      var state;
      state, err := PublishLoop(items, catalog, start);
      PublishSeqClosed(start, PublishAll(items, catalog).published);
      publishInstance, instances, published, log := state.session, state.count, state.published, state.calls;
    }

    /** `unpublishServices()` (lines 359-368): nothing without a session;
        otherwise everything is unpublished and the session destroyed. */
    method UnpublishServices()
      requires Valid()
      modifies this
      ensures Valid()
      ensures old(publishInstance).None? ==> unchanged(this)
      ensures old(publishInstance).Some? ==>
        publishInstance.None? && published == []
        && log == old(log) + [UnpublishAll(old(publishInstance).value), Destroy(old(publishInstance).value)]
        && registryPath == old(registryPath) && cache == old(cache) && instances == old(instances)
    {
      if publishInstance.None? {
        return;
      }
      var id := publishInstance.value;
      log := log + [UnpublishAll(id)];
      log := log + [Destroy(id)];
      publishInstance := None;
      published := [];
    }
  }

  /** Unpublishing twice does what unpublishing once does. */
  method UnpublishTwice(d: Discoverable)
    requires d.Valid()
    modifies d
    ensures d.Valid() && d.publishInstance.None? && d.published == []
    ensures d.log == old(d.log) +
      (if old(d.publishInstance).Some?
       then [UnpublishAll(old(d.publishInstance).value), Destroy(old(d.publishInstance).value)]
       else [])
    ensures d.registryPath == old(d.registryPath) && d.cache == old(d.cache) && d.instances == old(d.instances)
  {
    d.UnpublishServices();
    d.UnpublishServices();
  }

  /** After `setRegistryPath(path)` the next load walks `path`, whatever
      the cache held before, a failed load included. */
  method LoadAfterSetPath(d: Discoverable, path: string, fs: map<string, Node>) returns (r: Result<seq<ServiceEntry>>)
    requires d.Valid()
    modifies d
    ensures r == LoadRegistry(RootAt(fs, path))
  {
    var err := d.SetRegistryPath(StringPath(path));
    r := d.EnumerateServices(fs);
  }

  /** Without `setRegistryPath` in between, two loads agree even when the
      file system changed under them: the first outcome is kept. */
  method LoadTwice(d: Discoverable, fs1: map<string, Node>, fs2: map<string, Node>)
    returns (r1: Result<seq<ServiceEntry>>, r2: Result<seq<ServiceEntry>>)
    requires d.Valid()
    modifies d
    ensures r1 == old(d.Loaded(fs1)) && r2 == r1
  {
    r1 := d.EnumerateServices(fs1);
    r2 := d.EnumerateServices(fs2);
  }
}
