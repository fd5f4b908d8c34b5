/** The dependency-injection container: a recursive resolver with a singleton cache. */
module Container {
  import opened Digraphs
  import opened Orders

  datatype Service<!T> = Service(factory: seq<T> -> T, dependencies: seq<string>, singleton: bool)

  type Services<!T> = map<string, Service<T>>

  /** One run of a factory. */
  datatype Build<!T> = Build(name: string, service: Service<T>, args: seq<T>, instance: T)

  datatype Resolution<T> = Found(instance: T) | Circular | NotRegistered

  /** The names that resolving a name asks for: none when it is cached. */
  ghost function Needs<T>(services: Services<T>, cached: set<string>): Graph<string> {
    map n | n in services && n !in cached :: Elements(services[n].dependencies)
  }

  ghost predicate Known<T>(services: Services<T>, cached: set<string>, n: string) {
    n in cached || n in services
  }

  /** Some name asked for on the way is neither cached nor registered. */
  ghost predicate HasGap<T(!new)>(services: Services<T>, cached: set<string>, name: string) {
    exists n :: Reaches(Needs(services, cached), name, n) && !Known(services, cached, n)
  }

  /** Some dependency cycle is run into on the way. */
  ghost predicate HasCycle<T(!new)>(services: Services<T>, cached: set<string>, name: string) {
    exists c: seq<string> :: IsClosedWalk(Needs(services, cached), c) && Reaches(Needs(services, cached), name, c[0])
  }

  /** Everything asked for, not looking behind cached singletons, is registered and acyclic. */
  ghost predicate Resolvable<T(!new)>(services: Services<T>, cached: set<string>, name: string) {
    !HasGap(services, cached, name) && !HasCycle(services, cached, name)
  }

  /** A bigger cache asks for less. */
  lemma CachePrunes<T(!new)>(services: Services<T>, c0: set<string>, c1: set<string>, w: seq<string>)
    requires c0 <= c1 && IsWalk(Needs(services, c1), w)
    ensures IsWalk(Needs(services, c0), w)
  {
    forall i | 0 <= i < |w| - 1 ensures EdgeAt(Needs(services, c0), w, i) {
      assert EdgeAt(Needs(services, c1), w, i);
    }
  }

  /** A walk that meets no newly cached name before its end is still there. */
  lemma WalkSurvives<T(!new)>(services: Services<T>, c0: set<string>, c1: set<string>, w: seq<string>)
    requires c0 <= c1 && IsWalk(Needs(services, c0), w)
    requires forall i | 0 <= i < |w| - 1 :: w[i] !in c1 - c0
    ensures IsWalk(Needs(services, c1), w)
  {
    forall i | 0 <= i < |w| - 1 ensures EdgeAt(Needs(services, c1), w, i) {
      assert EdgeAt(Needs(services, c0), w, i);
    }
  }

  ghost predicate AllResolvable<T(!new)>(services: Services<T>, cached: set<string>, names: set<string>) {
    forall n | n in names :: Resolvable(services, cached, n)
  }

  /** Caching resolvable names does not make anything else resolvable. */
  lemma CacheIsHonest<T(!new)>(services: Services<T>, c0: set<string>, c1: set<string>, name: string)
    requires c0 <= c1 && AllResolvable(services, c0, c1 - c0) && Resolvable(services, c1, name)
    ensures Resolvable(services, c0, name)
  {
    hide Resolvable, HasGap, HasCycle, Reaches, Needs;
    NoGapBehind(services, c0, c1, name);
    NoCycleBehind(services, c0, c1, name);
    ResolvableIff(services, c0, name);
  }

  lemma ResolvableIff<T(!new)>(services: Services<T>, cached: set<string>, name: string)
    ensures Resolvable(services, cached, name) <==> !HasGap(services, cached, name) && !HasCycle(services, cached, name)
  {
  }

  lemma GapFrom<T(!new)>(services: Services<T>, cached: set<string>, name: string, n: string)
    requires Reaches(Needs(services, cached), name, n) && !Known(services, cached, n)
    ensures HasGap(services, cached, name)
  {
  }

  lemma CycleFrom<T(!new)>(services: Services<T>, cached: set<string>, name: string, c: seq<string>)
    requires IsClosedWalk(Needs(services, cached), c) && Reaches(Needs(services, cached), name, c[0])
    ensures HasCycle(services, cached, name)
  {
  }

  /** The walk that leads to a gap. */
  lemma GapWalk<T(!new)>(services: Services<T>, cached: set<string>, name: string) returns (w: seq<string>)
    requires HasGap(services, cached, name)
    ensures IsWalk(Needs(services, cached), w) && |w| > 0 && w[0] == name && !Known(services, cached, w[|w| - 1])
  {
    var n :| Reaches(Needs(services, cached), name, n) && !Known(services, cached, n);
    w := ReachingWalk(Needs(services, cached), name, n);
  }

  /** The cycle that is run into, and the walk that leads there. */
  lemma CycleWalk<T(!new)>(services: Services<T>, cached: set<string>, name: string)
    returns (w: seq<string>, c: seq<string>)
    requires HasCycle(services, cached, name)
    ensures IsClosedWalk(Needs(services, cached), c)
    ensures IsWalk(Needs(services, cached), w) && |w| > 0 && w[0] == name && w[|w| - 1] == c[0]
  {
    c :| IsClosedWalk(Needs(services, cached), c) && Reaches(Needs(services, cached), name, c[0]);
    w := ReachingWalk(Needs(services, cached), name, c[0]);
  }

  lemma NoGapBehind<T(!new)>(services: Services<T>, c0: set<string>, c1: set<string>, name: string)
    requires c0 <= c1 && AllResolvable(services, c0, c1 - c0) && Resolvable(services, c1, name)
    ensures !HasGap(services, c0, name)
  {
    hide Needs, HasGap, HasCycle, IsWalk, Reaches;
    if HasGap(services, c0, name) {
      var w := GapWalk(services, c0, name);
      if i :| 0 <= i < |w| && w[i] in c1 - c0 {
        WalkReaches(Needs(services, c0), w, i, |w| - 1);
        GapFrom(services, c0, w[i], w[|w| - 1]);
      } else {
        WalkSurvives(services, c0, c1, w);
        WalkReaches(Needs(services, c1), w, 0, |w| - 1);
        GapFrom(services, c1, name, w[|w| - 1]);
      }
    }
  }

  lemma NoCycleBehind<T(!new)>(services: Services<T>, c0: set<string>, c1: set<string>, name: string)
    requires c0 <= c1 && AllResolvable(services, c0, c1 - c0) && Resolvable(services, c1, name)
    ensures !HasCycle(services, c0, name)
  {
    hide Needs, HasGap, HasCycle, IsWalk, Reaches;
    var g0, g1 := Needs(services, c0), Needs(services, c1);
    if HasCycle(services, c0, name) {
      var w, c := CycleWalk(services, c0, name);
      if i :| 0 <= i < |w| && w[i] in c1 - c0 {
        WalkReaches(g0, w, i, |w| - 1);
        CycleFrom(services, c0, w[i], c);
      } else if i :| 0 <= i < |c| && c[i] in c1 - c0 {
        WalkReaches(g0, c, i, |c| - 1);
        CycleFrom(services, c0, c[i], c);
      } else {
        WalkSurvives(services, c0, c1, w);
        WalkSurvives(services, c0, c1, c);
        WalkReaches(g1, w, 0, |w| - 1);
        CycleFrom(services, c1, name, c);
      }
    }
  }

  lemma ReachingWalk(g: Graph<string>, u: string, v: string) returns (w: seq<string>)
    requires Reaches(g, u, v)
    ensures WalkFromTo(g, u, v, w) && |w| > 0
  {
    w :| WalkFromTo(g, u, v, w);
  }

  /** A registered name all of whose dependencies are resolvable is resolvable. */
  lemma DependenciesSuffice<T(!new)>(services: Services<T>, cached: set<string>, name: string)
    requires name in services && name !in cached
    requires forall k | 0 <= k < |services[name].dependencies| ::
      Resolvable(services, cached, services[name].dependencies[k])
    ensures Resolvable(services, cached, name)
  {
    hide Needs, HasGap, HasCycle, IsWalk, Reaches;
    var g := Needs(services, cached);
    if HasGap(services, cached, name) {
      var w := GapWalk(services, cached, name);
      if |w| > 1 {
        var k := FirstStep(services, cached, name, w);
        WalkReaches(g, w, 1, |w| - 1);
        GapFrom(services, cached, services[name].dependencies[k], w[|w| - 1]);
      }
    }
    if HasCycle(services, cached, name) {
      var w, c := CycleWalk(services, cached, name);
      if |w| > 1 {
        var k := FirstStep(services, cached, name, w);
        WalkReaches(g, w, 1, |w| - 1);
        CycleFrom(services, cached, services[name].dependencies[k], c);
      } else {
        var k := FirstStep(services, cached, name, c);
        WalkReaches(g, c, 1, |c| - 1);
        CycleFrom(services, cached, services[name].dependencies[k], c);
      }
    }
  }

  lemma FirstStep<T(!new)>(services: Services<T>, cached: set<string>, name: string, w: seq<string>) returns (k: nat)
    requires IsWalk(Needs(services, cached), w) && |w| > 1 && w[0] == name
    ensures name in services && k < |services[name].dependencies| && services[name].dependencies[k] == w[1]
  {
    assert EdgeAt(Needs(services, cached), w, 0);
    k :| 0 <= k < |services[name].dependencies| && services[name].dependencies[k] == w[1];
  }

  /** A fault behind a dependency, seen with a bigger cache, is a fault behind the name. */
  lemma FaultSpreads<T(!new)>(services: Services<T>, c0: set<string>, c1: set<string>, name: string, dep: string)
    requires c0 <= c1 && dep in Succ(Needs(services, c0), name)
    ensures HasGap(services, c1, dep) ==> HasGap(services, c0, name)
    ensures HasCycle(services, c1, dep) ==> HasCycle(services, c0, name)
  {
    hide Needs, IsWalk, Reaches;
    var g0, g1 := Needs(services, c0), Needs(services, c1);
    ReachesStep(g0, name, dep);
    if HasGap(services, c1, dep) {
      var n :| Reaches(g1, dep, n) && !Known(services, c1, n);
      var w := ReachingWalk(g1, dep, n);
      CachePrunes(services, c0, c1, w);
      WalkReaches(g0, w, 0, |w| - 1);
      ReachesTransitive(g0, name, dep, n);
    }
    if HasCycle(services, c1, dep) {
      var c: seq<string> :| IsClosedWalk(g1, c) && Reaches(g1, dep, c[0]);
      var w := ReachingWalk(g1, dep, c[0]);
      CachePrunes(services, c0, c1, w);
      CachePrunes(services, c0, c1, c);
      WalkReaches(g0, w, 0, |w| - 1);
      ReachesTransitive(g0, name, dep, c[0]);
      assert IsClosedWalk(g0, c);
    }
  }

  // ----- The chain of names being resolved

  /** `chain` is a walk of distinct, registered, uncached names that leads to `name`. */
  ghost predicate ChainOk<T>(services: Services<T>, cached: set<string>, chain: seq<string>, name: string) {
    && NoDuplicates(chain)
    && (forall i | 0 <= i < |chain| :: chain[i] in services && chain[i] !in cached)
    && IsWalk(Needs(services, cached), chain + [name])
  }

  /** A name met again on its own chain closes a cycle. */
  lemma ChainCloses<T(!new)>(services: Services<T>, cached: set<string>, chain: seq<string>, name: string)
    requires ChainOk(services, cached, chain, name) && name in chain
    ensures HasCycle(services, cached, name)
  {
    hide Needs;
    var i :| 0 <= i < |chain| && chain[i] == name;
    var w := chain + [name];
    SubWalk(Needs(services, cached), w, i, |w|);
    ReachesRefl(Needs(services, cached), name);
    assert IsClosedWalk(Needs(services, cached), w[i..|w|]);
  }

  lemma ChainExtends<T(!new)>(services: Services<T>, c0: set<string>, c1: set<string>, chain: seq<string>,
                              name: string, dep: string)
    requires ChainOk(services, c0, chain, name) && name in services && name !in c0 && name !in chain
    requires c0 <= c1 && (forall n | n in c1 - c0 :: n !in chain + [name])
    requires dep in services[name].dependencies
    ensures ChainOk(services, c1, chain + [name], dep)
  {
    var w := chain + [name];
    WalkSnoc(Needs(services, c0), w, dep);
    forall i | 0 <= i < |w + [dep]| - 1 ensures (w + [dep])[i] !in c1 - c0 { assert (w + [dep])[i] == w[i]; }
    WalkSurvives(services, c0, c1, w + [dep]);
    forall i | 0 <= i < |w| ensures w[i] in services && w[i] !in c1 { assert w[i] in w; }
  }

  // ----- The build log

  /** Factories ran after the factories of their dependencies, on exactly what those produced. */
  ghost predicate ArgumentsBuilt<T(!new)>(log: seq<Build<T>>, i: int)
    requires 0 <= i < |log|
  {
    && |log[i].args| == |log[i].service.dependencies|
    && log[i].instance == log[i].service.factory(log[i].args)
    && forall k | 0 <= k < |log[i].args| :: BuiltBefore(log, i, log[i].service.dependencies[k], log[i].args[k])
  }

  ghost predicate BuiltBefore<T(!new)>(log: seq<Build<T>>, i: int, name: string, instance: T)
    requires 0 <= i <= |log|
  {
    exists j :: 0 <= j < i && log[j].name == name && log[j].instance == instance
  }

  ghost predicate SingletonBuilt<T(!new)>(log: seq<Build<T>>, name: string, instance: T) {
    exists j :: 0 <= j < |log| && log[j].name == name && log[j].instance == instance && log[j].service.singleton
  }

  /** The cache holds exactly what the singleton builds produced, and a cached name
      is never built again. */
  ghost predicate CacheMatchesLog<T(!new)>(log: seq<Build<T>>, singletons: map<string, T>) {
    && (forall n | n in singletons :: SingletonBuilt(log, n, singletons[n]))
    && (forall i | 0 <= i < |log| && log[i].service.singleton ::
          log[i].name in singletons && singletons[log[i].name] == log[i].instance)
    && (forall i, j | 0 <= i < j < |log| && log[i].service.singleton :: log[j].name != log[i].name)
  }

  ghost predicate LogOk<T(!new)>(log: seq<Build<T>>, singletons: map<string, T>) {
    && (forall i | 0 <= i < |log| :: ArgumentsBuilt(log, i))
    && CacheMatchesLog(log, singletons)
  }

  ghost predicate Extends<T(!new)>(a: map<string, T>, b: map<string, T>) {
    forall n | n in a :: n in b && b[n] == a[n]
  }

  lemma BuiltLater<T(!new)>(log: seq<Build<T>>, more: seq<Build<T>>, i: int, j: int, name: string, instance: T)
    requires 0 <= i <= |log| && log <= more && i <= j <= |more| && BuiltBefore(log, i, name, instance)
    ensures BuiltBefore(more, j, name, instance)
  {
    var k :| 0 <= k < i && log[k].name == name && log[k].instance == instance;
    assert more[k] == log[k];
  }

  /** A factory run, and the caching of its result when it is a singleton. */
  lemma LogStep<T(!new)>(log: seq<Build<T>>, singletons: map<string, T>, b: Build<T>)
    requires LogOk(log, singletons) && b.name !in singletons
    requires |b.args| == |b.service.dependencies| && b.instance == b.service.factory(b.args)
    requires forall k | 0 <= k < |b.args| :: BuiltBefore(log, |log|, b.service.dependencies[k], b.args[k])
    ensures LogOk(log + [b], if b.service.singleton then singletons[b.name := b.instance] else singletons)
    ensures BuiltBefore(log + [b], |log| + 1, b.name, b.instance)
  {
    var log' := log + [b];
    assert log'[|log|] == b;
    forall i | 0 <= i < |log'| ensures ArgumentsBuilt(log', i) {
      if i < |log| { assert ArgumentsBuilt(log, i); }
      forall k | 0 <= k < |log'[i].args|
        ensures BuiltBefore(log', i, log'[i].service.dependencies[k], log'[i].args[k])
      {
        if i < |log| {
          assert ArgumentsBuilt(log, i);
          BuiltLater(log, log', i, i, log[i].service.dependencies[k], log[i].args[k]);
        } else {
          BuiltLater(log, log', |log|, |log|, b.service.dependencies[k], b.args[k]);
        }
      }
    }
    var singletons' := if b.service.singleton then singletons[b.name := b.instance] else singletons;
    forall n | n in singletons' ensures SingletonBuilt(log', n, singletons'[n]) {
      if n in singletons && n != b.name {
        var j :| 0 <= j < |log| && log[j].name == n && log[j].instance == singletons[n] && log[j].service.singleton;
        assert log'[j] == log[j];
      }
    }
  }

  // ----- What one resolve adds to the log

  /** Everything built is built by the service registered under its name, and was not cached. */
  ghost predicate BuiltByServices<T(!new)>(services: Services<T>, cached: set<string>, log0: seq<Build<T>>,
                                           log: seq<Build<T>>)
  {
    forall j | |log0| <= j < |log| ::
      log[j].name in services && log[j].service == services[log[j].name] && log[j].name !in cached
  }

  /** Only what is registered as a singleton gets into the cache. */
  ghost predicate OnlySingletons<T(!new)>(services: Services<T>, names: set<string>) {
    forall n | n in names :: n in services && services[n].singleton
  }

  /** Cache and log only grow: the cache by resolvable singletons, the log by registered services. */
  ghost predicate Grows<T(!new)>(services: Services<T>, cache0: map<string, T>, log0: seq<Build<T>>,
                                 cache: map<string, T>, log: seq<Build<T>>)
  {
    && Extends(cache0, cache) && log0 <= log
    && AllResolvable(services, cache0.Keys, cache.Keys - cache0.Keys)
    && OnlySingletons(services, cache.Keys - cache0.Keys)
    && BuiltByServices(services, cache0.Keys, log0, log)
  }

  lemma GrowsMeans<T(!new)>(services: Services<T>, cache0: map<string, T>, log0: seq<Build<T>>,
                            cache: map<string, T>, log: seq<Build<T>>)
    requires Grows(services, cache0, log0, cache, log)
    ensures Extends(cache0, cache) && cache0.Keys <= cache.Keys && log0 <= log
    ensures AllResolvable(services, cache0.Keys, cache.Keys - cache0.Keys)
    ensures OnlySingletons(services, cache.Keys - cache0.Keys)
  {
    hide AllResolvable;
  }

  lemma StaysSame<T(!new)>(services: Services<T>, cache: map<string, T>, log: seq<Build<T>>)
    ensures Grows(services, cache, log, cache, log)
  {
    hide Resolvable;
  }

  lemma GrowsOn<T(!new)>(services: Services<T>, cache0: map<string, T>, log0: seq<Build<T>>, cache1: map<string, T>,
                         log1: seq<Build<T>>, cache2: map<string, T>, log2: seq<Build<T>>)
    requires Grows(services, cache0, log0, cache1, log1) && Grows(services, cache1, log1, cache2, log2)
    ensures Grows(services, cache0, log0, cache2, log2)
  {
    hide Resolvable, AllResolvable;
    CacheChain(services, cache0.Keys, cache1.Keys, cache2.Keys);
    forall j | |log0| <= j < |log2|
      ensures log2[j].name in services && log2[j].service == services[log2[j].name] && log2[j].name !in cache0
    {
      if j < |log1| { assert log2[j] == log1[j]; }
    }
  }

  /** The run of a factory, after everything it asks for has been resolved. */
  lemma GrowsByBuild<T(!new)>(services: Services<T>, cache0: map<string, T>, log0: seq<Build<T>>,
                              cache: map<string, T>, log: seq<Build<T>>, b: Build<T>)
    requires Grows(services, cache0, log0, cache, log)
    requires b.name in services && b.service == services[b.name] && b.name !in cache
    requires Resolvable(services, cache0.Keys, b.name)
    ensures Grows(services, cache0, log0, if b.service.singleton then cache[b.name := b.instance] else cache, log + [b])
  {
    hide Resolvable;
  }

  /** What is not cached is built by the registered service, as the last step. */
  ghost predicate BuiltLast<T(!new)>(services: Services<T>, log0: seq<Build<T>>, log: seq<Build<T>>, name: string,
                                     instance: T)
  {
    && |log0| < |log| && log0 <= log && name in services
    && var b := log[|log| - 1]; b.name == name && b.service == services[name] && b.instance == instance
  }

  /** How often the log builds `n`. */
  ghost function Builds<T(!new)>(log: seq<Build<T>>, n: string): nat {
    if log == [] then 0 else Builds(log[..|log| - 1], n) + (if log[|log| - 1].name == n then 1 else 0)
  }

  /** How often the services that the log builds ask for `n`. */
  ghost function Asks<T(!new)>(log: seq<Build<T>>, n: string): nat {
    if log == [] then 0 else
      Asks(log[..|log| - 1], n) + multiset(log[|log| - 1].service.dependencies)[n]
  }

  /** A service that is no singleton is built once for each place that asks for it. */
  ghost predicate BuiltForEachAsker<T(!new)>(services: Services<T>, cached: set<string>, log0: seq<Build<T>>,
                                             log: seq<Build<T>>, asked: seq<string>)
  {
    forall n | n in services && !services[n].singleton && n !in cached ::
      Builds(log, n) - Builds(log0, n) == multiset(asked)[n] + Asks(log, n) - Asks(log0, n)
  }

  lemma NothingAsked<T(!new)>(services: Services<T>, cached: set<string>, log: seq<Build<T>>, asked: seq<string>)
    requires forall k | 0 <= k < |asked| :: asked[k] in cached
    ensures BuiltForEachAsker(services, cached, log, log, asked)
  {
    forall n | n !in cached ensures multiset(asked)[n] == 0 { assert n !in asked; }
  }

  lemma OneMoreAsked<T(!new)>(services: Services<T>, c0: set<string>, c1: set<string>, log0: seq<Build<T>>,
                              log1: seq<Build<T>>, log2: seq<Build<T>>, asked: seq<string>, dep: string)
    requires OnlySingletons(services, c1 - c0)
    requires BuiltForEachAsker(services, c0, log0, log1, asked) && BuiltForEachAsker(services, c1, log1, log2, [dep])
    ensures BuiltForEachAsker(services, c0, log0, log2, asked + [dep])
  {
    hide Builds, Asks;
    forall n ensures multiset(asked + [dep])[n] == multiset(asked)[n] + multiset([dep])[n] { }
  }

  lemma TakeOneMore(q: seq<string>, k: nat)
    requires k < |q|
    ensures q[..k + 1] == q[..k] + [q[k]]
  {
  }

  lemma LastAsked<T(!new)>(services: Services<T>, cached: set<string>, log0: seq<Build<T>>, log: seq<Build<T>>,
                           b: Build<T>)
    requires BuiltForEachAsker(services, cached, log0, log, b.service.dependencies)
    ensures BuiltForEachAsker(services, cached, log0, log + [b], [b.name])
  {
    assert (log + [b])[..|log|] == log;
  }

  // ----- The class

  class DependencyInjectionContainer<T(!new)> {
    var services: Services<T>
    var singletons: map<string, T>
    ghost var log: seq<Build<T>>

    ghost predicate Valid()
      reads this
    {
      LogOk(log, singletons)
    }

    constructor ()
      ensures Valid() && services == map[] && singletons == map[] && log == []
    {
      services := map[];
      singletons := map[];
      log := [];
    }

    method Register(name: string, factory: seq<T> -> T, dependencies: seq<string>)
      requires Valid()
      modifies this`services
      ensures Valid() && services == old(services)[name := Service(factory, dependencies, false)]
    {
      services := services[name := Service(factory, dependencies, false)];
    }

    method RegisterSingleton(name: string, factory: seq<T> -> T, dependencies: seq<string>)
      requires Valid()
      modifies this`services
      ensures Valid() && services == old(services)[name := Service(factory, dependencies, true)]
    {
      services := services[name := Service(factory, dependencies, true)];
    }

    /** `clear`: a new life with a new log. */
    method Clear()
      modifies this
      ensures Valid() && services == map[] && singletons == map[] && log == []
    {
      services := map[];
      singletons := map[];
      log := [];
    }

    /** `resolve`: succeeds exactly when everything asked for is registered and
        acyclic; the cache only ever grows by resolvable singletons, and what is not cached
        is built anew. */
    method Resolve(name: string) returns (r: Resolution<T>)
      requires Valid()
      modifies this`singletons, this`log
      ensures Valid() && Extends(old(singletons), singletons) && old(log) <= log
      ensures r.Found? <==> Resolvable(services, old(singletons.Keys), name)
      ensures r.Circular? ==> HasCycle(services, old(singletons.Keys), name)
      ensures r.NotRegistered? ==> HasGap(services, old(singletons.Keys), name)
      ensures r.Found? ==> BuiltBefore(log, |log|, name, r.instance)
      ensures r.Found? && name in old(singletons) ==> r.instance == old(singletons)[name] && log == old(log)
      ensures r.Found? && name !in old(singletons) ==> BuiltLast(services, old(log), log, name, r.instance)
      ensures r.Found? && name in services && services[name].singleton ==>
        name in singletons && singletons[name] == r.instance
      ensures AllResolvable(services, old(singletons.Keys), singletons.Keys - old(singletons.Keys))
      ensures OnlySingletons(services, singletons.Keys - old(singletons.Keys))
      ensures BuiltByServices(services, old(singletons.Keys), old(log), log)
      ensures r.Found? ==> BuiltForEachAsker(services, old(singletons.Keys), old(log), log, [name])
    {
      hide LogOk, HasGap, HasCycle;
      assert IsWalk(Needs(services, singletons.Keys), [] + [name]);
      r := ResolveInternal(name, []);
    }

    method ResolveInternal(name: string, chain: seq<string>) returns (r: Resolution<T>)
      requires Valid() && ChainOk(services, singletons.Keys, chain, name)
      modifies this`singletons, this`log
      ensures Valid() && Grows(services, old(singletons), old(log), singletons, log)
      ensures r.Found? ==> Resolvable(services, old(singletons.Keys), name)
      ensures r.Circular? ==> HasCycle(services, old(singletons.Keys), name)
      ensures r.NotRegistered? ==> HasGap(services, old(singletons.Keys), name)
      ensures r.Found? ==> BuiltBefore(log, |log|, name, r.instance)
      ensures r.Found? && name in old(singletons) ==> r.instance == old(singletons)[name] && log == old(log)
      ensures r.Found? && name !in old(singletons) ==> BuiltLast(services, old(log), log, name, r.instance)
      ensures r.Found? && name in services && services[name].singleton ==>
        name in singletons && singletons[name] == r.instance
      ensures r.Found? ==> BuiltForEachAsker(services, old(singletons.Keys), old(log), log, [name])
      ensures forall n | n in singletons.Keys - old(singletons.Keys) :: n !in chain
      decreases services.Keys - Elements(chain)
    {
      hide LogOk, HasGap, HasCycle, ChainOk, BuiltBefore, Resolvable, BuiltForEachAsker, Builds, Asks, Grows;
      ghost var c0, cache0, log0 := singletons.Keys, singletons, log;
      StaysSame(services, singletons, log);
      if name in chain {
        ChainCloses(services, c0, chain, name);
        return Circular;
      }
      if name in singletons {
        CachedIsResolvable(services, c0, name);
        CachedWasBuilt(log, singletons, name);
        NothingAsked(services, c0, log, [name]);
        return Found(singletons[name]);
      }
      if name !in services {
        UnknownIsGap(services, c0, name);
        return NotRegistered;
      }
      var service := services[name];
      var nextChain := chain + [name];
      assert forall x :: x in nextChain <==> x in chain || x == name;
      var resolved: seq<T> := [];
      ChainRoom(services, c0, chain, name);
      NothingAsked(services, c0, log, []);
      for k := 0 to |service.dependencies|
        invariant Valid() && Grows(services, cache0, log0, singletons, log)
        invariant BuiltForEachAsker(services, c0, log0, log, service.dependencies[..k])
        invariant forall n | n in singletons.Keys - c0 :: n !in nextChain
        invariant |resolved| == k
        invariant forall j | 0 <= j < k :: Resolvable(services, c0, service.dependencies[j])
        invariant forall j | 0 <= j < k :: BuiltBefore(log, |log|, service.dependencies[j], resolved[j])
      {
        var dep := service.dependencies[k];
        ghost var c1, cache1, log1 := singletons.Keys, singletons, log;
        GrowsMeans(services, cache0, log0, cache1, log1);
        ChainExtends(services, c0, c1, chain, name, dep);
        r := ResolveInternal(dep, nextChain);
        FaultSpreads(services, c0, c1, name, dep);
        GrowsMeans(services, cache1, log1, singletons, log);
        GrowsOn(services, cache0, log0, cache1, log1, singletons, log);
        if !r.Found? { return; }
        CacheIsHonest(services, c0, c1, dep);
        StillBuilt(log1, log, service.dependencies[..k], resolved);
        OneMoreAsked(services, c0, c1, log0, log1, log, service.dependencies[..k], dep);
        TakeOneMore(service.dependencies, k);
        resolved := resolved + [r.instance];
      }
      assert service.dependencies[..|service.dependencies|] == service.dependencies;
      DependenciesSuffice(services, c0, name);
      var instance := service.factory(resolved);
      ghost var b := Build(name, service, resolved, instance);
      GrowsMeans(services, cache0, log0, singletons, log);
      LogStep(log, singletons, b);
      GrowsByBuild(services, cache0, log0, singletons, log, b);
      LastAsked(services, c0, log0, log, b);
      log := log + [b];
      if service.singleton {
        singletons := singletons[name := instance];
      }
      r := Found(instance);
    }
  }

  lemma CachedIsResolvable<T(!new)>(services: Services<T>, cached: set<string>, name: string)
    requires name in cached
    ensures Resolvable(services, cached, name)
  {
    hide Needs, IsWalk, Reaches;
    if HasGap(services, cached, name) {
      var w := GapWalk(services, cached, name);
      if |w| > 1 { NoStepFromCached(services, cached, w); }
    } else if HasCycle(services, cached, name) {
      var w, c := CycleWalk(services, cached, name);
      if |w| > 1 { NoStepFromCached(services, cached, w); } else { NoStepFromCached(services, cached, c); }
    }
  }

  lemma NoStepFromCached<T(!new)>(services: Services<T>, cached: set<string>, w: seq<string>)
    requires IsWalk(Needs(services, cached), w) && |w| > 1
    ensures w[0] !in cached
  {
    assert EdgeAt(Needs(services, cached), w, 0);
  }

  lemma CachedWasBuilt<T(!new)>(log: seq<Build<T>>, singletons: map<string, T>, name: string)
    requires LogOk(log, singletons) && name in singletons
    ensures BuiltBefore(log, |log|, name, singletons[name])
  {
  }

  lemma UnknownIsGap<T(!new)>(services: Services<T>, cached: set<string>, name: string)
    requires name !in cached && name !in services
    ensures HasGap(services, cached, name)
  {
    ReachesRefl(Needs(services, cached), name);
  }

  /** The chain can only grow while there are registered names left. */
  lemma ChainRoom<T(!new)>(services: Services<T>, cached: set<string>, chain: seq<string>, name: string)
    requires ChainOk(services, cached, chain, name) && name in services && name !in chain
    ensures services.Keys - Elements(chain + [name]) < services.Keys - Elements(chain)
  {
    assert name in services.Keys - Elements(chain);
    assert name in chain + [name];
  }

  lemma CacheChain<T(!new)>(services: Services<T>, c0: set<string>, c1: set<string>, c2: set<string>)
    requires c0 <= c1 <= c2 && AllResolvable(services, c0, c1 - c0) && AllResolvable(services, c1, c2 - c1)
    ensures AllResolvable(services, c0, c2 - c0)
  {
    hide Resolvable;
    forall n | n in c2 - c0 ensures Resolvable(services, c0, n) {
      if n !in c1 { CacheIsHonest(services, c0, c1, n); }
    }
  }

  lemma StillBuilt<T(!new)>(log: seq<Build<T>>, more: seq<Build<T>>, names: seq<string>, instances: seq<T>)
    requires log <= more && |names| == |instances|
    requires forall j | 0 <= j < |names| :: BuiltBefore(log, |log|, names[j], instances[j])
    ensures forall j | 0 <= j < |names| :: BuiltBefore(more, |more|, names[j], instances[j])
  {
    hide BuiltBefore;
    forall j | 0 <= j < |names| ensures BuiltBefore(more, |more|, names[j], instances[j]) {
      BuiltLater(log, more, |log|, |more|, names[j], instances[j]);
    }
  }

  // ----- Every run of a container

  datatype Call<!T> =
    | Register(name: string, factory: seq<T> -> T, dependencies: seq<string>)
    | RegisterSingleton(name: string, factory: seq<T> -> T, dependencies: seq<string>)
    | Resolve(name: string)
    | Clear

  /** What a call answers; only `resolve` answers anything. */
  datatype Answer<T> = Nothing | Resolved(resolution: Resolution<T>)

  /** The last registration of every name since the last `clear`. */
  function Registered<T>(calls: seq<Call<T>>): Services<T> {
    if calls == [] then map[] else
      var before := Registered(calls[..|calls| - 1]);
      match calls[|calls| - 1]
      case Register(name, factory, dependencies) => before[name := Service(factory, dependencies, false)]
      case RegisterSingleton(name, factory, dependencies) => before[name := Service(factory, dependencies, true)]
      case Resolve(_) => before
      case Clear => map[]
  }

  ghost predicate EverSingleton<T(!new)>(calls: seq<Call<T>>, name: string) {
    exists i :: 0 <= i < |calls| && calls[i].RegisterSingleton? && calls[i].name == name
  }

  /** `instance` was made by the last of the builds, with the factory that is registered now. */
  ghost predicate BuiltAnew<T(!new)>(services: Services<T>, built: seq<Build<T>>, name: string, instance: T) {
    && built != [] && name in services
    && var b := built[|built| - 1]; b.name == name && b.service == services[name] && b.instance == instance
  }

  /** The singletons of a run so far are among the names given to `registerSingleton`. */
  ghost predicate SingletonsAreAsked<T(!new)>(calls: seq<Call<T>>, services: Services<T>, cached: set<string>) {
    && (forall n | n in cached :: EverSingleton(calls, n))
    && (forall n | n in services && services[n].singleton :: EverSingleton(calls, n))
  }

  lemma AskedStays<T(!new)>(calls: seq<Call<T>>, call: Call<T>, name: string)
    requires EverSingleton(calls, name) || (call.RegisterSingleton? && call.name == name)
    ensures EverSingleton(calls + [call], name)
  {
    if EverSingleton(calls, name) {
      var i :| 0 <= i < |calls| && calls[i].RegisterSingleton? && calls[i].name == name;
      assert (calls + [call])[i] == calls[i];
    } else {
      assert (calls + [call])[|calls|] == call;
    }
  }

  lemma RegisteredStep<T(!new)>(calls: seq<Call<T>>, call: Call<T>)
    requires forall n | n in Registered(calls) && Registered(calls)[n].singleton :: EverSingleton(calls, n)
    ensures Registered(calls + [call]) ==
            match call
            case Register(name, factory, dependencies) =>
              Registered(calls)[name := Service(factory, dependencies, false)]
            case RegisterSingleton(name, factory, dependencies) =>
              Registered(calls)[name := Service(factory, dependencies, true)]
            case Resolve(_) => Registered(calls)
            case Clear => map[]
    ensures var services := Registered(calls + [call]);
      forall n | n in services && services[n].singleton :: EverSingleton(calls + [call], n)
  {
    hide EverSingleton;
    assert (calls + [call])[..|calls|] == calls;
    var services := Registered(calls + [call]);
    forall n | n in services && services[n].singleton ensures EverSingleton(calls + [call], n) {
      AskedStays(calls, call, n);
    }
  }

  /** Every run of a new container: a name that was not given to `registerSingleton` so far is
      built anew, with the factory registered last, whenever it is resolved. */
  method RunCalls<T(!new)>(calls: seq<Call<T>>) returns (answers: seq<Answer<T>>, ghost built: seq<seq<Build<T>>>)
    ensures |answers| == |built| == |calls|
    ensures forall k | 0 <= k < |calls| :: answers[k].Resolved? <==> calls[k].Resolve?
    ensures forall k | 0 <= k < |calls| && answers[k].Resolved? && answers[k].resolution.Found?
              && !EverSingleton(calls[..k], calls[k].name) ::
              BuiltAnew(Registered(calls[..k]), built[k], calls[k].name, answers[k].resolution.instance)
  {
    hide LogOk, HasGap, HasCycle, Resolvable, BuiltBefore, EverSingleton, Registered, BuiltForEachAsker;
    var c := new DependencyInjectionContainer<T>();
    answers, built := [], [];
    StartsEmpty<T>();
    assert calls[..0] == [];
    for k := 0 to |calls|
      invariant |answers| == |built| == k && fresh(c) && c.Valid()
      invariant c.services == Registered(calls[..k]) && SingletonsAreAsked(calls[..k], c.services, c.singletons.Keys)
      invariant forall j | 0 <= j < k :: answers[j].Resolved? <==> calls[j].Resolve?
      invariant forall j | 0 <= j < k && answers[j].Resolved? && answers[j].resolution.Found?
                  && !EverSingleton(calls[..j], calls[j].name) ::
                  BuiltAnew(Registered(calls[..j]), built[j], calls[j].name, answers[j].resolution.instance)
    {
      assert calls[..k + 1] == calls[..k] + [calls[k]];
      RegisteredStep(calls[..k], calls[k]);
      forall n | n in c.singletons ensures EverSingleton(calls[..k + 1], n) { AskedStays(calls[..k], calls[k], n); }
      ghost var log0 := c.log;
      var answer := Nothing;
      match calls[k] {
        case Register(name, factory, dependencies) => c.Register(name, factory, dependencies);
        case RegisterSingleton(name, factory, dependencies) => c.RegisterSingleton(name, factory, dependencies);
        case Clear => c.Clear();
        case Resolve(name) =>
          var r := c.Resolve(name);
          answer := Resolved(r);
      }
      answers := answers + [answer];
      built := built + [if calls[k].Resolve? then c.log[|log0|..] else []];
    }
  }

  lemma StartsEmpty<T(!new)>()
    ensures Registered<T>([]) == map[]
  {
  }
}
