/**
 The middleware chain: `config` of packages/cloudflare-runtime/src/PluginContext.ts and the wiring of
 the entry socket and the service list in packages/cloudflare-runtime/src/Runtime.ts.
 */
module Middlewares {
  import opened Options
  import opened Sorting

  datatype Binding = Binding(name: string, service: string)

  datatype Service = Service(name: string, bindings: seq<Binding>)

  datatype Middleware = Middleware(name: string, bindings: seq<Binding>, upstreamBindingName: string, order: Option<real>)

  /** What one plugin contributes. */
  datatype PluginConfig = PluginConfig(services: seq<Service>, middlewares: seq<Middleware>)

  const USER_WORKER := "user-worker"

  function OrderOf(m: Middleware): real {
    if m.order.Some? then m.order.value else 0.0
  }

  predicate ByOrder(a: Middleware, b: Middleware) {
    OrderOf(a) - OrderOf(b) <= 0.0
  }

  function AllMiddlewares(configs: seq<PluginConfig>): seq<Middleware> {
    if configs == [] then [] else configs[0].middlewares + AllMiddlewares(configs[1..])
  }

  function AllServices(configs: seq<PluginConfig>): seq<Service> {
    if configs == [] then [] else configs[0].services + AllServices(configs[1..])
  }

  function Ordered(configs: seq<PluginConfig>): seq<Middleware> {
    Sort(ByOrder, AllMiddlewares(configs))
  }

  /** The service of the middleware at `index`: its own bindings and one to what comes next. */
  function MiddlewareService(chain: seq<Middleware>, index: nat): Service
    requires index < |chain|
  {
    var next := if index < |chain| - 1 then chain[index + 1].name else USER_WORKER;
    Service(chain[index].name, chain[index].bindings + [Binding(chain[index].upstreamBindingName, next)])
  }

  function MiddlewareServices(chain: seq<Middleware>, from: nat): (services: seq<Service>)
    requires from <= |chain|
    ensures |services| == |chain| - from
    ensures forall i :: 0 <= i < |services| ==> services[i] == MiddlewareService(chain, from + i)
    decreases |chain| - from
  {
    if from == |chain| then [] else [MiddlewareService(chain, from)] + MiddlewareServices(chain, from + 1)
  }

  datatype Config = Config(entry: Option<string>, services: seq<Service>)

  function ConfigOf(configs: seq<PluginConfig>): Config {
    var chain := Ordered(configs);
    Config(if chain == [] then None else Some(chain[0].name), AllServices(configs) + MiddlewareServices(chain, 0))
  }

  /** What workerd is started with: the service behind the entry socket, and all services. */
  datatype Workerd = Workerd(socketService: string, services: seq<Service>)

  function Started(userWorker: seq<Binding>, configs: seq<PluginConfig>): Workerd {
    var config := ConfigOf(configs);
    Workerd(if config.entry.Some? then config.entry.value else USER_WORKER,
            [Service(USER_WORKER, userWorker)] + config.services)
  }

  // ----- following a request -----

  function Find(services: seq<Service>, name: string): Option<Service> {
    if services == [] then None
    else if services[0].name == name then Some(services[0]) else Find(services[1..], name)
  }

  function Bound(bindings: seq<Binding>, name: string): Option<string> {
    if bindings == [] then None
    else if bindings[0].name == name then Some(bindings[0].service) else Bound(bindings[1..], name)
  }

  function UpstreamNameOf(middlewares: seq<Middleware>, name: string): Option<string> {
    if middlewares == [] then None
    else if middlewares[0].name == name then Some(middlewares[0].upstreamBindingName)
    else UpstreamNameOf(middlewares[1..], name)
  }

  /** Where the middleware called `name` forwards to: what its upstream binding is bound to. */
  function Hop(w: Workerd, middlewares: seq<Middleware>, name: string): Option<string> {
    match (Find(w.services, name), UpstreamNameOf(middlewares, name))
    case (Some(service), Some(binding)) => Bound(service.bindings, binding)
    case _ => None
  }

  /** The services a request passes when every middleware forwards it, for at most `hops` hops. */
  function Follow(w: Workerd, middlewares: seq<Middleware>, name: string, hops: nat): seq<string>
    decreases hops
  {
    if hops == 0 then [name]
    else
      match Hop(w, middlewares, name)
      case None => [name]
      case Some(next) => [name] + Follow(w, middlewares, next, hops - 1)
  }

  // ----- the chain -----

  function NamesOf(middlewares: seq<Middleware>): (names: seq<string>)
    ensures |names| == |middlewares| && forall i :: 0 <= i < |middlewares| ==> names[i] == middlewares[i].name
  {
    if middlewares == [] then [] else [middlewares[0].name] + NamesOf(middlewares[1..])
  }

  predicate HasDistinctServices(services: seq<Service>) {
    forall i, j :: 0 <= i < j < |services| ==> services[i].name != services[j].name
  }

  predicate HasDistinctNames(middlewares: seq<Middleware>) {
    forall i, j :: 0 <= i < j < |middlewares| ==> middlewares[i].name != middlewares[j].name
  }

  /** workerd wants service names distinct; a middleware's own bindings leave the upstream name free. */
  predicate IsWellNamed(userWorker: seq<Binding>, configs: seq<PluginConfig>) {
    && HasDistinctServices(Started(userWorker, configs).services)
    && forall m :: m in AllMiddlewares(configs) ==> Bound(m.bindings, m.upstreamBindingName).None?
  }

  lemma {:induction false} FindAt(services: seq<Service>, i: nat)
    requires i < |services| && HasDistinctServices(services)
    ensures Find(services, services[i].name) == Some(services[i])
    decreases i
  {
    if i > 0 {
      assert services[0].name != services[i].name;
      FindAt(services[1..], i - 1);
    }
  }

  lemma {:induction false} BoundLast(bindings: seq<Binding>, b: Binding)
    requires Bound(bindings, b.name).None?
    ensures Bound(bindings + [b], b.name) == Some(b.service)
  {
    if bindings == [] {
      assert [] + [b] == [b];
    } else {
      assert (bindings + [b])[1..] == bindings[1..] + [b];
      BoundLast(bindings[1..], b);
    }
  }

  lemma {:induction false} UpstreamNameAt(middlewares: seq<Middleware>, m: Middleware)
    requires m in middlewares && HasDistinctNames(middlewares)
    ensures UpstreamNameOf(middlewares, m.name) == Some(m.upstreamBindingName)
  {
    if middlewares[0] != m {
      var i :| 0 < i < |middlewares| && middlewares[i] == m;
      assert middlewares[1..][i - 1] == m;
      UpstreamNameAt(middlewares[1..], m);
    }
  }

  lemma ChainNamesDiffer(userWorker: seq<Binding>, configs: seq<PluginConfig>)
    requires HasDistinctServices(Started(userWorker, configs).services)
    ensures HasDistinctNames(Ordered(configs))
    ensures forall i :: 0 <= i < |Ordered(configs)| ==> Ordered(configs)[i].name != USER_WORKER
  {
    var chain, services := Ordered(configs), Started(userWorker, configs).services;
    var n := 1 + |AllServices(configs)|;
    forall i | 0 <= i < |chain|
      ensures services[n + i].name == chain[i].name && chain[i].name != USER_WORKER
    {
      assert services[0].name == USER_WORKER;
    }
    forall i, j | 0 <= i < j < |chain|
      ensures chain[i].name != chain[j].name
    {
      assert services[n + i].name != services[n + j].name;
    }
  }

  function NextName(chain: seq<Middleware>, i: nat): string
    requires i < |chain|
  {
    if i < |chain| - 1 then chain[i + 1].name else USER_WORKER
  }

  /** The middleware at `i` forwards to the one behind it, the last one to the user worker. */
  lemma HopAt(userWorker: seq<Binding>, configs: seq<PluginConfig>, i: nat)
    requires IsWellNamed(userWorker, configs) && i < |Ordered(configs)|
    ensures
      var chain := Ordered(configs);
      Hop(Started(userWorker, configs), chain, chain[i].name)
        == Some(NextName(chain, i))
  {
    var chain, w := Ordered(configs), Started(userWorker, configs);
    ChainNamesDiffer(userWorker, configs);
    FindAt(w.services, 1 + |AllServices(configs)| + i);
    UpstreamNameAt(chain, chain[i]);
    SortKeepsMembers(ByOrder, AllMiddlewares(configs));
    var service := MiddlewareService(chain, i);
    BoundLast(chain[i].bindings, service.bindings[|chain[i].bindings|]);
  }

  predicate IsLinked(w: Workerd, chain: seq<Middleware>, i: nat) {
    i < |chain| && Hop(w, chain, chain[i].name) == Some(NextName(chain, i))
  }

  lemma {:induction false} FollowFrom(w: Workerd, chain: seq<Middleware>, i: nat)
    requires i < |chain| && forall j :: 0 <= j < |chain| ==> IsLinked(w, chain, j)
    ensures Follow(w, chain, chain[i].name, |chain| - i) == NamesOf(chain)[i..] + [USER_WORKER]
    decreases |chain| - i
  {
    var next := NextName(chain, i);
    assert IsLinked(w, chain, i);
    if i < |chain| - 1 {
      FollowFrom(w, chain, i + 1);
      assert NamesOf(chain)[i..] == [chain[i].name] + NamesOf(chain)[i + 1..];
    } else {
      assert NamesOf(chain)[i..] == [chain[i].name];
    }
  }

  /**
   Following upstream bindings from the entry socket passes every middleware exactly once and ends
   at the user worker after as many hops as there are middlewares; with none, the socket points there.
   */
  lemma ChainReachesUserWorker(userWorker: seq<Binding>, configs: seq<PluginConfig>)
    requires IsWellNamed(userWorker, configs)
    ensures
      var chain, w := Ordered(configs), Started(userWorker, configs);
      Follow(w, chain, w.socketService, |chain|) == NamesOf(chain) + [USER_WORKER]
    ensures multiset(Ordered(configs)) == multiset(AllMiddlewares(configs)) && HasDistinctNames(Ordered(configs))
  {
    var chain, w := Ordered(configs), Started(userWorker, configs);
    SortPermutes(ByOrder, AllMiddlewares(configs));
    ChainNamesDiffer(userWorker, configs);
    if chain != [] {
      forall j | 0 <= j < |chain|
        ensures IsLinked(w, chain, j)
      {
        HopAt(userWorker, configs, j);
      }
      FollowFrom(w, chain, 0);
      assert NamesOf(chain)[0..] == NamesOf(chain);
    } else {
      assert NamesOf(chain) + [USER_WORKER] == [USER_WORKER];
    }
  }

  lemma {:induction false} AllMiddlewaresAre(configs: seq<PluginConfig>, m: Middleware)
    ensures m in AllMiddlewares(configs) <==> exists config :: config in configs && m in config.middlewares
  {
    if configs != [] {
      AllMiddlewaresAre(configs[1..], m);
      assert forall config :: config in configs <==> config == configs[0] || config in configs[1..];
    }
  }

  lemma {:induction false} FilterAgrees<T>(p: T -> bool, q: T -> bool, xs: seq<T>)
    requires forall x :: x in xs ==> p(x) == q(x)
    ensures Filter(p, xs) == Filter(q, xs)
  {
    if xs != [] {
      FilterAgrees(p, q, xs[1..]);
    }
  }

  /** A middleware that gives no order has order zero. */
  predicate HasOrder(m: Middleware, order: real) {
    match m.order
    case None => order == 0.0
    case Some(given) => order == given
  }

  /**
   The chain has the middlewares of all plugins; of two, the one that comes first has the lower order
   or the same; and those of one order stand as the plugins give them.
   */
  lemma ChainIsOrdered(configs: seq<PluginConfig>, order: real)
    ensures forall m :: m in Ordered(configs) <==> exists config :: config in configs && m in config.middlewares
    ensures forall i, j, lower, higher :: 0 <= i < j < |Ordered(configs)| ==>
              HasOrder(Ordered(configs)[i], lower) && HasOrder(Ordered(configs)[j], higher) ==> lower <= higher
    ensures Filter(m => HasOrder(m, order), Ordered(configs)) == Filter(m => HasOrder(m, order), AllMiddlewares(configs))
  {
    var all, chain := AllMiddlewares(configs), Ordered(configs);
    assert TotalPreorder(ByOrder);
    SortSorts(ByOrder, all);
    SortKeepsMembers(ByOrder, all);
    forall m
      ensures m in chain <==> exists config :: config in configs && m in config.middlewares
    {
      AllMiddlewaresAre(configs, m);
    }
    forall i, j, lower, higher | 0 <= i < j < |chain| && HasOrder(chain[i], lower) && HasOrder(chain[j], higher)
      ensures lower <= higher
    {
      assert ByOrder(chain[i], chain[j]);
    }
    var sample := Middleware("", [], "", Some(order));
    SortIsStable(ByOrder, all, sample);
    FilterAgrees(m => HasOrder(m, order), b => Same(ByOrder, sample, b), chain);
    FilterAgrees(m => HasOrder(m, order), b => Same(ByOrder, sample, b), all);
  }

  lemma {:induction false} ServiceAmong(configs: seq<PluginConfig>, config: PluginConfig, s: Service)
    requires config in configs && s in config.services
    ensures s in AllServices(configs)
  {
    if configs[0] != config {
      assert config in configs[1..];
      ServiceAmong(configs[1..], config, s);
    }
  }

  /** The user worker and every plugin's services are started as they were given. */
  lemma ServicesStay(userWorker: seq<Binding>, configs: seq<PluginConfig>, config: PluginConfig, s: Service)
    requires IsWellNamed(userWorker, configs) && config in configs && s in config.services
    ensures Find(Started(userWorker, configs).services, s.name) == Some(s)
    ensures Find(Started(userWorker, configs).services, "user-worker") == Some(Service("user-worker", userWorker))
  {
    ServiceAmong(configs, config, s);
    var services := Started(userWorker, configs).services;
    assert services[0] == Service(USER_WORKER, userWorker);
    var i :| 0 <= i < |AllServices(configs)| && AllServices(configs)[i] == s;
    assert services[1 + i] == s;
    FindAt(services, 0);
    FindAt(services, 1 + i);
  }

  /** Beyond its upstream binding, a middleware's service binds what the plugin bound. */
  lemma OwnBindingsStay(userWorker: seq<Binding>, configs: seq<PluginConfig>, i: nat, name: string)
    requires IsWellNamed(userWorker, configs) && i < |Ordered(configs)| && name != Ordered(configs)[i].upstreamBindingName
    ensures
      var found := Find(Started(userWorker, configs).services, Ordered(configs)[i].name);
      found.Some? && Bound(found.value.bindings, name) == Bound(Ordered(configs)[i].bindings, name)
  {
    var chain := Ordered(configs);
    FindAt(Started(userWorker, configs).services, 1 + |AllServices(configs)| + i);
    var service := MiddlewareService(chain, i);
    BoundBefore(chain[i].bindings, service.bindings[|chain[i].bindings|], name);
  }

  lemma {:induction false} BoundBefore(bindings: seq<Binding>, b: Binding, name: string)
    requires b.name != name
    ensures Bound(bindings + [b], name) == Bound(bindings, name)
  {
    if bindings == [] {
      assert ([] + [b])[1..] == [];
    } else {
      assert (bindings + [b])[1..] == bindings[1..] + [b];
      BoundBefore(bindings[1..], b, name);
    }
  }
}
