/** The order in which the services of a compose project are started (`src/runtime/apple.rs`). */
module StartOrder {
  import opened Wrappers

  /** The services with their `depends_on` lists; `names` lists them in the map's own order. */
  datatype ComposeConfig = ComposeConfig(names: seq<string>, services: map<string, seq<string>>) {
    ghost predicate Valid() {
      forall n :: n in names <==> n in services
    }
  }

  datatype Error = NotFound(service: string)

  // ---- the dependency graph -------------------------------------------

  /** `u` depends on `v`, and both are configured. */
  ghost predicate Edge(c: ComposeConfig, u: string, v: string) {
    u in c.services && v in c.services[u] && v in c.services
  }

  ghost predicate IsPath(c: ComposeConfig, p: seq<string>) {
    p != [] && forall i | 0 <= i < |p| - 1 :: Edge(c, p[i], p[i + 1])
  }

  /** `v` is `u` or one of its direct or indirect dependencies. */
  ghost predicate Reaches(c: ComposeConfig, u: string, v: string) {
    exists p :: IsPath(c, p) && p[0] == u && p[|p| - 1] == v
  }

  /** No service is an indirect dependency of one of its own dependencies. */
  ghost predicate Acyclic(c: ComposeConfig) {
    forall u, v | Edge(c, u, v) :: !Reaches(c, v, u)
  }

  lemma ReachesSelf(c: ComposeConfig, u: string)
    ensures Reaches(c, u, u)
  {
    assert IsPath(c, [u]);
  }

  lemma ReachesFurther(c: ComposeConfig, u: string, v: string, w: string)
    requires Reaches(c, u, v) && Edge(c, v, w)
    ensures Reaches(c, u, w)
  {
    var p :| IsPath(c, p) && p[0] == u && p[|p| - 1] == v;
    assert IsPath(c, p + [w]);
  }

  lemma ReachesBefore(c: ComposeConfig, u: string, v: string, w: string)
    requires Edge(c, u, v) && Reaches(c, v, w)
    ensures Reaches(c, u, w)
  {
    var p :| IsPath(c, p) && p[0] == v && p[|p| - 1] == w;
    assert IsPath(c, [u] + p);
  }

  // ---- the search -----------------------------------------------------

  datatype Search = Search(seen: set<string>, order: seq<string>)

  /** What visiting `service` makes of the search. */
  function Visit(c: ComposeConfig, service: string, s: Search): (r: Search)
    requires service in c.services
    ensures s.seen <= r.seen
    decreases c.services.Keys - s.seen, 0, 0
  {
    if service in s.seen then s
    else
      var after := VisitAll(c, c.services[service], s.(seen := s.seen + {service}));
      after.(order := after.order + [service])
  }

  /** Visits those of `names` that are configured, in order. */
  function VisitAll(c: ComposeConfig, names: seq<string>, s: Search): (r: Search)
    ensures s.seen <= r.seen
    decreases c.services.Keys - s.seen, 1, |names|
  {
    if names == [] then s
    else if names[0] in c.services then VisitAll(c, names[1..], Visit(c, names[0], s))
    else VisitAll(c, names[1..], s)
  }

  function SelectedServices(c: ComposeConfig, service: Option<string>): Result<seq<string>, Error> {
    match service
    case Some(name) => if name in c.services then Ok([name]) else Err(NotFound(name))
    case None => Ok(c.names)
  }

  function StartOrder(c: ComposeConfig, service: Option<string>): Result<seq<string>, Error> {
    var roots :- SelectedServices(c, service);
    Ok(VisitAll(c, roots, Search({}, [])).order)
  }

  // ---- what the search keeps ------------------------------------------

  ghost predicate NoDuplicates(order: seq<string>) {
    forall i, j | 0 <= i < j < |order| :: order[i] != order[j]
  }

  /** Every configured dependency of the service at `i` precedes it, or closes a cycle. */
  ghost predicate DependenciesPrecede(c: ComposeConfig, order: seq<string>, i: nat)
    requires i < |order|
  {
    forall v | Edge(c, order[i], v) :: v in order[..i] || Reaches(c, v, order[i])
  }

  /** The search between two steps, while the services of `active` are being visited. */
  ghost predicate Inv(c: ComposeConfig, s: Search, active: set<string>) {
    && NoDuplicates(s.order)
    && (forall x :: x in s.seen <==> x in s.order || x in active)
    && (forall x | x in active :: x !in s.order)
    && (forall i | 0 <= i < |s.order| :: DependenciesPrecede(c, s.order, i))
    && (forall x, v | x in s.order && Edge(c, x, v) :: v in s.seen)
  }

  /** `x` is a configured service of `roots` or one of its dependencies. */
  ghost predicate FromRoots(c: ComposeConfig, roots: seq<string>, x: string) {
    exists r :: r in roots && r in c.services && Reaches(c, r, x)
  }

  /** What a visit from `roots` adds is reachable from one of them. */
  ghost predicate Grows(c: ComposeConfig, roots: seq<string>, s: Search, after: Search) {
    && s.order <= after.order
    && forall k | |s.order| <= k < |after.order| :: FromRoots(c, roots, after.order[k])
  }

  lemma {:induction false} VisitKeeps(c: ComposeConfig, service: string, s: Search, active: set<string>)
    requires service in c.services && Inv(c, s, active)
    requires forall a | a in active :: Reaches(c, a, service)
    ensures var after := Visit(c, service, s);
      Inv(c, after, active) && service in after.seen && Grows(c, [service], s, after)
    decreases c.services.Keys - s.seen, 0, 0
  {
    if service !in s.seen {
      var deps := c.services[service];
      var start := s.(seen := s.seen + {service});
      forall a, d | a in active + {service} && d in deps && d in c.services
        ensures Reaches(c, a, d)
      {
        ReachesSelf(c, service);
        ReachesFurther(c, a, service, d);
      }
      VisitAllKeeps(c, deps, start, active + {service});
      Finish(c, service, VisitAll(c, deps, start), active);
      var after := Visit(c, service, s);
      forall k | |s.order| <= k < |after.order|
        ensures FromRoots(c, [service], after.order[k])
      {
        ReachesSelf(c, service);
        assert service in [service];
        if k < |after.order| - 1 {
          assert FromRoots(c, deps, after.order[k]);
          var d :| d in deps && d in c.services && Reaches(c, d, after.order[k]);
          ReachesBefore(c, service, d, after.order[k]);
        }
      }
    }
  }

  /** A service whose dependencies have all been visited is appended. */
  lemma Finish(c: ComposeConfig, service: string, s: Search, active: set<string>)
    requires service in c.services && service !in active && Inv(c, s, active + {service})
    requires forall a | a in active :: Reaches(c, a, service)
    requires forall d | d in c.services[service] && d in c.services :: d in s.seen
    ensures Inv(c, s.(order := s.order + [service]), active)
  {
    var order := s.order + [service];
    ReachesSelf(c, service);
    forall i | 0 <= i < |order|
      ensures DependenciesPrecede(c, order, i)
    {
      if i < |s.order| {
        assert DependenciesPrecede(c, s.order, i);
        assert order[..i] == s.order[..i];
      } else {
        assert order[..i] == s.order;
      }
    }
  }

  lemma {:induction false} VisitAllKeeps(c: ComposeConfig, names: seq<string>, s: Search, active: set<string>)
    requires Inv(c, s, active)
    requires forall a, d | a in active && d in names && d in c.services :: Reaches(c, a, d)
    ensures var after := VisitAll(c, names, s);
      && Inv(c, after, active)
      && (forall d | d in names && d in c.services :: d in after.seen)
      && Grows(c, names, s, after)
    decreases c.services.Keys - s.seen, 1, |names|
  {
    if names == [] {
    } else {
      var next := if names[0] in c.services then Visit(c, names[0], s) else s;
      if names[0] in c.services {
        VisitKeeps(c, names[0], s, active);
      }
      VisitAllKeeps(c, names[1..], next, active);
      var after := VisitAll(c, names, s);
      assert after == VisitAll(c, names[1..], next);
      forall k | |s.order| <= k < |after.order|
        ensures FromRoots(c, names, after.order[k])
      {
        if k < |next.order| {
          assert FromRoots(c, [names[0]], next.order[k]);
        } else {
          assert FromRoots(c, names[1..], after.order[k]);
        }
      }
    }
  }

  // ---- main results ---------------------------------------------------

  lemma {:induction false} ClosedUnderPaths(c: ComposeConfig, order: seq<string>, p: seq<string>)
    requires forall x, v | x in order && Edge(c, x, v) :: v in order
    requires IsPath(c, p) && p[0] in order
    ensures p[|p| - 1] in order
    decreases |p|
  {
    if |p| <= 1 {
    } else {
      assert Edge(c, p[0], p[1]);
      assert forall i | 0 <= i < |p[1..]| - 1 :: Edge(c, p[1..][i], p[1..][i + 1]) by {
        assert forall i | 0 <= i < |p| - 2 :: p[1..][i] == p[i + 1] && Edge(c, p[i + 1], p[i + 2]);
      }
      ClosedUnderPaths(c, order, p[1..]);
    }
  }

  /** What the search from `roots` lists, when nothing has been seen. */
  lemma SearchLists(c: ComposeConfig, roots: seq<string>)
    ensures var s := VisitAll(c, roots, Search({}, []));
      Inv(c, s, {}) && forall x :: x in s.order <==> FromRoots(c, roots, x)
  {
    var start := Search({}, []);
    VisitAllKeeps(c, roots, start, {});
    var order := VisitAll(c, roots, start).order;
    forall x
      ensures x in order <==> FromRoots(c, roots, x)
    {
      if r :| r in roots && r in c.services && Reaches(c, r, x) {
        var p :| IsPath(c, p) && p[0] == r && p[|p| - 1] == x;
        ClosedUnderPaths(c, order, p);
      }
      if x in order {
        var k :| 0 <= k < |order| && order[k] == x;
        assert FromRoots(c, roots, order[k]);
      }
    }
  }

  /** The service is to be started: all are, or the selected one and its dependencies. */
  ghost predicate IsToStart(c: ComposeConfig, service: Option<string>, x: string) {
    match service
    case None => x in c.services
    case Some(name) => Reaches(c, name, x)
  }

  lemma {:induction false} PathStaysConfigured(c: ComposeConfig, p: seq<string>)
    requires IsPath(c, p) && p[0] in c.services
    ensures p[|p| - 1] in c.services
    decreases |p|
  {
    if |p| == 1 {
    } else {
      assert Edge(c, p[0], p[1]);
      assert forall i | 0 <= i < |p| - 2 :: p[1..][i] == p[i + 1] && Edge(c, p[i + 1], p[i + 2]);
      PathStaysConfigured(c, p[1..]);
    }
  }

  lemma FromSelected(c: ComposeConfig, service: Option<string>, x: string)
    requires c.Valid() && SelectedServices(c, service).Ok?
    ensures FromRoots(c, SelectedServices(c, service).value, x) <==> IsToStart(c, service, x)
  {
    var roots := SelectedServices(c, service).value;
    if FromRoots(c, roots, x) {
      var r :| r in roots && r in c.services && Reaches(c, r, x);
      var p :| IsPath(c, p) && p[0] == r && p[|p| - 1] == x;
      PathStaysConfigured(c, p);
    }
    if service.None? && x in c.services {
      ReachesSelf(c, x);
    } else if service.Some? && Reaches(c, service.value, x) {
      assert service.value in roots;
    }
  }

  /**
   On any dependency graph: without a selected service the order lists every
   configured service, otherwise the selected one, which is last, and all its
   direct and indirect dependencies, each once; a dependency that does not
   precede the service depending on it lies on a cycle with it. Only a service
   that is not configured is an error.
   */
  lemma StartOrderCorrect(c: ComposeConfig, service: Option<string>)
    requires c.Valid()
    ensures match service
      case Some(name) => name !in c.services <==> StartOrder(c, service) == Err(NotFound(name))
      case None => StartOrder(c, service).Ok?
    ensures service.Some? && service.value in c.services ==> StartOrder(c, service).Ok?
    ensures StartOrder(c, service).Ok? ==>
      var order := StartOrder(c, service).value;
      && NoDuplicates(order)
      && (forall x :: x in order <==> IsToStart(c, service, x))
      && (forall i | 0 <= i < |order| :: DependenciesPrecede(c, order, i))
      && (service.Some? ==> order != [] && order[|order| - 1] == service.value)
  {
    if StartOrder(c, service).Ok? {
      var roots := SelectedServices(c, service).value;
      SearchLists(c, roots);
      VisitAllKeeps(c, roots, Search({}, []), {});
      var order := VisitAll(c, roots, Search({}, [])).order;
      forall x
        ensures x in order <==> IsToStart(c, service, x)
      {
        FromSelected(c, service, x);
      }
    }
  }

  /** Without cycles the order is topological. */
  lemma StartOrderTopological(c: ComposeConfig, service: Option<string>, i: nat, v: string)
    requires c.Valid() && Acyclic(c) && StartOrder(c, service).Ok?
    requires i < |StartOrder(c, service).value| && Edge(c, StartOrder(c, service).value[i], v)
    ensures v in StartOrder(c, service).value[..i]
  {
    StartOrderCorrect(c, service);
    assert DependenciesPrecede(c, StartOrder(c, service).value, i);
  }

  lemma {:induction false} VisitAllConcat(c: ComposeConfig, a: seq<string>, b: seq<string>, s: Search)
    ensures VisitAll(c, a + b, s) == VisitAll(c, b, VisitAll(c, a, s))
    decreases |a|
  {
    if a == [] {
      assert a + b == b;
    } else {
      assert (a + b)[1..] == a[1..] + b;
      VisitAllConcat(c, a[1..], b, if a[0] in c.services then Visit(c, a[0], s) else s);
    }
  }

  /** The services that the first `i` names need are listed before all others. */
  lemma EarlierNamesFirst(c: ComposeConfig, i: nat)
    requires c.Valid() && i <= |c.names|
    ensures StartOrder(c, None).Ok?
    ensures exists n: nat | n <= |StartOrder(c, None).value| ::
      forall x :: x in StartOrder(c, None).value[..n] <==> FromRoots(c, c.names[..i], x)
  {
    var start := Search({}, []);
    var first, order := VisitAll(c, c.names[..i], start), StartOrder(c, None).value;
    VisitAllConcat(c, c.names[..i], c.names[i..], start);
    assert c.names[..i] + c.names[i..] == c.names;
    SearchLists(c, c.names[..i]);
    VisitAllKeeps(c, c.names[i..], first, {});
    assert order[..|first.order|] == first.order;
  }

  // ---- the program ----------------------------------------------------

  /** The two collections that the recursive visit extends. */
  class Walk {
    const config: ComposeConfig
    var seen: set<string>
    var order: seq<string>

    ghost function State(): Search
      reads this
    {
      Search(seen, order)
    }

    constructor (config: ComposeConfig)
      ensures this.config == config && State() == Search({}, [])
    {
      this.config := config;
      seen, order := {}, [];
    }

    method VisitService(service: string) returns (r: Result<(), Error>)
      modifies this
      ensures service in config.services ==> r == Ok(()) && State() == Visit(config, service, old(State()))
      ensures service !in config.services ==> r == if service in old(seen) then Ok(()) else Err(NotFound(service))
      decreases config.services.Keys - seen
    {
      if service in seen {
        return Ok(());
      }
      seen := seen + {service};
      if service !in config.services {
        return Err(NotFound(service));
      }
      var dependencies := config.services[service];
      ghost var start := State();
      assert config.services.Keys - seen < config.services.Keys - old(seen) by {
        assert service in config.services.Keys - old(seen);
      }
      for i := 0 to |dependencies|
        invariant start.seen <= seen
        invariant VisitAll(config, dependencies, start) == VisitAll(config, dependencies[i..], State())
      {
        assert dependencies[i..][1..] == dependencies[i + 1..];
        if dependencies[i] in config.services {
          r := VisitService(dependencies[i]);
        }
      }
      order := order + [service];
      r := Ok(());
    }
  }

  method ComputeStartOrder(config: ComposeConfig, service: Option<string>) returns (r: Result<seq<string>, Error>)
    requires config.Valid()
    ensures r == StartOrder(config, service)
  {
    var selected := SelectedServices(config, service);
    if selected.Err? {
      return Err(selected.error);
    }
    var roots := selected.value;
    var walk := new Walk(config);
    for i := 0 to |roots|
      invariant walk.config == config
      invariant VisitAll(config, roots, Search({}, [])) == VisitAll(config, roots[i..], walk.State())
    {
      assert roots[i..][1..] == roots[i + 1..];
      // The selected services are configured, so the visit cannot fail.
      var _ := walk.VisitService(roots[i]);
    }
    r := Ok(walk.order);
  }
}
