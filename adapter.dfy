/**
 * The service-locator adapter: it picks the lifetime scope for the requested
 * type, then resolves by name or by type, in a fresh nested scope tagged
 * "Prism" that it disposes straight away, or on the root container.
 */
module Adapter {
  import opened Wrappers
  import opened Metadata
  import opened ScopeSelection
  import opened ContainerModel

  /** The exception raised for a missing argument, with the parameter's name. */
  datatype ArgumentNullException = ArgumentNullException(paramName: string)

  /** The resolve call for `service`: named when a key is given, typed otherwise. */
  function ResolveCall<A>(key: Option<string>, service: ServiceType<A>, onRoot: bool): (e: Event<A>)
    ensures e.IsResolve() && e.service == service && e.onRoot == onRoot
    ensures e.ResolveNamed? <==> key.Some?
    ensures key.Some? ==> e.key == key.value
  {
    match key
    case Some(k) => ResolveNamed(k, service, onRoot)
    case None => Resolve(service, onRoot)
  }

  /** The calls one resolution makes on the container, for the selected scope. */
  function CallTrace<A>(scope: PrismLifetimeScope, key: Option<string>, service: ServiceType<A>): (r: seq<Event<A>>)
    ensures ResolveCall(key, service, scope == PrismSingletonScoped) in r
    ensures BeginScope(PrismTag) in r <==> scope == PrismLifetimeScoped
    ensures |r| == if scope == PrismLifetimeScoped then 3 else 1
  {
    var call := ResolveCall(key, service, scope == PrismSingletonScoped);
    match scope
    case PrismLifetimeScoped => [BeginScope(PrismTag), call, DisposeScope]
    case PrismSingletonScoped => [call]
  }

  /**
   * One resolution makes exactly one resolve call, of the right kind and for the
   * right service; it opens a nested scope (tagged "Prism", right before the
   * call, disposed right after it) exactly on the scoped path, and leaves no
   * scope open.
   */
  lemma CallTraceShape<A>(scope: PrismLifetimeScope, key: Option<string>, service: ServiceType<A>)
    ensures var t := CallTrace(scope, key, service);
      && ResolveCount(t) == 1
      && Balanced(t)
      && WellPlaced(t)
      && (forall k :: 0 <= k < |t| && t[k].IsResolve() ==> t[k] == ResolveCall(key, service, scope == PrismSingletonScoped))
      && (forall k :: 0 <= k < |t| && t[k].BeginScope? ==> t[k].tag == PrismTag)
      && ((exists k :: 0 <= k < |t| && t[k].BeginScope?) <==> scope == PrismLifetimeScoped)
      && (scope == PrismLifetimeScoped ==> t == [BeginScope(PrismTag), ResolveCall(key, service, false), DisposeScope])
      && (scope == PrismSingletonScoped ==> t == [ResolveCall(key, service, true)])
  {
    var t := CallTrace(scope, key, service);
    var call := ResolveCall(key, service, scope == PrismSingletonScoped);
    SingleEvent(call);
    match scope
    case PrismLifetimeScoped =>
      var begun: seq<Event<A>> := [BeginScope(PrismTag)];
      var resolved := begun + [call];
      assert t == resolved + [DisposeScope];
      SingleEvent<A>(BeginScope(PrismTag));
      SingleEvent<A>(DisposeScope);
      DepthAppend(begun, [call]);
      DepthAppend(resolved, [DisposeScope]);
      ResolveCountAppend(begun, [call]);
      ResolveCountAppend(resolved, [DisposeScope]);
      assert t[..0] == [] && t[..1] == begun && t[..2] == resolved && t[..3] == t;
    case PrismSingletonScoped =>
      assert t == [call];
      assert t[..0] == [] && t[..1] == t;
  }

  /** A resolution appended to a balanced, well-placed trace keeps it so and adds one resolve call. */
  lemma CallKeepsTraceWellFormed<A>(before: seq<Event<A>>, scope: PrismLifetimeScope, key: Option<string>, service: ServiceType<A>)
    ensures var after := before + CallTrace(scope, key, service);
      && Depth(after) == Depth(before)
      && ResolveCount(after) == ResolveCount(before) + 1
      && (Balanced(before) && WellPlaced(before) ==> Balanced(after) && WellPlaced(after))
  {
    var t := CallTrace(scope, key, service);
    CallTraceShape(scope, key, service);
    DepthAppend(before, t);
    ResolveCountAppend(before, t);
    if Balanced(before) && WellPlaced(before) {
      BalancedAppend(before, t);
      WellPlacedAppend(before, t);
    }
  }

  /** The adapter over one container. */
  class AutofacServiceLocatorAdapter<A(==), O> {
    const container: Container<A, O>

    constructor (container: Container<A, O>)
      ensures this.container == container
    {
      this.container := container;
    }

    /** The public constructor: a missing container is rejected, any other is kept as it is. */
    static method Create(container: Container?<A, O>) returns (r: Result<AutofacServiceLocatorAdapter<A, O>, ArgumentNullException>)
      ensures r.Failure? <==> container == null
      ensures r.Failure? ==> r.error == ArgumentNullException("container")
      ensures r.Success? ==> r.value.container == container
    {
      if container == null {
        return Failure(ArgumentNullException("container"));
      }
      var adapter := new AutofacServiceLocatorAdapter(container);
      return Success(adapter);
    }

    /**
     * `DoGetInstance(serviceType, key)`; `isModule` says whether the type
     * implements the framework's generic module interface.
     */
    method DoGetInstance(serviceType: ServiceType<A>, key: Option<string>, isModule: bool) returns (instance: O)
      modifies container
      ensures container.trace
              == old(container.trace) + CallTrace(SelectedScope(container.registrations, serviceType, isModule), key, serviceType)
      ensures var onRoot := SelectedScope(container.registrations, serviceType, isModule) == PrismSingletonScoped;
              instance == container.reply(|old(container.trace)| + (if onRoot then 0 else 1), ResolveCall(key, serviceType, onRoot))
      ensures Depth(container.trace) == Depth(old(container.trace))
      ensures ResolveCount(container.trace) == ResolveCount(old(container.trace)) + 1
      ensures old(Balanced(container.trace) && WellPlaced(container.trace)) ==> Balanced(container.trace) && WellPlaced(container.trace)
    {
      var prismLifetimeScope := SelectLifetimeScope(container.registrations, serviceType, isModule);
      ghost var expected := CallTrace(prismLifetimeScope, key, serviceType);
      ghost var call := ResolveCall(key, serviceType, prismLifetimeScope == PrismSingletonScoped);
      ghost var position := |old(container.trace)| + (if prismLifetimeScope == PrismSingletonScoped then 0 else 1);
      if key.Some? {
        match prismLifetimeScope
        case PrismLifetimeScoped =>
          var scope := container.BeginLifetimeScope(PrismTag);
          instance := scope.ResolveNamed(key.value, serviceType);
          scope.Dispose();
        case PrismSingletonScoped =>
          instance := container.ResolveNamed(key.value, serviceType);
      } else {
        match prismLifetimeScope
        case PrismLifetimeScoped =>
          var scope := container.BeginLifetimeScope(PrismTag);
          instance := scope.Resolve(serviceType);
          scope.Dispose();
        case PrismSingletonScoped =>
          instance := container.Resolve(serviceType);
      }
      assert container.trace == old(container.trace) + expected && instance == container.reply(position, call);
      CallKeepsTraceWellFormed(old(container.trace), prismLifetimeScope, key, serviceType);
    }

    /** `DoGetAllInstances(serviceType)`: resolve `IEnumerable<serviceType>` in a nested "Prism" scope. */
    method DoGetAllInstances(serviceType: ServiceType<A>) returns (instances: O)
      modifies container
      ensures container.trace
              == old(container.trace) + [BeginScope(PrismTag), Event.Resolve(EnumerableOf(serviceType), false), DisposeScope]
      ensures container.trace == old(container.trace) + CallTrace(PrismLifetimeScoped, None, EnumerableOf(serviceType))
      ensures instances == container.reply(|old(container.trace)| + 1, Event.Resolve(EnumerableOf(serviceType), false))
      ensures Depth(container.trace) == Depth(old(container.trace))
      ensures ResolveCount(container.trace) == ResolveCount(old(container.trace)) + 1
      ensures old(Balanced(container.trace) && WellPlaced(container.trace)) ==> Balanced(container.trace) && WellPlaced(container.trace)
    {
      var scope := container.BeginLifetimeScope(PrismTag);
      var enumerableType := EnumerableOf(serviceType);
      instances := scope.Resolve(enumerableType);
      scope.Dispose();
      CallKeepsTraceWellFormed(old(container.trace), PrismLifetimeScoped, None, enumerableType);
    }
  }
}
