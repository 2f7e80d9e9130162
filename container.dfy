/**
 * What the adapter can observe of the dependency-injection container: the
 * metadata of its registrations, and a trace of the calls made on it (opening
 * a tagged nested scope, resolving by name or by type on the root container or
 * in a nested scope, disposing a nested scope). What an instance is and how the
 * container builds it stays opaque: `reply` maps each resolve call, together
 * with its position in the trace, to the object handed back, so two resolves
 * of the same service may or may not yield the same object.
 */
module ContainerModel {
  import opened Metadata

  /** One call the adapter makes on the container or on a nested scope of it. */
  datatype Event<A> =
    | BeginScope(tag: string)
    | ResolveNamed(key: string, service: ServiceType<A>, onRoot: bool)
    | Resolve(service: ServiceType<A>, onRoot: bool)
    | DisposeScope
  {
    predicate IsResolve() {
      ResolveNamed? || Resolve?
    }
  }

  /** How an event changes the number of open nested scopes. */
  function Delta<A>(e: Event<A>): int {
    match e
    case BeginScope(_) => 1
    case DisposeScope => -1
    case _ => 0
  }

  /** The number of nested scopes left open after `events`. */
  function Depth<A>(events: seq<Event<A>>): int {
    if events == [] then 0
    else Depth(events[..|events| - 1]) + Delta(events[|events| - 1])
  }

  /** The number of resolve calls in `events`. */
  function ResolveCount<A>(events: seq<Event<A>>): nat {
    if events == [] then 0
    else ResolveCount(events[..|events| - 1]) + (if events[|events| - 1].IsResolve() then 1 else 0)
  }

  /** No scope is disposed that was not opened, and every scope opened is disposed by the end. */
  ghost predicate Balanced<A>(events: seq<Event<A>>) {
    Depth(events) == 0 && forall k :: 0 <= k <= |events| ==> Depth(events[..k]) >= 0
  }

  /** Every resolve marked as on the root happens with no scope open, and every other one inside a scope. */
  ghost predicate WellPlaced<A>(events: seq<Event<A>>) {
    forall k :: 0 <= k < |events| && events[k].IsResolve() ==> (events[k].onRoot <==> Depth(events[..k]) == 0)
  }

  /** The depth and resolve count of a single call. */
  lemma SingleEvent<A>(e: Event<A>)
    ensures Depth([e]) == Delta(e)
    ensures ResolveCount([e]) == if e.IsResolve() then 1 else 0
  {
    assert [e][..0] == [];
  }

  lemma {:induction false} DepthAppend<A>(first: seq<Event<A>>, second: seq<Event<A>>)
    ensures Depth(first + second) == Depth(first) + Depth(second)
  {
    if second == [] {
      assert first + second == first;
    } else {
      var n := |second| - 1;
      assert (first + second)[..|first + second| - 1] == first + second[..n];
      assert (first + second)[|first + second| - 1] == second[n];
      DepthAppend(first, second[..n]);
    }
  }

  lemma {:induction false} ResolveCountAppend<A>(first: seq<Event<A>>, second: seq<Event<A>>)
    ensures ResolveCount(first + second) == ResolveCount(first) + ResolveCount(second)
  {
    if second == [] {
      assert first + second == first;
    } else {
      var n := |second| - 1;
      assert (first + second)[..|first + second| - 1] == first + second[..n];
      assert (first + second)[|first + second| - 1] == second[n];
      ResolveCountAppend(first, second[..n]);
    }
  }

  /** The prefixes of `first + second` that reach into `second`. */
  lemma PrefixOfAppend<A>(first: seq<Event<A>>, second: seq<Event<A>>, k: nat)
    requires |first| <= k <= |first| + |second|
    ensures (first + second)[..k] == first + second[..k - |first|]
    ensures Depth((first + second)[..k]) == Depth(first) + Depth(second[..k - |first|])
  {
    assert (first + second)[..k] == first + second[..k - |first|];
    DepthAppend(first, second[..k - |first|]);
  }

  /** Two balanced traces one after the other are balanced. */
  lemma BalancedAppend<A>(first: seq<Event<A>>, second: seq<Event<A>>)
    requires Balanced(first) && Balanced(second)
    ensures Balanced(first + second)
  {
    var all := first + second;
    DepthAppend(first, second);
    forall k | 0 <= k <= |all| ensures Depth(all[..k]) >= 0 {
      if k <= |first| {
        assert all[..k] == first[..k];
      } else {
        PrefixOfAppend(first, second, k);
      }
    }
  }

  /** A well-placed trace run after a balanced, well-placed one keeps every resolve well placed. */
  lemma WellPlacedAppend<A>(first: seq<Event<A>>, second: seq<Event<A>>)
    requires Balanced(first) && WellPlaced(first) && WellPlaced(second)
    ensures WellPlaced(first + second)
  {
    var all := first + second;
    forall k | 0 <= k < |all| && all[k].IsResolve() ensures all[k].onRoot <==> Depth(all[..k]) == 0 {
      if k < |first| {
        assert all[..k] == first[..k];
        assert all[k] == first[k];
      } else {
        PrefixOfAppend(first, second, k);
        assert all[k] == second[k - |first|];
      }
    }
  }

  /** The container: its registrations, the objects it hands back, and the calls made on it so far. */
  class Container<A, O> {
    /** The metadata dictionaries of `ComponentRegistry.Registrations`, in enumeration order. */
    const registrations: seq<Registration<A>>
    /** The object the container hands back for the resolve call recorded at a given position of the trace. */
    const reply: (nat, Event<A>) -> O
    /** Every call made on the container and on its nested scopes, oldest first; an ordinary field, since the reply depends on its length. */
    var trace: seq<Event<A>>

    constructor (registrations: seq<Registration<A>>, reply: (nat, Event<A>) -> O)
      ensures this.registrations == registrations && this.reply == reply
      ensures trace == []
    {
      this.registrations := registrations;
      this.reply := reply;
      trace := [];
    }

    /** `BeginLifetimeScope(tag)`: open a nested scope carrying `tag`. */
    method BeginLifetimeScope(tag: string) returns (scope: LifetimeScope<A, O>)
      modifies this
      ensures fresh(scope) && scope.root == this && scope.tag == tag && !scope.disposed
      ensures trace == old(trace) + [BeginScope(tag)]
    {
      scope := new LifetimeScope(this, tag);
      trace := trace + [BeginScope(tag)];
    }

    /** `Resolve(serviceType)` on the root container. */
    method Resolve(service: ServiceType<A>) returns (instance: O)
      modifies this
      ensures trace == old(trace) + [Event.Resolve(service, true)]
      ensures instance == reply(|old(trace)|, Event.Resolve(service, true))
    {
      instance := reply(|trace|, Event.Resolve(service, true));
      trace := trace + [Event.Resolve(service, true)];
    }

    /** `ResolveNamed(key, serviceType)` on the root container. */
    method ResolveNamed(key: string, service: ServiceType<A>) returns (instance: O)
      modifies this
      ensures trace == old(trace) + [Event.ResolveNamed(key, service, true)]
      ensures instance == reply(|old(trace)|, Event.ResolveNamed(key, service, true))
    {
      instance := reply(|trace|, Event.ResolveNamed(key, service, true));
      trace := trace + [Event.ResolveNamed(key, service, true)];
    }
  }

  /** A nested lifetime scope of `root`, open until disposed. */
  class LifetimeScope<A, O> {
    const root: Container<A, O>
    const tag: string
    var disposed: bool

    constructor (root: Container<A, O>, tag: string)
      ensures this.root == root && this.tag == tag && !disposed
    {
      this.root := root;
      this.tag := tag;
      disposed := false;
    }

    /** `Resolve(serviceType)` inside this scope. */
    method Resolve(service: ServiceType<A>) returns (instance: O)
      requires !disposed
      modifies root
      ensures root.trace == old(root.trace) + [Event.Resolve(service, false)]
      ensures instance == root.reply(|old(root.trace)|, Event.Resolve(service, false))
    {
      instance := root.reply(|root.trace|, Event.Resolve(service, false));
      root.trace := root.trace + [Event.Resolve(service, false)];
    }

    /** `ResolveNamed(key, serviceType)` inside this scope. */
    method ResolveNamed(key: string, service: ServiceType<A>) returns (instance: O)
      requires !disposed
      modifies root
      ensures root.trace == old(root.trace) + [Event.ResolveNamed(key, service, false)]
      ensures instance == root.reply(|old(root.trace)|, Event.ResolveNamed(key, service, false))
    {
      instance := root.reply(|root.trace|, Event.ResolveNamed(key, service, false));
      root.trace := root.trace + [Event.ResolveNamed(key, service, false)];
    }

    /** `Dispose()`, as the end of a `using` block calls it; a second call does nothing. */
    method Dispose()
      modifies this, root
      ensures disposed
      ensures root.trace == old(root.trace) + (if old(disposed) then [] else [DisposeScope])
    {
      if !disposed {
        root.trace := root.trace + [DisposeScope];
        disposed := true;
      }
    }
  }
}
