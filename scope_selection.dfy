/**
 * How `DoGetInstance` decides which lifetime scope to resolve in: it scans the
 * metadata of every registration of the container and lets the last DTO that
 * names the requested type decide; a module type is always resolved on the
 * root container.
 */
module ScopeSelection {
  import opened Wrappers
  import opened Metadata

  /** The registrations whose metadata dictionary holds at least one entry, in order. */
  function WithMetadata<A>(registrations: seq<Registration<A>>): (r: seq<Registration<A>>)
    ensures |r| <= |registrations|
    ensures forall i :: 0 <= i < |r| ==> |r[i]| >= 1
  {
    if registrations == [] then []
    else
      (if |registrations[0]| >= 1 then [registrations[0]] else [])
      + WithMetadata(registrations[1..])
  }

  /** All metadata values of all registrations, registration by registration. */
  function Concat<A>(registrations: seq<Registration<A>>): (r: seq<MetaValue<A>>)
    ensures forall k :: 0 <= k < |registrations| ==> |registrations[k]| <= |r|
  {
    if registrations == [] then [] else registrations[0] + Concat(registrations[1..])
  }

  /** The filter keeps exactly the registrations with metadata. */
  lemma {:induction false} WithMetadataKeeps<A>(registrations: seq<Registration<A>>)
    ensures var r := WithMetadata(registrations);
      && |r| <= |registrations|
      && (forall i :: 0 <= i < |r| ==> |r[i]| >= 1 && r[i] in registrations)
      && (forall k :: 0 <= k < |registrations| && |registrations[k]| >= 1 ==> registrations[k] in r)
  {
    if registrations != [] {
      var rest := registrations[1..];
      WithMetadataKeeps(rest);
      var r := WithMetadata(registrations);
      var head := if |registrations[0]| >= 1 then [registrations[0]] else [];
      assert r == head + WithMetadata(rest);
      assert forall i :: 0 <= i < |r| ==> r[i] == registrations[0] || r[i] in WithMetadata(rest);
      forall k | 0 <= k < |registrations| && |registrations[k]| >= 1 ensures registrations[k] in r {
        if k > 0 {
          assert registrations[k] == rest[k - 1];
        }
      }
    }
  }

  /** The filter keeps the registrations with metadata in their order and with their multiplicity. */
  lemma {:induction false} WithMetadataAppend<A>(registrations: seq<Registration<A>>, last: Registration<A>)
    ensures WithMetadata(registrations + [last]) == WithMetadata(registrations) + (if |last| >= 1 then [last] else [])
  {
    if registrations == [] {
      assert registrations + [last] == [last];
      assert [last][1..] == [];
    } else {
      assert (registrations + [last])[0] == registrations[0];
      assert (registrations + [last])[1..] == registrations[1..] + [last];
      WithMetadataAppend(registrations[1..], last);
    }
  }

  /** Every value of the concatenation comes from some registration, and every value of every registration is in it. */
  lemma {:induction false} ConcatMembers<A>(registrations: seq<Registration<A>>)
    ensures forall i :: 0 <= i < |Concat(registrations)| ==>
      exists k :: 0 <= k < |registrations| && Concat(registrations)[i] in registrations[k]
    ensures forall k, j :: 0 <= k < |registrations| && 0 <= j < |registrations[k]| ==>
      registrations[k][j] in Concat(registrations)
  {
    if registrations == [] {
      assert Concat(registrations) == [];
    } else {
      var first, tail := registrations[0], registrations[1..];
      var rest := Concat(tail);
      ConcatMembers(tail);
      var r := first + rest;
      assert r == Concat(registrations);
      forall i | 0 <= i < |Concat(registrations)|
        ensures exists k :: 0 <= k < |registrations| && Concat(registrations)[i] in registrations[k]
      {
        if i < |first| {
          assert Concat(registrations)[i] in registrations[0];
        } else {
          var m := i - |first|;
          assert r[i] == rest[m];
          assert exists k :: 0 <= k < |tail| && rest[m] in tail[k];
          var k :| 0 <= k < |tail| && rest[m] in tail[k];
          assert tail[k] == registrations[k + 1];
          assert Concat(registrations)[i] in registrations[k + 1];
        }
      }
      forall k, j | 0 <= k < |registrations| && 0 <= j < |registrations[k]|
        ensures registrations[k][j] in Concat(registrations)
      {
        if k > 0 {
          assert registrations[k] == tail[k - 1];
          assert registrations[k][j] in rest;
        }
      }
    }
  }

  /** The sequence the scan walks over: the values of the registrations that have metadata. */
  function TypeValues<A>(registrations: seq<Registration<A>>): (r: seq<MetaValue<A>>)
    ensures r == Concat(registrations)
  {
    EmptyMetadataContributesNothing(registrations);
    Concat(WithMetadata(registrations))
  }

  /** The lifetime scope named by the last DTO in `values` that is about `serviceType`, if any. */
  function LastMatch<A(==)>(values: seq<MetaValue<A>>, serviceType: ServiceType<A>): Option<PrismLifetimeScope> {
    if values == [] then None
    else if Matches(values[|values| - 1], serviceType) then Some(values[|values| - 1].lifetimeScopeName)
    else LastMatch(values[..|values| - 1], serviceType)
  }

  /** The scope `DoGetInstance` resolves in: the last match, the root container by default and for modules. */
  function SelectedScope<A(==)>(registrations: seq<Registration<A>>, serviceType: ServiceType<A>, isModule: bool): PrismLifetimeScope {
    if isModule then PrismSingletonScoped
    else LastMatch(TypeValues(registrations), serviceType).GetOr(PrismSingletonScoped)
  }

  /** Position `i` holds a DTO about `serviceType` and no later position does. */
  ghost predicate IsLastMatch<A>(values: seq<MetaValue<A>>, serviceType: ServiceType<A>, i: int) {
    0 <= i < |values| && Matches(values[i], serviceType)
    && forall j :: i < j < |values| ==> !Matches(values[j], serviceType)
  }

  /**
   * The scan at the start of `DoGetInstance`: start from the root-container
   * scope, let every DTO about `serviceType` overwrite it, then force the root
   * container for module types.
   */
  method SelectLifetimeScope<A(==)>(registrations: seq<Registration<A>>, serviceType: ServiceType<A>, isModule: bool)
    returns (scope: PrismLifetimeScope)
    ensures scope == SelectedScope(registrations, serviceType, isModule)
    ensures isModule ==> scope == PrismSingletonScoped
  {
    var typeValues := TypeValues(registrations);
    scope := PrismSingletonScoped;
    for i := 0 to |typeValues|
      invariant scope == LastMatch(typeValues[..i], serviceType).GetOr(PrismSingletonScoped)
    {
      var item := typeValues[i];
      ghost var seen := typeValues[..i + 1];
      assert seen[..|seen| - 1] == typeValues[..i] && seen[|seen| - 1] == item;
      assert LastMatch(seen, serviceType)
             == if Matches(item, serviceType) then Some(item.lifetimeScopeName) else LastMatch(typeValues[..i], serviceType);
      if item.DTO? {
        if item.ty == serviceType {
          scope := item.lifetimeScopeName;
        }
      }
    }
    assert typeValues[..|typeValues|] == typeValues;
    if isModule {
      scope := PrismSingletonScoped;
    }
  }

  /** No DTO about the type is found exactly when no value is a DTO about the type. */
  lemma {:induction false} LastMatchNone<A>(values: seq<MetaValue<A>>, serviceType: ServiceType<A>)
    ensures LastMatch(values, serviceType) == None
            <==> forall i :: 0 <= i < |values| ==> !Matches(values[i], serviceType)
  {
    if values != [] {
      var n := |values| - 1;
      LastMatchNone(values[..n], serviceType);
      assert forall i :: 0 <= i < n ==> values[..n][i] == values[i];
    }
  }

  /** The scan yields `s` exactly when the last DTO about the type says `s`. */
  lemma {:induction false} LastMatchSome<A>(values: seq<MetaValue<A>>, serviceType: ServiceType<A>, s: PrismLifetimeScope)
    ensures LastMatch(values, serviceType) == Some(s)
            <==> exists i :: IsLastMatch(values, serviceType, i) && values[i].lifetimeScopeName == s
  {
    if values == [] {
      return;
    }
    var n := |values| - 1;
    if Matches(values[n], serviceType) {
      if values[n].lifetimeScopeName == s {
        assert IsLastMatch(values, serviceType, n);
      }
      forall i | IsLastMatch(values, serviceType, i) ensures i == n {
      }
    } else {
      var prefix := values[..n];
      LastMatchSome(prefix, serviceType, s);
      forall i ensures IsLastMatch(values, serviceType, i) <==> IsLastMatch(prefix, serviceType, i) {
        if 0 <= i < n {
          assert values[i] == prefix[i];
          assert forall j :: i < j < n ==> values[j] == prefix[j];
        }
      }
      forall i | IsLastMatch(values, serviceType, i) ensures values[i] == prefix[i] {
      }
    }
  }

  /** A later run of values overrides an earlier one whenever it holds a DTO about the type. */
  lemma {:induction false} LastMatchAppend<A>(earlier: seq<MetaValue<A>>, later: seq<MetaValue<A>>, serviceType: ServiceType<A>)
    ensures LastMatch(earlier + later, serviceType)
            == if LastMatch(later, serviceType).Some? then LastMatch(later, serviceType) else LastMatch(earlier, serviceType)
  {
    if later == [] {
      assert earlier + later == earlier;
    } else {
      var n := |later| - 1;
      assert (earlier + later)[..|earlier + later| - 1] == earlier + later[..n];
      assert (earlier + later)[|earlier + later| - 1] == later[n];
      LastMatchAppend(earlier, later[..n], serviceType);
    }
  }

  /** A value that is not a DTO about the type can be dropped without changing the scan's result. */
  lemma LastMatchSkipsIrrelevant<A>(before: seq<MetaValue<A>>, v: MetaValue<A>, after: seq<MetaValue<A>>, serviceType: ServiceType<A>)
    requires !Matches(v, serviceType)
    ensures LastMatch(before + [v] + after, serviceType) == LastMatch(before + after, serviceType)
  {
    LastMatchAppend(before + [v], after, serviceType);
    LastMatchAppend(before, after, serviceType);
    assert (before + [v])[..|before + [v]| - 1] == before;
  }

  /** Dropping the registrations without metadata does not change the values the scan sees. */
  lemma {:induction false} EmptyMetadataContributesNothing<A>(registrations: seq<Registration<A>>)
    ensures Concat(WithMetadata(registrations)) == Concat(registrations)
  {
    if registrations != [] {
      var first, rest := registrations[0], registrations[1..];
      EmptyMetadataContributesNothing(rest);
      assert WithMetadata(registrations) == (if |first| >= 1 then [first] else []) + WithMetadata(rest);
      assert Concat(registrations) == first + Concat(rest);
      if |first| >= 1 {
        ConcatCons(first, WithMetadata(rest));
      } else {
        assert [] + WithMetadata(rest) == WithMetadata(rest);
        assert first == [];
      }
    }
  }

  /** `Concat` of a registration followed by others starts with that registration's values. */
  lemma ConcatCons<A>(first: Registration<A>, rest: seq<Registration<A>>)
    ensures Concat([first] + rest) == first + Concat(rest)
  {
    assert ([first] + rest)[0] == first && ([first] + rest)[1..] == rest;
  }

  /** `Concat` of one more registration appends that registration's values. */
  lemma {:induction false} ConcatAppend<A>(registrations: seq<Registration<A>>, last: Registration<A>)
    ensures Concat(registrations + [last]) == Concat(registrations) + last
  {
    if registrations == [] {
      assert registrations + [last] == [last];
      assert [last][1..] == [];
    } else {
      assert (registrations + [last])[1..] == registrations[1..] + [last];
      ConcatAppend(registrations[1..], last);
    }
  }

  /**
   * The scope selected for a non-module type is the one named by the last
   * registration, in enumeration order, whose metadata holds a DTO about it.
   */
  lemma LastRegistrationWins<A>(registrations: seq<Registration<A>>, last: Registration<A>, serviceType: ServiceType<A>)
    ensures SelectedScope(registrations + [last], serviceType, false)
            == if LastMatch(last, serviceType).Some? then LastMatch(last, serviceType).value
               else SelectedScope(registrations, serviceType, false)
  {
    EmptyMetadataContributesNothing(registrations + [last]);
    EmptyMetadataContributesNothing(registrations);
    ConcatAppend(registrations, last);
    LastMatchAppend(Concat(registrations), last, serviceType);
  }

  /** Without any DTO about the type in any registration, the root container is used. */
  lemma NoMatchSelectsSingleton<A>(registrations: seq<Registration<A>>, serviceType: ServiceType<A>, isModule: bool)
    requires forall k, j :: 0 <= k < |registrations| && 0 <= j < |registrations[k]| ==> !Matches(registrations[k][j], serviceType)
    ensures SelectedScope(registrations, serviceType, isModule) == PrismSingletonScoped
  {
    var values := TypeValues(registrations);
    EmptyMetadataContributesNothing(registrations);
    ConcatMembers(registrations);
    forall i | 0 <= i < |values| ensures !Matches(values[i], serviceType) {
      var k :| 0 <= k < |registrations| && values[i] in registrations[k];
      var j :| 0 <= j < |registrations[k]| && registrations[k][j] == values[i];
    }
    LastMatchNone(values, serviceType);
  }
}
