# Prism's Autofac service-locator adapter, modelled in Dafny

`AutofacServiceLocatorAdapter` lets Prism's service-locator abstraction resolve
objects from an Autofac container. For a single instance it first picks a
lifetime scope for the requested type. It scans the metadata values of every
container registration that has metadata. Each `PrismAutofacMetadataDTO` whose
`Type` is the requested type overwrites the choice, so the last one wins. The
default is `PrismSingletonScoped`, and a module type always gets
`PrismSingletonScoped`. It then resolves by name (a key is given) or by type
(no key). `PrismLifetimeScoped` resolves inside a nested scope tagged `"Prism"`
that is disposed at the end of a `using` block. `PrismSingletonScoped` resolves
on the root container. To get all instances, it resolves `IEnumerable<T>`
inside a `"Prism"` scope.

Files:

- `wrappers.dfy`: `Option` and `Result`.
- `metadata.dfy`: service types (`ServiceType`: an opaque type, or
  `IEnumerable<>` of a type), the `PrismLifetimeScope` enumeration, the
  `"Prism"` tag, and metadata values (`DTO(ty, lifetimeScopeName)` or `Other`).
- `scope_selection.dfy`: the LINQ pipeline over the registrations
  (`WithMetadata`, `Concat`, `TypeValues`), the reference function `LastMatch`
  for "the last DTO about the type", `SelectedScope`, and the loop method
  `SelectLifetimeScope`, proved equal to `SelectedScope`.
- `container.dfy`: what the adapter sees of the container. That is the metadata
  of its registrations and a trace of the calls made on it
  (`BeginScope(tag)`, `ResolveNamed(key, type, onRoot)`, `Resolve(type, onRoot)`,
  `DisposeScope`). The object handed back for a resolve is `reply(position, call)`,
  where `position` is where the call lands in the trace, so the model fixes
  nothing about whether two resolves share an object. The nested scope is a
  class with a `disposed` flag. The trace predicates are `Depth` (scopes left open), `ResolveCount`, `Balanced`
  (no dispose without an open scope, nothing left open) and `WellPlaced` (a
  resolve is marked as on the root exactly when no scope is open).
- `adapter.dfy`: the adapter class, its null-checking construction,
  `DoGetInstance` and `DoGetAllInstances`. Each of the two methods is tied to
  `CallTrace`, the calls one resolution makes. Lemmas show that such a trace
  holds exactly one resolve, is balanced and puts each resolve in the right
  place.

## Model

| member | source | states |
|---|---|---|
| `ScopeSelection.SelectLifetimeScope` | Source/Wpf/Prism.Autofac.Wpf/AutofacServiceLocatorAdapter.cs:45-78 | The scan returns `SelectedScope`: the scope of the last DTO about the type in the values of the registrations with metadata, `PrismSingletonScoped` if there is none, and always `PrismSingletonScoped` for a module type |
| `ScopeSelection.LastMatchNone` | Source/Wpf/Prism.Autofac.Wpf/AutofacServiceLocatorAdapter.cs:51-66 | The scan finds no scope exactly when no value is a DTO whose type is the requested one (both directions) |
| `ScopeSelection.LastMatchSome` | Source/Wpf/Prism.Autofac.Wpf/AutofacServiceLocatorAdapter.cs:55-66 | The scan yields scope `s` exactly when some value is a DTO about the type that says `s` and no later value is a DTO about the type (both directions) |
| `ScopeSelection.LastMatchAppend` | Source/Wpf/Prism.Autofac.Wpf/AutofacServiceLocatorAdapter.cs:55-66 | Over two runs of values in a row, a match in the later run overrides the earlier run; without one the earlier run decides |
| `ScopeSelection.LastMatchSkipsIrrelevant` | Source/Wpf/Prism.Autofac.Wpf/AutofacServiceLocatorAdapter.cs:57-61 | Dropping a value that is not a DTO, or is a DTO about another type, does not change the result |
| `ScopeSelection.NoMatchSelectsSingleton` | Source/Wpf/Prism.Autofac.Wpf/AutofacServiceLocatorAdapter.cs:51-66 | If no registration holds a DTO about the type, the selected scope is `PrismSingletonScoped` |
| `ScopeSelection.LastRegistrationWins` | Source/Wpf/Prism.Autofac.Wpf/AutofacServiceLocatorAdapter.cs:48-66 | For a non-module type, a registration appended at the end decides the scope whenever it holds a DTO about the type; otherwise the earlier registrations decide |
| `ScopeSelection.EmptyMetadataContributesNothing` | Source/Wpf/Prism.Autofac.Wpf/AutofacServiceLocatorAdapter.cs:48-49 | Keeping only registrations with `Metadata.Count >= 1` does not change the values scanned: they equal the values of all registrations |
| `ScopeSelection.WithMetadata` | Source/Wpf/Prism.Autofac.Wpf/AutofacServiceLocatorAdapter.cs:48 | The `Where` filter yields no more registrations than it is given, and each one it yields has at least one metadata entry |
| `ScopeSelection.WithMetadataKeeps` | Source/Wpf/Prism.Autofac.Wpf/AutofacServiceLocatorAdapter.cs:48 | As a set, the filter's result is exactly the registrations with metadata: it yields only them and each of them |
| `ScopeSelection.WithMetadataAppend` | Source/Wpf/Prism.Autofac.Wpf/AutofacServiceLocatorAdapter.cs:48 | The filter keeps order and multiplicity: filtering a sequence extended by one registration gives the earlier result extended by that registration exactly when it has metadata |
| `ScopeSelection.Concat` | Source/Wpf/Prism.Autofac.Wpf/AutofacServiceLocatorAdapter.cs:49 | `SelectMany` yields at least as many values as any single registration holds |
| `ScopeSelection.TypeValues` | Source/Wpf/Prism.Autofac.Wpf/AutofacServiceLocatorAdapter.cs:48-49 | The values the scan walks over, after the `Where` and the `SelectMany`, are the values of all registrations, in enumeration order |
| `ScopeSelection.ConcatMembers` | Source/Wpf/Prism.Autofac.Wpf/AutofacServiceLocatorAdapter.cs:49 | Every value `SelectMany` yields comes from some registration, and every value of every registration is yielded |
| `ScopeSelection.ConcatAppend` | Source/Wpf/Prism.Autofac.Wpf/AutofacServiceLocatorAdapter.cs:49 | The values of a registration enumerated last come after those of all earlier registrations |
| `ContainerModel.Container.BeginLifetimeScope` | Source/Wpf/Prism.Autofac.Wpf/AutofacServiceLocatorAdapter.cs:88 | Opening a nested scope records `BeginScope(tag)` and gives back a new, undisposed scope with that tag |
| `ContainerModel.Container.Resolve` | Source/Wpf/Prism.Autofac.Wpf/AutofacServiceLocatorAdapter.cs:109 | A typed resolve on the root records a root `Resolve` call and returns the container's object for it |
| `ContainerModel.Container.ResolveNamed` | Source/Wpf/Prism.Autofac.Wpf/AutofacServiceLocatorAdapter.cs:94 | A named resolve on the root records a root `ResolveNamed` call and returns the container's object for it |
| `ContainerModel.LifetimeScope.Resolve` | Source/Wpf/Prism.Autofac.Wpf/AutofacServiceLocatorAdapter.cs:105 | A typed resolve in an undisposed nested scope records a scoped `Resolve` call and returns the container's object for it |
| `ContainerModel.LifetimeScope.ResolveNamed` | Source/Wpf/Prism.Autofac.Wpf/AutofacServiceLocatorAdapter.cs:90 | A named resolve in an undisposed nested scope records a scoped `ResolveNamed` call and returns the container's object for it |
| `ContainerModel.LifetimeScope.Dispose` | Source/Wpf/Prism.Autofac.Wpf/AutofacServiceLocatorAdapter.cs:88-91 | The end of the `using` block leaves the scope disposed and records `DisposeScope` once |
| `Adapter.CallTrace` | Source/Wpf/Prism.Autofac.Wpf/AutofacServiceLocatorAdapter.cs:83-112 | The calls of one resolution contain the resolve for the key and type; they contain `BeginScope("Prism")` exactly on the `PrismLifetimeScoped` path, and are three calls on that path and one call otherwise |
| `Adapter.ResolveCall` | Source/Wpf/Prism.Autofac.Wpf/AutofacServiceLocatorAdapter.cs:83-112 | The resolve is named exactly when a key is given, and then carries that key; it is for the requested type and marked root or scoped as asked |
| `Adapter.CallTraceShape` | Source/Wpf/Prism.Autofac.Wpf/AutofacServiceLocatorAdapter.cs:82-112 | One resolution makes exactly one resolve call, the right one. It opens a scope exactly on the `PrismLifetimeScoped` path, tagged `"Prism"`, just before the resolve, and disposes it just after; on the `PrismSingletonScoped` path it is the root resolve alone. It leaves no scope open, and its resolve is on the root exactly when no scope is open |
| `Adapter.CallKeepsTraceWellFormed` | Source/Wpf/Prism.Autofac.Wpf/AutofacServiceLocatorAdapter.cs:82-112 | After any history of calls, one more resolution leaves the number of open scopes unchanged and adds one resolve; a balanced, well-placed history stays balanced and well placed |
| `Adapter.AutofacServiceLocatorAdapter.constructor` | Source/Wpf/Prism.Autofac.Wpf/AutofacServiceLocatorAdapter.cs:34 | The adapter stores the container it is given |
| `Adapter.AutofacServiceLocatorAdapter.Create` | Source/Wpf/Prism.Autofac.Wpf/AutofacServiceLocatorAdapter.cs:30-35 | Construction fails with `ArgumentNullException("container")` exactly when the container is null; otherwise the adapter holds that very container |
| `Adapter.AutofacServiceLocatorAdapter.DoGetInstance` | Source/Wpf/Prism.Autofac.Wpf/AutofacServiceLocatorAdapter.cs:43-115 | The calls made on the container are exactly `CallTrace` for the selected scope, key and type. The object returned is the one the container gave for that single resolve, at its position in the trace. The number of open scopes is unchanged, one resolve is added, and a balanced, well-placed history stays so |
| `Adapter.AutofacServiceLocatorAdapter.DoGetAllInstances` | Source/Wpf/Prism.Autofac.Wpf/AutofacServiceLocatorAdapter.cs:122-131 | The calls made are exactly: open one `"Prism"` scope, resolve `IEnumerable<serviceType>` in it, dispose it. This is the scoped, typed path of `CallTrace`. The container's object for that resolve, at its position in the trace, is returned |

## Left out

- The reflection test behind `isModule` (lines 45-46) is left out: `GetInterfaces`, `IsGenericType` and `GetGenericTypeDefinition` are .NET reflection. Its outcome is the input `isModule`.
- `MakeGenericType` (line 126) is the constructor `EnumerableOf`. It is injective, never equal to its argument, and never equal to any `Opaque` type. The model therefore writes every constructed `IEnumerable<T>` as `EnumerableOf(T)`, never as `Opaque`; with that convention each .NET type has one encoding, and `Matches` agrees with the type comparison at line 60.
- A null `serviceType` is left out: `ServiceType` has no null value. The source would throw on it at line 45 (`GetInterfaces`) and at line 126 (`MakeGenericType`).
- `Cast<object>()` (line 129) is left out: enumerating the resolved collection belongs to the runtime. `DoGetAllInstances` returns the collection object the container gave.
- What Autofac's `Resolve`, `ResolveNamed` and `BeginLifetimeScope` do inside is left out. The container appears only as the trace of calls and `reply`, which gives the object handed back for a resolve call at a given position of the trace. Because the position differs for every call, the model neither promises nor rules out that two resolves, scoped or on the root, return the same object; Autofac's per-dependency, per-scope and single-instance sharing rules are not modelled.
- DoGetInstance: does not model a container that throws (unregistered type, ambiguous registration). Every resolve succeeds in the model, so the guarantee that `using` disposes the scope on the exceptional path is not covered.
- DoGetAllInstances: the same holds for an exception thrown inside the `using` block.
- The write-only field `resolvedTypeToReturn` (lines 23, 82, 90-109) is left out. The method returns the resolved object directly, which is the same value.
- The unused field `_componentRegistration` (line 24) is left out.
- The flag `foundLifeTimeScope` (lines 52, 63) is left out. It feeds only the branches at lines 67-73, which are empty apart from commented-out logging.
- The commented-out `Debug.WriteLine` calls (lines 53-54, 69, 72, 80) are left out.
- Out-of-range `PrismLifetimeScope` values are left out. In C# they would fall through both `switch` statements and return null, but the datatype has only the two declared cases.
- `ServiceLocatorImplBase` is not part of this model, so its key normalisation and exception wrapping are left out. A null key is `None`.
- `PrismAutofacMetadataDTO` is not part of this model. Only its `Type` and `LifetimeScopeName`, as read at lines 60-62, are modelled.
- The `PrismAutofacMetadata` property holder (PrismLifetimeScope.cs:8-14) is reduced to its `"Prism"` constant, `PrismTag`.
- Concurrency is left out: nothing else calls the container while the adapter runs.
