/**
 * The values the adapter reads: service types, the two-valued lifetime-scope
 * enumeration, the tag of the scopes the adapter opens, and the values held in
 * a registration's metadata dictionary.
 */
module Metadata {

  /**
   * A .NET service type. `Opaque` stands for any type, compared by identity;
   * `EnumerableOf(t)` is `IEnumerable<t>`, the type the adapter builds with
   * `MakeGenericType` when all instances of `t` are requested.
   */
  datatype ServiceType<A> = Opaque(id: A) | EnumerableOf(element: ServiceType<A>)

  /** The `PrismLifetimeScope` enumeration. */
  datatype PrismLifetimeScope = PrismLifetimeScoped | PrismSingletonScoped

  /** `PrismAutofacMetadata.Prism`: the tag of every nested scope the adapter opens. */
  const PrismTag: string := "Prism"

  /**
   * One value of a registration's metadata dictionary: either a
   * `PrismAutofacMetadataDTO` (its `Type` and `LifetimeScopeName`) or some
   * other object the adapter skips.
   */
  datatype MetaValue<A> = DTO(ty: ServiceType<A>, lifetimeScopeName: PrismLifetimeScope) | Other

  /** The values of one registration's metadata dictionary, in enumeration order. */
  type Registration<A> = seq<MetaValue<A>>

  /** `v` is a DTO that speaks about `serviceType`. */
  predicate Matches<A(==)>(v: MetaValue<A>, serviceType: ServiceType<A>) {
    v.DTO? && v.ty == serviceType
  }
}
