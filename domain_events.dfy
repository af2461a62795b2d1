/**
  The domain events the aggregates raise, their concrete type names, and the
  polymorphic serialiser that the outbox uses for their content.
 */
module DomainEvents {
  import opened Shared

  /**
    One constructor per concrete event record.  Every event carries its own
    Id (DomainEvent(Guid Id)), assigned from a fresh Guid when it is raised.
   */
  datatype DomainEvent =
    | BookCreated(id: Guid, bookId: Guid, title: string)
    | BookViewed(id: Guid, bookId: Guid, viewsCount: int)
    | BookUpdated(id: Guid, bookId: Guid)
    | BookDeleted(id: Guid, bookId: Guid)
    | UserRegistered(id: Guid, userId: Guid)
    | UserNameChanged(id: Guid, userId: Guid)

  /** domainEvent.GetType().Name: the concrete record's type name. */
  function TypeName(e: DomainEvent): string {
    match e
    case BookCreated(_, _, _) => "BookCreatedDomainEvent"
    case BookViewed(_, _, _) => "BookViewedDomainEvent"
    case BookUpdated(_, _) => "BookUpdatedDomainEvent"
    case BookDeleted(_, _) => "BookDeletedDomainEvent"
    case UserRegistered(_, _) => "UserRegisteredDomainEvent"
    case UserNameChanged(_, _) => "UserNameChangedDomainEvent"
  }

  /** The aggregate an event is about: the book's or the user's id. */
  function SubjectId(e: DomainEvent): Guid {
    match e
    case BookCreated(_, b, _) => b
    case BookViewed(_, b, _) => b
    case BookUpdated(_, b) => b
    case BookDeleted(_, b) => b
    case UserRegistered(_, u) => u
    case UserNameChanged(_, u) => u
  }

  /**
    What reading content back gives: an event, null (the content is the JSON
    literal null), or an exception (malformed JSON, an unresolvable type tag)
    with its text.
   */
  datatype Decoded = Decoded(event: DomainEvent) | DecodedNull | DecodeFailed(exception: string)

  /**
    The JSON serialiser with type-name handling, as a pair of functions:
    `serialize` writes an event with its type tag, `deserialize` reads content
    back.
   */
  datatype Codec = Codec(serialize: DomainEvent -> string, deserialize: string -> Decoded)

  /** The type tag in the content lets the concrete event be recovered exactly. */
  ghost predicate RoundTrips(codec: Codec) {
    forall e :: codec.deserialize(codec.serialize(e)) == Decoded(e)
  }
}
