/**
  The aggregate root and the Book aggregate.

  An aggregate root owns the list of domain events raised since it was last
  drained.  Book and User reach it through a `root` object (composition in
  place of the C# base class), so that the unit of work can drain the events of
  every tracked aggregate, whatever its kind, in one sequence of roots.
 */
module Aggregates {
  import opened Shared
  import opened ValueObjects
  import opened DomainEvents

  class AggregateRoot {
    const id: Guid
    var domainEvents: seq<DomainEvent>

    constructor (id: Guid)
      ensures this.id == id && domainEvents == []
    {
      this.id := id;
      domainEvents := [];
    }

    method RaiseDomainEvent(e: DomainEvent)
      modifies this`domainEvents
      ensures domainEvents == old(domainEvents) + [e]
    {
      domainEvents := domainEvents + [e];
    }

    method ClearDomainEvents()
      modifies this`domainEvents
      ensures domainEvents == []
    {
      domainEvents := [];
    }
  }

  // ---------------------------------------------------------------- Book, as a state machine

  /** Everything a Book holds, together with its pending events. */
  datatype BookState = BookState(
    id: Guid,
    title: Title,
    publicationYear: PublicationYear,
    author: Author,
    viewsCount: int,
    isDeleted: bool,
    events: seq<DomainEvent>)

  /** The operations that change a book; each carries the fresh id of the event it may raise. */
  datatype BookCommand =
    | View(eventId: Guid)
    | Update(title: Title, publicationYear: PublicationYear, author: Author, eventId: Guid)
    | Delete(eventId: Guid)

  datatype BookStep = BookStep(state: BookState, outcome: Outcome)

  /** The state of a freshly created book. */
  function Created(id: Guid, t: Title, y: PublicationYear, a: Author, eventId: Guid): BookState {
    BookState(id, t, y, a, 0, false, [BookCreated(eventId, id, t.value)])
  }

  /** One operation: AddView, UpdateDetails or SoftDelete. */
  function Apply(s: BookState, c: BookCommand): BookStep
    requires IsInt32(s.viewsCount)
  {
    match c
    case View(eid) =>
      var n := Int32Inc(s.viewsCount);
      BookStep(s.(viewsCount := n, events := s.events + [BookViewed(eid, s.id, n)]), Pass)
    case Update(t, y, a, eid) =>
      BookStep(s.(title := t, publicationYear := y, author := a,
                  events := s.events + [BookUpdated(eid, s.id)]), Pass)
    case Delete(eid) =>
      if s.isDeleted then BookStep(s, Fail(BookAlreadyDeleted))
      else BookStep(s.(isDeleted := true, events := s.events + [BookDeleted(eid, s.id)]), Pass)
  }

  /** What each single operation promises. */
  lemma ApplyFacts(s: BookState, c: BookCommand)
    requires IsInt32(s.viewsCount)
    ensures var r := Apply(s, c);
      && r.state.id == s.id
      && IsInt32(r.state.viewsCount)
      && (s.isDeleted ==> r.state.isDeleted)
      && (r.outcome.Pass? ==> |r.state.events| == |s.events| + 1
                               && r.state.events[..|s.events|] == s.events
                               && SubjectId(r.state.events[|s.events|]) == s.id
                               && r.state.events[|s.events|].id == c.eventId)
      && (r.outcome.Fail? <==> c.Delete? && s.isDeleted)
      && (r.outcome.Fail? ==> r.state == s && r.outcome.error == BookAlreadyDeleted)
      && (c.View? ==> r.state.viewsCount == Int32Inc(s.viewsCount)
                      && r.state.events[|s.events|] == BookViewed(c.eventId, s.id, r.state.viewsCount))
      && (c.Update? ==> r.state.title == c.title && r.state.publicationYear == c.publicationYear
                        && r.state.author == c.author && r.state.isDeleted == s.isDeleted)
      && (!c.View? ==> r.state.viewsCount == s.viewsCount)
  {
  }

  /** Runs a sequence of operations, one after the other. */
  function Run(s: BookState, cs: seq<BookCommand>): BookState
    requires IsInt32(s.viewsCount)
    decreases |cs|
  {
    if cs == [] then s
    else
      ApplyFacts(s, cs[0]);
      Run(Apply(s, cs[0]).state, cs[1..])
  }

  /** How many of the operations succeed when run in order from s. */
  function Successes(s: BookState, cs: seq<BookCommand>): nat
    requires IsInt32(s.viewsCount)
    decreases |cs|
  {
    if cs == [] then 0
    else
      ApplyFacts(s, cs[0]);
      var r := Apply(s, cs[0]);
      (if r.outcome.Pass? then 1 else 0) + Successes(r.state, cs[1..])
  }

  function CountViews(cs: seq<BookCommand>): nat {
    if cs == [] then 0 else (if cs[0].View? then 1 else 0) + CountViews(cs[1..])
  }

  /**
    Over any sequence of operations: the id never changes, a deleted book stays
    deleted, events are only appended, exactly one per successful operation,
    and every one of them is about this book.
   */
  lemma {:induction false} RunInvariants(s: BookState, cs: seq<BookCommand>)
    requires IsInt32(s.viewsCount)
    ensures var r := Run(s, cs);
      && r.id == s.id
      && (s.isDeleted ==> r.isDeleted)
      && |r.events| == |s.events| + Successes(s, cs)
      && r.events[..|s.events|] == s.events
      && (forall k :: |s.events| <= k < |r.events| ==> SubjectId(r.events[k]) == s.id)
    decreases |cs|
  {
    if cs != [] {
      ApplyFacts(s, cs[0]);
      var t := Apply(s, cs[0]).state;
      RunInvariants(t, cs[1..]);
      var r := Run(s, cs);
      assert r == Run(t, cs[1..]);
      assert t.events[..|s.events|] == s.events;
      assert r.events[..|t.events|] == t.events;
      assert r.events[..|s.events|] == t.events[..|s.events|];
      forall k | |s.events| <= k < |r.events|
        ensures SubjectId(r.events[k]) == s.id
      {
        if k < |t.events| {
          assert r.events[k] == t.events[k];
        }
      }
    }
  }

  /** Without overflow, the view counter equals the starting count plus the number of AddView calls. */
  lemma {:induction false} RunCountsViews(s: BookState, cs: seq<BookCommand>)
    requires IsInt32(s.viewsCount) && s.viewsCount >= 0
    requires s.viewsCount + CountViews(cs) <= Int32Max
    ensures Run(s, cs).viewsCount == s.viewsCount + CountViews(cs)
    decreases |cs|
  {
    if cs != [] {
      ApplyFacts(s, cs[0]);
      RunCountsViews(Apply(s, cs[0]).state, cs[1..]);
    }
  }

  /** Soft-deleting twice: the second call fails with AlreadyDeleted and changes nothing. */
  lemma SoftDeleteTwice(s: BookState, e1: Guid, e2: Guid)
    requires IsInt32(s.viewsCount) && !s.isDeleted
    ensures var first := Apply(s, Delete(e1));
      && first.outcome == Pass
      && first.state.isDeleted
      && Apply(first.state, Delete(e2)) == BookStep(first.state, Fail(BookAlreadyDeleted))
  {
  }

  // ---------------------------------------------------------------- Book, as an object

  class Book {
    const root: AggregateRoot
    var title: Title
    var publicationYear: PublicationYear
    var author: Author
    var viewsCount: int
    var isDeleted: bool

    ghost predicate Valid()
      reads this
    {
      IsInt32(viewsCount)
    }

    function Id(): Guid {
      root.id
    }

    /** The book's fields and its root's pending events, as one value. */
    function State(): BookState
      reads this, root
    {
      BookState(root.id, title, publicationYear, author, viewsCount, isDeleted, root.domainEvents)
    }

    constructor Init(id: Guid, t: Title, y: PublicationYear, a: Author)
      ensures fresh(root) && Valid()
      ensures State() == BookState(id, t, y, a, 0, false, [])
    {
      root := new AggregateRoot(id);
      title, publicationYear, author := t, y, a;
      viewsCount, isDeleted := 0, false;
    }

    /**
      Book.Create.  A missing (null) title, year or author fails with
      Book.InvalidData; otherwise the new book has no views, is not deleted and
      has raised exactly one BookCreated event for its own id.
     */
    static method Create(id: Guid, t: Option<Title>, y: Option<PublicationYear>, a: Option<Author>, eventId: Guid)
      returns (r: Result<Book>)
      ensures r.Failure? <==> t.None? || y.None? || a.None?
      ensures r.Failure? ==> r.error == BookInvalidData
      ensures r.Success? ==> fresh(r.value) && fresh(r.value.root) && r.value.Valid()
      ensures r.Success? ==> r.value.State() == Created(id, t.value, y.value, a.value, eventId)
    {
      if t.None? || y.None? || a.None? {
        return Failure(BookInvalidData);
      }
      var book := new Book.Init(id, t.value, y.value, a.value);
      book.root.RaiseDomainEvent(BookCreated(eventId, book.root.id, t.value.value));
      return Success(book);
    }

    /** AddView: one more view (C# int arithmetic) and a BookViewed event carrying the new count. */
    method AddView(eventId: Guid)
      requires Valid()
      modifies this, root
      ensures Valid()
      ensures State() == Apply(old(State()), View(eventId)).state
    {
      viewsCount := Int32Inc(viewsCount);
      root.RaiseDomainEvent(BookViewed(eventId, root.id, viewsCount));
    }

    /** UpdateDetails: replaces title, year and author, raises BookUpdated, always succeeds. */
    method UpdateDetails(t: Title, y: PublicationYear, a: Author, eventId: Guid) returns (r: Outcome)
      requires Valid()
      modifies this, root
      ensures Valid()
      ensures BookStep(State(), r) == Apply(old(State()), Update(t, y, a, eventId))
    {
      title, publicationYear, author := t, y, a;
      root.RaiseDomainEvent(BookUpdated(eventId, root.id));
      return Pass;
    }

    /** SoftDelete: fails with AlreadyDeleted on a deleted book; otherwise marks it deleted and raises BookDeleted. */
    method SoftDelete(eventId: Guid) returns (r: Outcome)
      requires Valid()
      modifies this, root
      ensures Valid()
      ensures BookStep(State(), r) == Apply(old(State()), Delete(eventId))
    {
      if isDeleted {
        return Fail(BookAlreadyDeleted);
      }
      isDeleted := true;
      root.RaiseDomainEvent(BookDeleted(eventId, root.id));
      return Pass;
    }
  }
}
