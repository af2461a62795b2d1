/**
  The two bulk command handlers: adding many books, and soft-deleting many
  books, each in one loop with an early exit on the first failure and a
  single save at the end.

  The repository keeps what its queries read: the titles and deleted flags of
  the books already saved, and the tracked Book instances by id.  Books added
  or updated during a request are only queued (AddAsync, UpdateAsync); the
  queries do not see them until the unit of work saves.
 */
module BulkCommands {
  import opened Shared
  import opened ValueObjects
  import opened Aggregates

  class BookRepository {
    /** Titles of the saved books: what ExistsByTitleAsync queries. */
    const storedTitles: set<string>
    /**
      The book instance the context hands out for each saved row that is not
      soft-deleted: the rows GetByIdAsync can find.
     */
    const stored: map<Guid, Book>
    /** Books passed to AddAsync, in call order. */
    var added: seq<Book>
    /** Books passed to UpdateAsync, in call order. */
    var updated: seq<Book>
    /** The state of every stored book, by id. */
    ghost var states: map<Guid, BookState>

    constructor (titles: set<string>, books: map<Guid, Book>)
      ensures storedTitles == titles && stored == books
      ensures added == [] && updated == []
      ensures states.Keys == books.Keys && forall id :: id in books ==> states[id] == books[id].State()
    {
      storedTitles, stored := titles, books;
      added, updated := [], [];
      new;
      states := map id | id in books :: books[id].State();
    }

    /**
      Every stored book is valid, and the context hands out one instance per
      row (identity resolution): distinct ids give distinct books with
      distinct aggregate roots.
     */
    ghost predicate Valid()
      reads Books()
    {
      && (forall id :: id in stored ==> stored[id].Valid())
      && (forall id, id' :: id in stored && id' in stored && id != id' ==>
            stored[id] != stored[id'] && stored[id].root != stored[id'].root)
    }

    /** `states` holds the state of every stored book. */
    ghost predicate Tracks()
      reads this, Books(), Roots()
    {
      && states.Keys == stored.Keys
      && forall id :: id in stored ==> stored[id].State() == states[id]
    }

    function Books(): set<Book> {
      set id | id in stored :: stored[id]
    }

    function Roots(): set<AggregateRoot> {
      set id | id in stored :: stored[id].root
    }

    method ExistsByTitle(title: string) returns (taken: bool)
      ensures taken <==> title in storedTitles
    {
      taken := title in storedTitles;
    }

    method GetById(id: Guid) returns (book: Book?)
      ensures id in stored ==> book == stored[id]
      ensures id !in stored ==> book == null
    {
      if id in stored {
        book := stored[id];
      } else {
        book := null;
      }
    }

    method Add(book: Book)
      modifies this`added
      ensures added == old(added) + [book]
    {
      added := added + [book];
    }

    method Update(book: Book)
      modifies this`updated
      ensures updated == old(updated) + [book]
    {
      updated := updated + [book];
    }
  }

  /** The unit of work as the handlers see it: how many times it was saved. */
  class UnitOfWorkLog {
    var saves: nat

    constructor ()
      ensures saves == 0
    {
      saves := 0;
    }

    method SaveChanges()
      modifies this`saves
      ensures saves == old(saves) + 1
    {
      saves := saves + 1;
    }
  }

  // ---------------------------------------------------------------- adding books in bulk

  /** One requested book: title, publication year and author name. */
  datatype BookInput = BookInput(title: string, publicationYear: int, authorName: string)

  /**
    The checks on one requested book, in the handler's order: the title must
    not be saved already, then Title, Author and PublicationYear must accept
    their values.  None when the book passes them all.
   */
  function CheckItem(titles: set<string>, item: BookInput, currentYear: int): Option<Error> {
    if item.title in titles then Some(BookAlreadyExists(item.title))
    else if CreateTitle(item.title).Failure? then Some(CreateTitle(item.title).error)
    else if CreateAuthor(item.authorName).Failure? then Some(CreateAuthor(item.authorName).error)
    else if CreatePublicationYear(item.publicationYear, currentYear).Failure? then
      Some(CreatePublicationYear(item.publicationYear, currentYear).error)
    else None
  }

  /** A book passes exactly when its title is new and every value object accepts its value; a saved title is reported first. */
  lemma CheckItemFacts(titles: set<string>, item: BookInput, currentYear: int)
    ensures var r := CheckItem(titles, item, currentYear);
      && (r.None? <==> item.title !in titles && IsValidTitle(item.title) && !IsBlank(item.authorName)
                       && IsValidYear(item.publicationYear, currentYear))
      && (item.title in titles ==> r == Some(BookAlreadyExists(item.title)))
  {
  }

  /** The position of the first requested book that fails its checks, or the number of books when none does. */
  function FirstFailing(titles: set<string>, items: seq<BookInput>, currentYear: int): (k: nat)
    ensures k <= |items|
    decreases |items|
  {
    if items == [] then 0
    else if CheckItem(titles, items[0], currentYear).Some? then 0
    else 1 + FirstFailing(titles, items[1..], currentYear)
  }

  /** FirstFailing is the least failing position: everything before it passes, and it fails. */
  lemma {:induction false} FirstFailingFacts(titles: set<string>, items: seq<BookInput>, currentYear: int)
    ensures var k := FirstFailing(titles, items, currentYear);
      && (forall j :: 0 <= j < k ==> CheckItem(titles, items[j], currentYear).None?)
      && (k < |items| ==> CheckItem(titles, items[k], currentYear).Some?)
    decreases |items|
  {
    if items != [] && CheckItem(titles, items[0], currentYear).None? {
      FirstFailingFacts(titles, items[1..], currentYear);
      var k := FirstFailing(titles, items, currentYear);
      forall j | 0 <= j < k ensures CheckItem(titles, items[j], currentYear).None? {
        if j > 0 {
          assert items[j] == items[1..][j - 1];
        }
      }
    }
  }

  /** Conversely, a position where every earlier book passes and this one fails (or the end) is FirstFailing. */
  lemma {:induction false} FirstFailingIs(titles: set<string>, items: seq<BookInput>, currentYear: int, k: nat)
    requires k <= |items|
    requires forall j :: 0 <= j < k ==> CheckItem(titles, items[j], currentYear).None?
    requires k < |items| ==> CheckItem(titles, items[k], currentYear).Some?
    ensures FirstFailing(titles, items, currentYear) == k
    decreases k
  {
    if k > 0 {
      assert CheckItem(titles, items[0], currentYear).None?;
      forall j | 0 <= j < k - 1 ensures CheckItem(titles, items[1..][j], currentYear).None? {
        assert items[1..][j] == items[j + 1];
      }
      FirstFailingIs(titles, items[1..], currentYear, k - 1);
    }
  }

  /** The book the handler creates for a requested book: its own fresh id and event id. */
  ghost predicate CreatedFrom(book: Book, item: BookInput, id: Guid, eventId: Guid)
    reads book, book.root
  {
    book.State() == Created(id, Title(item.title), PublicationYear(item.publicationYear),
                            Author(item.authorName), eventId)
  }

  /**
    The checks of one loop iteration, in the handler's order: ExistsByTitleAsync,
    then Title.Create, Author.Create and PublicationYear.Create, stopping at the
    first failure.  When all pass, the value objects are returned.
   */
  method CheckBook(repo: BookRepository, item: BookInput, currentYear: int)
    returns (error: Option<Error>, title: Title, author: Author, year: PublicationYear)
    ensures error == CheckItem(repo.storedTitles, item, currentYear)
    ensures error.None? ==> title == Title(item.title) && author == Author(item.authorName)
                            && year == PublicationYear(item.publicationYear)
  {
    title, author, year := Title(item.title), Author(item.authorName), PublicationYear(item.publicationYear);
    var taken := repo.ExistsByTitle(item.title);
    if taken {
      return Some(BookAlreadyExists(item.title)), title, author, year;
    }
    var titleResult := CreateTitle(item.title);
    if titleResult.Failure? {
      return Some(titleResult.error), title, author, year;
    }
    var authorResult := CreateAuthor(item.authorName);
    if authorResult.Failure? {
      return Some(authorResult.error), title, author, year;
    }
    var yearResult := CreatePublicationYear(item.publicationYear, currentYear);
    if yearResult.Failure? {
      return Some(yearResult.error), title, author, year;
    }
    return None, titleResult.value, authorResult.value, yearResult.value;
  }

  /** Creating the book from the checked value objects and passing it to AddAsync. */
  method CreateAndAdd(repo: BookRepository, item: BookInput, title: Title, author: Author, year: PublicationYear,
                      id: Guid, eventId: Guid)
    returns (book: Book)
    requires title == Title(item.title) && author == Author(item.authorName)
    requires year == PublicationYear(item.publicationYear)
    modifies repo`added
    ensures fresh(book) && fresh(book.root)
    ensures CreatedFrom(book, item, id, eventId) && book.Id() == id
    ensures repo.added == old(repo.added) + [book]
  {
    var bookResult := Book.Create(id, Some(title), Some(year), Some(author), eventId);
    book := bookResult.value;
    repo.Add(book);
  }

  /**
    AddBooksBulk.  The books are checked and added in request order; the
    first book that fails a check ends the request with that check's error,
    before SaveChanges (the books added so far stay queued, unsaved).  When all
    pass, the handler saves once and returns the new ids in request order; an
    empty request therefore succeeds with no ids.  Guid.NewGuid for the book
    and for its BookCreated event is `newId(k)` and `eventId(k)` for the k-th
    book; the current year is a parameter.
   */
  method AddBooksBulk(repo: BookRepository, uow: UnitOfWorkLog, items: seq<BookInput>, currentYear: int,
                      newId: nat -> Guid, eventId: nat -> Guid)
    returns (r: Result<seq<Guid>>, ghost made: seq<Book>)
    modifies repo`added, uow`saves
    ensures var k := FirstFailing(repo.storedTitles, items, currentYear);
      && (r.Failure? <==> k < |items|)
      && (r.Failure? ==> CheckItem(repo.storedTitles, items[k], currentYear) == Some(r.error))
      && (r.Success? ==> r.value == seq(|items|, j requires 0 <= j < |items| => newId(j)))
      && |made| == k
    ensures repo.added == old(repo.added) + made
    ensures forall j :: 0 <= j < |made| ==> fresh(made[j]) && CreatedFrom(made[j], items[j], newId(j), eventId(j))
    ensures uow.saves == old(uow.saves) + (if r.Success? then 1 else 0)
  {
    var bookIds: seq<Guid> := [];
    made := [];
    var i := 0;
    while i < |items|
      invariant 0 <= i <= |items| && |made| == i && |bookIds| == i
      invariant repo.added == old(repo.added) + made
      invariant forall j :: 0 <= j < i ==>
        CheckItem(repo.storedTitles, items[j], currentYear).None? && bookIds[j] == newId(j)
        && fresh(made[j]) && CreatedFrom(made[j], items[j], newId(j), eventId(j))
      invariant uow.saves == old(uow.saves)
    {
      var error, title, author, year := CheckBook(repo, items[i], currentYear);
      if error.Some? {
        FirstFailingIs(repo.storedTitles, items, currentYear, i);
        return Failure(error.value), made;
      }
      var book := CreateAndAdd(repo, items[i], title, author, year, newId(i), eventId(i));
      made := made + [book];
      bookIds := bookIds + [book.Id()];
      i := i + 1;
    }
    FirstFailingIs(repo.storedTitles, items, currentYear, |items|);
    uow.SaveChanges();
    return Success(bookIds), made;
  }

  /**
    The existence check reads only saved titles, not the books queued earlier
    in the same request, so a request that names the same new title twice
    passes both checks: both books are added.
   */
  lemma DuplicateTitleAccepted(titles: set<string>, item: BookInput, currentYear: int)
    requires CheckItem(titles, item, currentYear).None?
    ensures FirstFailing(titles, [item, item], currentYear) == 2
  {
    assert [item, item][1..] == [item];
    assert [item][1..] == [];
  }

  // ---------------------------------------------------------------- soft-deleting books in bulk

  /** The position of the first id GetByIdAsync does not find, or the number of ids when it finds them all. */
  function FirstMissing(visible: set<Guid>, ids: seq<Guid>): (k: nat)
    ensures k <= |ids|
    ensures forall j :: 0 <= j < k ==> ids[j] in visible
    ensures k < |ids| ==> ids[k] !in visible
    decreases |ids|
  {
    if ids == [] || ids[0] !in visible then 0
    else
      var k := 1 + FirstMissing(visible, ids[1..]);
      assert forall j :: 1 <= j < k ==> ids[j] == ids[1..][j - 1];
      k
  }

  /**
    One found book: SoftDelete (its result ignored), then UpdateAsync.  No
    other stored book shares its object or its root, so of all the stored
    states only this book's changes.
   */
  method DeleteOne(repo: BookRepository, id: Guid, book: Book, eventId: Guid)
    requires repo.Valid() && repo.Tracks() && AllInt32(repo.states) && id in repo.stored && book == repo.stored[id]
    modifies book, book.root, repo`updated, repo`states
    ensures repo.Valid() && repo.Tracks() && book.isDeleted
    ensures repo.states == DeleteAt(old(repo.states), id, eventId)
    ensures repo.updated == old(repo.updated) + [book]
  {
    var _ := book.SoftDelete(eventId);
    repo.Update(book);
    repo.states := repo.states[id := book.State()];
    forall id' | id' in repo.stored && id' != id
      ensures repo.stored[id'].Valid() && repo.stored[id'].State() == repo.states[id']
    {
      assert repo.stored[id'] != book && repo.stored[id'].root != book.root;
    }
  }

  /** The books of the first k ids, all of which are stored. */
  ghost function Touched(stored: map<Guid, Book>, ids: seq<Guid>, k: nat): (r: seq<Book>)
    requires k <= FirstMissing(stored.Keys, ids)
    ensures |r| == k
  {
    seq(k, j requires 0 <= j < k => stored[ids[j]])
  }

  /** The update queue grows by one book per found id. */
  lemma TouchedNext(queue: seq<Book>, stored: map<Guid, Book>, ids: seq<Guid>, k: nat)
    requires k < FirstMissing(stored.Keys, ids)
    ensures queue + Touched(stored, ids, k) + [stored[ids[k]]] == queue + Touched(stored, ids, k + 1)
  {
    assert Touched(stored, ids, k + 1) == Touched(stored, ids, k) + [stored[ids[k]]];
  }

  /** Every state in the map has a C# int view counter, so every operation applies. */
  ghost predicate AllInt32(states: map<Guid, BookState>) {
    forall id :: id in states ==> IsInt32(states[id].viewsCount)
  }

  /** Position j is the first at which its id occurs in ids. */
  predicate FirstAt(ids: seq<Guid>, j: nat)
    requires j < |ids|
  {
    ids[j] !in ids[..j]
  }

  /**
    The stored states after the first k ids have been soft-deleted in order,
    the j-th with event id eventId(j); an id that is not stored is skipped.
   */
  function DeleteEach(states: map<Guid, BookState>, ids: seq<Guid>, k: nat, eventId: nat -> Guid): (r: map<Guid, BookState>)
    requires k <= |ids| && AllInt32(states)
    ensures r.Keys == states.Keys && AllInt32(r)
  {
    if k == 0 then states
    else DeleteAt(DeleteEach(states, ids, k - 1, eventId), ids[k - 1], eventId(k - 1))
  }

  /** SoftDelete on the state stored under id, with event id e; an id that is not stored is skipped. */
  function DeleteAt(states: map<Guid, BookState>, id: Guid, e: Guid): (r: map<Guid, BookState>)
    requires AllInt32(states)
    ensures r.Keys == states.Keys && AllInt32(r)
  {
    if id in states then
      ApplyFacts(states[id], Delete(e));
      states[id := Apply(states[id], Delete(e)).state]
    else states
  }

  /** Deleting in order leaves every book whose id is not among the first k ids as it was. */
  lemma {:induction false} DeleteEachUnchanged(states: map<Guid, BookState>, ids: seq<Guid>, k: nat, eventId: nat -> Guid, id: Guid)
    requires k <= |ids| && AllInt32(states) && id in states && id !in ids[..k]
    ensures DeleteEach(states, ids, k, eventId)[id] == states[id]
  {
    if k > 0 {
      assert ids[..k] == ids[..k - 1] + [ids[k - 1]];
      DeleteEachUnchanged(states, ids, k - 1, eventId, id);
    }
  }

  /** Deleting in order leaves the stored book of each of the first k ids deleted. */
  lemma {:induction false} DeleteEachDeleted(states: map<Guid, BookState>, ids: seq<Guid>, k: nat, eventId: nat -> Guid, j: nat)
    requires j < k <= |ids| && AllInt32(states) && ids[j] in states
    ensures DeleteEach(states, ids, k, eventId)[ids[j]].isDeleted
  {
    var s := DeleteEach(states, ids, k - 1, eventId);
    if ids[k - 1] in states {
      ApplyFacts(s[ids[k - 1]], Delete(eventId(k - 1)));
    }
    if j < k - 1 {
      DeleteEachDeleted(states, ids, k - 1, eventId, j);
    }
  }

  /**
    The stored book of an id among the first k ids ends as its old state
    deleted with the event id of the id's first position: a later repeat
    fails on an already deleted book and changes nothing.
   */
  lemma {:induction false} DeleteEachFirst(states: map<Guid, BookState>, ids: seq<Guid>, k: nat, eventId: nat -> Guid, j: nat)
    requires j < k <= |ids| && AllInt32(states) && ids[j] in states && FirstAt(ids, j)
    ensures DeleteEach(states, ids, k, eventId)[ids[j]] == Apply(states[ids[j]], Delete(eventId(j))).state
  {
    var s := DeleteEach(states, ids, k - 1, eventId);
    var r := DeleteEach(states, ids, k, eventId);
    var id := ids[j];
    assert r == DeleteAt(s, ids[k - 1], eventId(k - 1));
    if j < k - 1 {
      DeleteEachFirst(states, ids, k - 1, eventId, j);
      if ids[k - 1] == id {
        DeleteEachDeleted(states, ids, k - 1, eventId, j);
        ApplyFacts(s[id], Delete(eventId(k - 1)));
      }
      assert r[id] == s[id];
    } else {
      DeleteEachUnchanged(states, ids, k - 1, eventId, id);
      assert s[id] == states[id];
    }
  }

  /** DeleteEachUnchanged and DeleteEachFirst for every id and every position at once. */
  lemma DeleteEachSummary(states: map<Guid, BookState>, ids: seq<Guid>, k: nat, eventId: nat -> Guid)
    requires k <= |ids| && AllInt32(states)
    ensures forall id :: id in states && id !in ids[..k] ==> DeleteEach(states, ids, k, eventId)[id] == states[id]
    ensures forall j :: 0 <= j < k && ids[j] in states && FirstAt(ids, j) ==>
      DeleteEach(states, ids, k, eventId)[ids[j]] == Apply(states[ids[j]], Delete(eventId(j))).state
  {
    forall id | id in states && id !in ids[..k]
      ensures DeleteEach(states, ids, k, eventId)[id] == states[id]
    {
      DeleteEachUnchanged(states, ids, k, eventId, id);
    }
    forall j | 0 <= j < k && ids[j] in states && FirstAt(ids, j)
      ensures DeleteEach(states, ids, k, eventId)[ids[j]] == Apply(states[ids[j]], Delete(eventId(j))).state
    {
      DeleteEachFirst(states, ids, k, eventId, j);
    }
  }

  /**
    The state of the delete loop after the first k ids: all of them were
    found, every stored book is valid and tracked, the update queue holds
    their books after `queue`, and the stored states are those of deleting
    them in order from `before`.
   */
  ghost predicate Progress(repo: BookRepository, queue: seq<Book>, before: map<Guid, BookState>, ids: seq<Guid>, k: nat, eventId: nat -> Guid)
    reads repo, repo.Books(), repo.Roots()
  {
    && k <= FirstMissing(repo.stored.Keys, ids)
    && repo.Valid() && repo.Tracks() && AllInt32(before)
    && repo.updated == queue + Touched(repo.stored, ids, k)
    && repo.states == DeleteEach(before, ids, k, eventId)
  }

  /** After the loop, every book it found is deleted. */
  lemma FoundDeleted(repo: BookRepository, queue: seq<Book>, before: map<Guid, BookState>, ids: seq<Guid>, k: nat, eventId: nat -> Guid)
    requires Progress(repo, queue, before, ids, k, eventId) && before.Keys == repo.stored.Keys
    ensures forall j :: 0 <= j < k ==>
      ids[j] in repo.stored && Touched(repo.stored, ids, k)[j] == repo.stored[ids[j]] && repo.stored[ids[j]].isDeleted
  {
    forall j | 0 <= j < k
      ensures repo.stored[ids[j]].isDeleted
    {
      DeleteEachDeleted(before, ids, k, eventId, j);
      assert repo.states[ids[j]] == repo.stored[ids[j]].State();
    }
  }

  /**
    The loop of SoftDeleteBooksBulk: the ids are looked up in order, and each
    book found is soft-deleted and passed to UpdateAsync, until the first id
    that is not found.  k is that id's position, or the number of ids.  The
    stored states are then those of deleting the first k ids in order
    (DeleteEachFirst, DeleteEachDeleted, DeleteEachUnchanged: each book
    deleted as at its id's first position, every other book as it was).
   */
  method DeleteFound(repo: BookRepository, ids: seq<Guid>, eventId: nat -> Guid)
    returns (k: nat, ghost touched: seq<Book>)
    requires repo.Valid() && repo.Tracks()
    modifies repo`updated, repo`states, repo.Books(), repo.Roots()
    ensures repo.Valid() && repo.Tracks() && AllInt32(old(repo.states))
    ensures k == FirstMissing(repo.stored.Keys, ids) && |touched| == k
    ensures repo.updated == old(repo.updated) + touched
    ensures forall j :: 0 <= j < k ==> ids[j] in repo.stored && touched[j] == repo.stored[ids[j]] && touched[j].isDeleted
    ensures repo.states == DeleteEach(old(repo.states), ids, k, eventId)
  {
    ghost var before := repo.states;
    StatesInt32(repo);
    k := 0;
    while k < |ids|
      invariant Progress(repo, old(repo.updated), before, ids, k, eventId)
    {
      var found := DeleteStep(repo, old(repo.updated), ids, k, before, eventId);
      if !found {
        break;
      }
      k := k + 1;
    }
    touched := Touched(repo.stored, ids, k);
    FoundDeleted(repo, old(repo.updated), before, ids, k, eventId);
  }

  /** The stored books are valid, so every tracked state has a C# int view counter. */
  lemma StatesInt32(repo: BookRepository)
    requires repo.Valid() && repo.Tracks()
    ensures AllInt32(repo.states)
  {
    forall id | id in repo.states
      ensures IsInt32(repo.states[id].viewsCount)
    {
      assert repo.stored[id].Valid();
    }
  }

  /**
    One iteration of DeleteFound: GetByIdAsync for the k-th id; when it is
    found, DeleteOne, and the loop has progressed to the first k + 1 ids;
    when it is not, nothing changes and k is the first missing position.
   */
  method DeleteStep(repo: BookRepository, ghost queue: seq<Book>, ids: seq<Guid>, k: nat, ghost before: map<Guid, BookState>, eventId: nat -> Guid)
    returns (found: bool)
    requires k < |ids| && Progress(repo, queue, before, ids, k, eventId)
    modifies repo`updated, repo`states, repo.Books(), repo.Roots()
    ensures found <==> ids[k] in repo.stored
    ensures found ==> Progress(repo, queue, before, ids, k + 1, eventId)
    ensures !found ==> Progress(repo, queue, before, ids, k, eventId) && k == FirstMissing(repo.stored.Keys, ids)
  {
    var book := repo.GetById(ids[k]);
    if book == null {
      return false;
    }
    DeleteOne(repo, ids[k], book, eventId(k));
    TouchedNext(queue, repo.stored, ids, k);
    return true;
  }

  /**
    SoftDeleteBooksBulk.  The first id that is not found ends the request with
    Book.NotFound(id), before SaveChanges; the books before it have been
    soft-deleted in memory and queued for update.  A found book that is
    already deleted in memory makes SoftDelete fail, and that result is
    ignored.  When all ids are found the handler saves once and succeeds.
    `eventId(k)` is the id of the BookDeleted event raised for the k-th id.
   */
  method SoftDeleteBooksBulk(repo: BookRepository, uow: UnitOfWorkLog, ids: seq<Guid>, eventId: nat -> Guid)
    returns (r: Outcome, ghost touched: seq<Book>)
    requires repo.Valid() && repo.Tracks()
    modifies repo`updated, repo`states, uow`saves, repo.Books(), repo.Roots()
    ensures repo.Valid() && repo.Tracks()
    ensures var k := FirstMissing(repo.stored.Keys, ids);
      && (r.Fail? <==> k < |ids|)
      && (r.Fail? ==> r.error == BookNotFound(ids[k]))
      && |touched| == k
    ensures repo.updated == old(repo.updated) + touched
    ensures forall j :: 0 <= j < |touched| ==> ids[j] in repo.stored && touched[j] == repo.stored[ids[j]] && touched[j].isDeleted
    ensures forall id :: id in repo.stored && id !in ids[..|touched|] ==> repo.stored[id].State() == old(repo.stored[id].State())
    ensures forall j :: 0 <= j < |touched| && FirstAt(ids, j) ==>
      repo.stored[ids[j]].State() == Apply(old(repo.stored[ids[j]].State()), Delete(eventId(j))).state
    ensures uow.saves == old(uow.saves) + (if r.Pass? then 1 else 0)
  {
    var k;
    k, touched := DeleteFound(repo, ids, eventId);
    DeleteEachSummary(old(repo.states), ids, k, eventId);
    if k < |ids| {
      return Fail(BookNotFound(ids[k])), touched;
    }
    uow.SaveChanges();
    return Pass, touched;
  }
}
