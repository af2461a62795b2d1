# BookManagement core, modelled in Dafny

This project models the core of the BookManagement service, a .NET book
catalogue with users. It covers the following parts:

- **The transactional outbox for domain events.**
  - Aggregates (Book, User) append domain events to a list they own.
  - When the unit of work saves, every tracked aggregate's events are drained into rows of the OutboxMessages table, in the same database transaction. The event-conversion save interceptor does the same.
  - Audit timestamps are stamped.
  - The id interceptor gives every added entity with a null or empty Guid id a fresh version-7 Guid.
- **The outbox publishing job.**
  - A Quartz job reads at most 20 unprocessed rows and deserialises each row's content.
  - It publishes the event under a Polly retry policy, records the captured error, marks the row processed, and saves at the end.
  - The job shares its database context with the idempotent handlers the publisher calls. Each of their saves also writes the rows the job has marked so far.
- **The idempotent handler decorator.** Before running a handler for an event, it looks up the OutboxMessageConsumers ledger, keyed by event id and handler name. It records the pair only after the handler returns.
- **The entities and value objects.**
  - The Book aggregate: create, view, update and soft delete.
  - The User aggregate with its roles, and the older User entity.
  - The value objects Email, FirstName, LastName, Title, Author and PublicationYear, with their validation and error codes.
- **The sequential Guid value generator.** It overwrites the last six bytes of a random Guid with the low 48 bits of the tick count, most significant byte first.
- **The two bulk command handlers.** AddBooksBulk and SoftDeleteBooksBulk each run one loop with an early exit at the first failure, and save once at the end.

The modules follow the program's layers:
- `Shared`: bytes, Guid, Option/Result, the domain error table, whitespace.
- `ValueObjects`
- `DomainEvents`
- `Aggregates`: the aggregate root and Book.
- `Users`
- `Persistence`: the database context, interceptors and unit of work.
- `OutboxJob`
- `Idempotence`
- `SequentialGuid`
- `BulkCommands`

Code that mutates objects is modelled imperatively. These are classes whose methods update their fields, or loops over arrays and sequences:
- `AggregateRoot`, `Book`, `User`, `LegacyUser`
- `DbContext`, `UnitOfWork`
- the job's `Execute`
- the idempotent `Handle`
- the generator's `Next` over byte arrays
- the repository and the bulk handlers

Each such method is tied by its postcondition to a function on values: `Apply`, `NameChanged`, `RoleAssigned`, `ToMessages`, `RunBatch`, `Deliver`, `Spliced`, `FirstFailing`, `FirstMissing`. The promises of the system are lemmas about those functions.

Outside influences become parameters:
- the clock
- Guid.NewGuid and Guid.CreateVersion7
- the JSON serialiser: a pair of functions, and the round-trip property is a predicate
- the store's answer to the batch query
- the publisher's success or failure on each attempt
- whether the decorated handler throws
- the host's byte order

## Model

| member | source | states |
|---|---|---|
| Shared.Int32Inc | src/BookManagement.Domain/Entities/Books/Book.cs:82 | `ViewsCount++` on a C# int: one more below Int32.MaxValue, wraps to Int32.MinValue at the maximum, always stays in range |
| Shared.CodeAsWrittenClash | src/BookManagement.Domain/Errors/DomainErrors.cs:64-82 | as declared, FirstName.TooLong and LastName.TooLong are two different errors with the same code "LastName.TooLong" |
| Shared.CodesIdentifyErrors | src/BookManagement.Domain/Errors/DomainErrors.cs:54-140 | with FirstName.TooLong carrying "FirstName.TooLong", two payload-free errors with equal codes are the same error |
| ValueObjects.SplitCount | src/BookManagement.Domain/ValueObjects/Users/Email.cs:48 | string.Split yields one piece more than there are separators, so "two pieces" means exactly one '@' |
| ValueObjects.SplitJoin | src/BookManagement.Domain/ValueObjects/Users/Email.cs:48 | the split pieces joined with the separator give back the string, and no piece contains the separator |
| ValueObjects.CreateEmail | src/BookManagement.Domain/ValueObjects/Users/Email.cs:41-54 | blank input fails with Email.Empty; otherwise anything but exactly one '@' fails with Email.InvalidFormat; success iff non-blank with one '@', and it wraps the input unchanged |
| ValueObjects.EmailLengthNotEnforced | src/BookManagement.Domain/ValueObjects/Users/Email.cs:11-54 | the declared maximum length of 50 is not checked: a well-formed address longer than 50 characters is accepted |
| ValueObjects.EmailFromString | src/BookManagement.Domain/ValueObjects/Users/Email.cs:81-94 | the explicit conversion throws (None) exactly when Create fails, and otherwise yields the Email holding the string |
| ValueObjects.EmailToString | src/BookManagement.Domain/ValueObjects/Users/Email.cs:65-70 | reading an Email back as a string and re-creating it gives the same Email |
| ValueObjects.CreateFirstName | src/BookManagement.Domain/ValueObjects/Users/FirstName.cs:37-50 | blank fails with FirstName.Empty before the length check; over 50 characters fails with FirstName.TooLong; success iff valid, wrapping the input |
| ValueObjects.CreateLastName | src/BookManagement.Domain/ValueObjects/Users/LastName.cs:43-56 | blank fails with LastName.Empty before the length check; over 50 characters fails with LastName.TooLong; success iff valid, wrapping the input |
| ValueObjects.NameLengthBoundary | src/BookManagement.Domain/ValueObjects/Users/FirstName.cs:44-49 | a non-blank name of exactly 50 characters is accepted and one of 51 is rejected as too long, for both name objects |
| ValueObjects.CreateTitle | src/BookManagement.Domain/ValueObjects/Books/Title.cs:21-30 | blank fails with Title.Empty before the length check; over 150 characters fails with Title.TooLong; success iff valid |
| ValueObjects.CreateAuthor | src/BookManagement.Domain/ValueObjects/Books/Author.cs:19-25 | fails with Author.Empty iff the name is blank; there is no length limit |
| ValueObjects.CreatePublicationYear | src/BookManagement.Domain/ValueObjects/Books/PublicationYear.cs:19-27 | fails with PublicationYear.Invalid iff the year is before 1450 or after the current year; both bounds inclusive |
| ValueObjects.CreateRoundTrips | src/BookManagement.Domain/ValueObjects/Books/Title.cs:21-35 | every factory re-creates exactly the value object that holds an acceptable value (equality is equality of the single atomic value) |
| Aggregates.ApplyFacts | src/BookManagement.Domain/Entities/Books/Book.cs:80-124 | each operation keeps the id, keeps a deleted book deleted, appends exactly one event about this book with the given event id when it succeeds, fails only as a repeated SoftDelete (then changing nothing), and AddView bumps the count |
| Aggregates.RunInvariants | src/BookManagement.Domain/Entities/Books/Book.cs:51-124 | over any sequence of operations: the id is constant, deletion is permanent, events are only appended, one per successful operation, all about this book |
| Aggregates.RunCountsViews | src/BookManagement.Domain/Entities/Books/Book.cs:80-87 | without overflow, the view count is the starting count plus the number of AddView calls |
| Aggregates.SoftDeleteTwice | src/BookManagement.Domain/Entities/Books/Book.cs:110-124 | the first SoftDelete succeeds; a second fails with Book.AlreadyDeleted and leaves the book unchanged |
| Aggregates.Book.Init | src/BookManagement.Domain/Entities/Books/Book.cs:16-26 | a new book holds the given id, title, year and author, with zero views, not deleted, no events |
| Aggregates.Book.Create | src/BookManagement.Domain/Entities/Books/Book.cs:51-71 | fails with Book.InvalidData iff title, year or author is null; otherwise a fresh book in the created state with one BookCreated event |
| Aggregates.Book.AddView | src/BookManagement.Domain/Entities/Books/Book.cs:80-87 | the new state is Apply(old state, View): count incremented with int wrap-around, BookViewed raised with the new count |
| Aggregates.Book.UpdateDetails | src/BookManagement.Domain/Entities/Books/Book.cs:92-105 | the new state and result are those of Apply(old state, Update): details replaced, BookUpdated raised, always success |
| Aggregates.Book.SoftDelete | src/BookManagement.Domain/Entities/Books/Book.cs:110-124 | the new state and result are those of Apply(old state, Delete) |
| Users.RemoveFirstDistinct | src/BookManagement.Domain/Entities/Users/User.cs:155 | List.Remove on a duplicate-free list keeps it duplicate-free and removes the role entirely |
| Users.WithRoleDistinct | src/BookManagement.Domain/Entities/Users/User.cs:129-130 | adding a role only when absent keeps the list duplicate-free, and its members are the old ones plus the role |
| Users.RegisterFacts | src/BookManagement.Domain/Entities/Users/User.cs:57-85 | a new user holds what it was given, is in the role iff the role name is not blank, holds no other role, and has raised exactly one UserRegistered event for its id |
| Users.ChangeNameFacts | src/BookManagement.Domain/Entities/Users/User.cs:94-115 | both names are set; a UserNameChanged event is raised iff a name differs; repeating the call changes nothing |
| Users.RoleChangesKeepDistinct | src/BookManagement.Domain/Entities/Users/User.cs:121-160 | AssignRole and RemoveRole keep the role list free of duplicates |
| Users.AssignRoleFacts | src/BookManagement.Domain/Entities/Users/User.cs:121-133 | fails with User.InvalidRoleName iff the name is blank, changing nothing; otherwise the user holds exactly the old roles plus this one, and a repeat is a no-op |
| Users.RemoveRoleFacts | src/BookManagement.Domain/Entities/Users/User.cs:135-160 | blank name fails first, then an unheld role fails with RoleNotAssigned(role id), both changing nothing; a removal drops only this role, and removing again fails |
| Users.AssignThenRemove | src/BookManagement.Domain/Entities/Users/User.cs:121-160 | assigning a role not held and then removing it restores the role list exactly |
| Users.UpdateNameFacts | src/BookManagement.Domain/Entities/Users/User.cs:164-168 | completes iff both names are valid; an invalid first name changes nothing; a valid first name is stored even when the last name then throws; no event is raised |
| Users.User.Init | src/BookManagement.Domain/Entities/Users/User.cs:22-32 | a new user holds the given email, hash and names, no roles, no events |
| Users.User.Create | src/BookManagement.Domain/Entities/Users/User.cs:57-85 | the new user's state is Register(...): the role assigned through AssignRole, then one UserRegistered event |
| Users.User.ChangeName | src/BookManagement.Domain/Entities/Users/User.cs:94-115 | the new state is NameChanged(old state, ...), roles untouched |
| Users.User.AssignRole | src/BookManagement.Domain/Entities/Users/User.cs:121-133 | the new state and result are RoleAssigned(old state, role); the role list stays duplicate-free |
| Users.User.RemoveRole | src/BookManagement.Domain/Entities/Users/User.cs:135-160 | the new state and result are RoleRemoved(old state, role); the role list stays duplicate-free |
| Users.User.UpdateName | src/BookManagement.Domain/Entities/Users/User.cs:164-168 | the new state, and whether the call returns normally, are those of NameUpdated(old state, ...) |
| Users.LegacyUser.Create | src/BookManagement.Domain/Entities/User.cs:51-79 | the user holds the given id, email, hash and names, with exactly one UserRegistered event |
| Users.LegacyUser.ChangeName | src/BookManagement.Domain/Entities/User.cs:88-109 | both names set, other fields kept, one UserNameChanged event appended iff a name differs |
| Persistence.FlattenCount | src/BookManagement.Persistence/UnitOfWork.cs:52-57 | SelectMany over the aggregates yields as many events as the lists hold together |
| Persistence.FlattenPrefix | src/BookManagement.Persistence/UnitOfWork.cs:49-57 | drained events come aggregate by aggregate, each aggregate's in its own order |
| Persistence.NothingPending | src/BookManagement.Persistence/UnitOfWork.cs:36-38 | once every aggregate has been cleared, nothing is left for the save hook to convert |
| Persistence.ToMessagesFacts | src/BookManagement.Persistence/UnitOfWork.cs:58-69 | one row per event with the fresh id, the concrete type name, the serialised content and the save time, unprocessed, no error; with a round-tripping serialiser the content reads back as the event |
| Persistence.StampFacts | src/BookManagement.Persistence/UnitOfWork.cs:83-93 | added auditable entries get CreatedOnUtc, modified ones ModifiedOnUtc, all else unchanged; stamping is idempotent |
| Persistence.AssignIdFacts | src/BookManagement.Persistence/Interceptors/GenerateIdInterceptor.cs:18-28 | an added entry with a Guid id that is null or empty gets the version-7 id, never Guid.Empty; every other entry and field is kept; a second pass changes nothing |
| Persistence.StageMessages | src/BookManagement.Persistence/Interceptors/ConvertDomainEventsToOutboxMessagesInterceptor.cs:53-64 | appending one aggregate's rows gives the rows of all events so far |
| Persistence.DbContext.ConvertDomainEventsToOutboxMessages | src/BookManagement.Persistence/UnitOfWork.cs:47-72 | the outbox gains exactly the rows of all pending events, in aggregate then event order, and every aggregate is drained |
| Persistence.DbContext.UpdateAuditableEntities | src/BookManagement.Persistence/UnitOfWork.cs:77-94 | every entry is stamped as Stamp describes |
| Persistence.DbContext.GenerateIds | src/BookManagement.Persistence/Interceptors/GenerateIdInterceptor.cs:18-30 | every entry is processed as AssignId describes |
| Persistence.DbContext.SaveChanges | src/BookManagement.App/Configurations/PersistenceServiceInstaller.cs:24-27 | the interceptors run in registration order: conversion then ids; the ledger is untouched; one write |
| Persistence.ConvertOnSavingChanges | src/BookManagement.Persistence/Interceptors/ConvertDomainEventsToOutboxMessagesInterceptor.cs:22-75 | with no context nothing happens; otherwise pending events become new rows and the aggregates are drained, nothing else changes |
| Persistence.GenerateIdOnSavingChanges | src/BookManagement.Persistence/Interceptors/GenerateIdInterceptor.cs:9-32 | with no context nothing happens; otherwise only the entries change, as AssignIds describes |
| Persistence.UnitOfWork.SaveChanges | src/BookManagement.Persistence/UnitOfWork.cs:34-39 | each pending event ends up in exactly one new row (the hook finds nothing left); entries are stamped, then given ids; one write |
| OutboxJob.FirstUnprocessedIsBatch | src/BookManagement.Infrastructure/BackgroundJobs/ProcessOutboxMessagesJob.cs:33-37 | the first unprocessed rows in table order, up to 20, are a valid answer to the batch query |
| OutboxJob.BatchBounds | src/BookManagement.Infrastructure/BackgroundJobs/ProcessOutboxMessagesJob.cs:33-37 | a batch has at most 20 rows and is empty only when no row is unprocessed |
| OutboxJob.CaptureFacts | src/BookManagement.Infrastructure/BackgroundJobs/ProcessOutboxMessagesJob.cs:44-47 | the retry policy makes 1 to retries+1 attempts, stops at the first success, captures no exception iff an attempt succeeded, else the last attempt's |
| OutboxJob.JobPolicyBound | src/BookManagement.Infrastructure/BackgroundJobs/ProcessOutboxMessagesJob.cs:44-47 | WaitAndRetryAsync(3): at most four attempts; no error iff one of them succeeds, else the fourth attempt's error |
| OutboxJob.RunBatchPointwise | src/BookManagement.Infrastructure/BackgroundJobs/ProcessOutboxMessagesJob.cs:50-74 | after handling the first n batch rows, each of them is its own row handled once, and every other row is unchanged |
| OutboxJob.FirstThrowing | src/BookManagement.Infrastructure/BackgroundJobs/ProcessOutboxMessagesJob.cs:50-58 | the result is the first batch position whose content makes the deserialiser throw, or the batch size when none does |
| OutboxJob.PublishedAttempts | src/BookManagement.Infrastructure/BackgroundJobs/ProcessOutboxMessagesJob.cs:44-47 | every event handed to the publisher was attempted at least once and at most retries + 1 times |
| OutboxJob.LastSaved | src/BookManagement.Infrastructure/Idempotence/IdempotentDomainEventHandler.cs:55-63 | the position of the last row before n whose publication made a handler save the shared context, or 0: no later row saved |
| OutboxJob.ThrownTableRows | src/BookManagement.Infrastructure/BackgroundJobs/ProcessOutboxMessagesJob.cs:50-79 | after a throw, exactly the batch rows before the last handler save are in the table as handled; later rows and rows outside the batch are as they were |
| OutboxJob.QuietHandlersKeepTable | src/BookManagement.Infrastructure/BackgroundJobs/ProcessOutboxMessagesJob.cs:50-79 | when no handler saves the shared context, a throw leaves the table unchanged and a run without a throw saves exactly once |
| OutboxJob.Execute | src/BookManagement.Infrastructure/BackgroundJobs/ProcessOutboxMessagesJob.cs:28-80 | the publisher receives the deserialised events of the rows before the first throwing row, in batch order, with their attempt counts; each handler save writes the rows marked so far; a throwing row ends the run with its exception before the final save, leaving the table as the last handler save wrote it; otherwise the table becomes RunBatch of the batch, after the handlers' saves and one final save |
| OutboxJob.ExecuteKeepsOthers | src/BookManagement.Infrastructure/BackgroundJobs/ProcessOutboxMessagesJob.cs:50-74 | rows outside the batch are unchanged |
| OutboxJob.ExecuteRows | src/BookManagement.Infrastructure/BackgroundJobs/ProcessOutboxMessagesJob.cs:60-73 | a row whose content reads back as an event is marked processed at `now` with the policy's error; one that reads back as null is skipped and stays as it was |
| OutboxJob.ExecuteKeepsMessages | src/BookManagement.Infrastructure/BackgroundJobs/ProcessOutboxMessagesJob.cs:69-73 | in every row only Error and ProcessedOnUtc can change |
| OutboxJob.ExecuteShrinksUnprocessed | src/BookManagement.Infrastructure/BackgroundJobs/ProcessOutboxMessagesJob.cs:60-73 | the unprocessed rows shrink by exactly the batch rows that deserialise, whether publishing failed or not |
| OutboxJob.RoundTripPublishesAll | src/BookManagement.Infrastructure/BackgroundJobs/ProcessOutboxMessagesJob.cs:53-67 | rows staged by the conversion hook, read back with a round-tripping serialiser: none throws, all are processed, and their own events are published in batch order, each with its attempt count |
| OutboxJob.PublishedAll | src/BookManagement.Infrastructure/BackgroundJobs/ProcessOutboxMessagesJob.cs:50-67 | when every row reads back as its own event, the publisher receives the batch rows' events in batch order, each with its attempt count |
| Idempotence.DeliverFacts | src/BookManagement.Infrastructure/Idempotence/IdempotentDomainEventHandler.cs:36-63 | the handler runs iff the (event, handler) pair is not recorded; the pair is recorded iff it ran and did not throw |
| Idempotence.CompletionsFresh | src/BookManagement.Infrastructure/Idempotence/IdempotentDomainEventHandler.cs:36-41 | no handler completes for an event already in the starting ledger |
| Idempotence.CompletionsDistinct | src/BookManagement.Persistence/Outbox/Configurations/OutboxMessageConsumerConfiguration.cs:19-23 | over any deliveries, each (event, handler) pair completes at most once |
| Idempotence.ReplayAddsCompletions | src/BookManagement.Infrastructure/Idempotence/IdempotentDomainEventHandler.cs:55-63 | the final ledger is the initial one plus exactly the completed pairs |
| Idempotence.ReplayFacts | src/BookManagement.Infrastructure/Idempotence/IdempotentDomainEventHandler.cs:25-66 | exactly-once completion over any delivery sequence: distinct completions, none already recorded, ledger = initial plus completions |
| Idempotence.NoCallsWhenRecorded | src/BookManagement.Infrastructure/Idempotence/IdempotentDomainEventHandler.cs:36-48 | the decorated handler is never called for an event recorded for it |
| Idempotence.ReplayGrows | src/BookManagement.Infrastructure/Idempotence/IdempotentDomainEventHandler.cs:55-60 | the ledger only grows |
| Idempotence.DeliverTwice | src/BookManagement.Infrastructure/Idempotence/IdempotentDomainEventHandler.cs:36-41 | after a completed delivery, redelivering the same event to the same handler does nothing |
| Idempotence.RetryAfterFailure | src/BookManagement.Infrastructure/Idempotence/IdempotentDomainEventHandler.cs:48-60 | a handler that threw left nothing recorded, so a redelivery runs it again |
| Idempotence.Handle | src/BookManagement.Infrastructure/Idempotence/IdempotentDomainEventHandler.cs:25-66 | the ledger and outcome are Deliver's; only a completed call saves, running the save hooks; otherwise the context is unchanged |
| SequentialGuid.ReverseLittleEndian | src/BookManagement.Persistence/Generators/SequentialGuidValueGenerator.cs:16-17 | reversing the little-endian bytes gives the big-endian bytes |
| SequentialGuid.TimestampBigEndian | src/BookManagement.Persistence/Generators/SequentialGuidValueGenerator.cs:14-17 | on either host byte order, the timestamp after the conditional reversal is the tick count most significant byte first |
| SequentialGuid.BigEndianOrdered | src/BookManagement.Persistence/Generators/SequentialGuidValueGenerator.cs:20 | below 256^n, a smaller number has a lexicographically smaller big-endian encoding |
| SequentialGuid.LowSixBytes | src/BookManagement.Persistence/Generators/SequentialGuidValueGenerator.cs:20 | bytes 2..7 of the eight timestamp bytes are the big-endian low 48 bits of the tick count |
| SequentialGuid.Reverse | src/BookManagement.Persistence/Generators/SequentialGuidValueGenerator.cs:17 | Array.Reverse leaves the array holding its old contents reversed |
| SequentialGuid.Copy | src/BookManagement.Persistence/Generators/SequentialGuidValueGenerator.cs:20 | Array.Copy overwrites exactly the target range with the source range |
| SequentialGuid.TimestampBytes | src/BookManagement.Persistence/Generators/SequentialGuidValueGenerator.cs:14-17 | a fresh 8-byte array holding the tick count big-endian |
| SequentialGuid.Next | src/BookManagement.Persistence/Generators/SequentialGuidValueGenerator.cs:10-22 | the id is the random Guid's first ten bytes followed by the low 48 bits of the ticks big-endian, independent of host byte order |
| SequentialGuid.SplicedBefore | src/BookManagement.Persistence/Generators/SequentialGuidValueGenerator.cs:19-20 | ids compare on bytes 10..15 as the low 48 bits of their tick counts compare |
| SequentialGuid.SplicedOrdered | src/BookManagement.Persistence/Generators/SequentialGuidValueGenerator.cs:12-21 | an id generated later, within the same 2^48-tick window, sorts after an earlier one on bytes 10..15 |
| SequentialGuid.SplicedWraps | src/BookManagement.Persistence/Generators/SequentialGuidValueGenerator.cs:19-20 | at every multiple of 2^48 ticks the order wraps: the new id sorts before the one generated a tick earlier |
| BulkCommands.BookRepository.ExistsByTitle | src/BookManagement.Persistence/Books/Repositories/BookRepository.cs:16-21 | true iff a saved book (deleted or not) has the title |
| BulkCommands.BookRepository.GetById | src/BookManagement.Persistence/Books/Repositories/BookRepository.cs:33-37 | the tracked book for a saved, not-deleted id, and null otherwise |
| BulkCommands.BookRepository.Add | src/BookManagement.Persistence/Books/Repositories/BookRepository.cs:11-14 | the book is queued for insertion after the earlier ones |
| BulkCommands.BookRepository.Update | src/BookManagement.Persistence/Books/Repositories/BookRepository.cs:39-43 | the book is queued for update after the earlier ones |
| BulkCommands.CheckItemFacts | src/BookManagement.Application/Books/Commands/AddBooksBulk/AddBooksBulkCommandHandler.cs:26-54 | a requested book passes iff its title is not saved and title, author and year are all valid; a saved title is reported first |
| BulkCommands.FirstFailingFacts | src/BookManagement.Application/Books/Commands/AddBooksBulk/AddBooksBulkCommandHandler.cs:24-54 | every book before the first failing position passes, and the book there fails |
| BulkCommands.FirstFailingIs | src/BookManagement.Application/Books/Commands/AddBooksBulk/AddBooksBulkCommandHandler.cs:24-54 | conversely, a position with every earlier book passing and this one failing (or the end) is the first failing position |
| BulkCommands.CheckBook | src/BookManagement.Application/Books/Commands/AddBooksBulk/AddBooksBulkCommandHandler.cs:26-54 | the checks in the handler's order give CheckItem's error; when all pass the value objects hold the inputs |
| BulkCommands.CreateAndAdd | src/BookManagement.Application/Books/Commands/AddBooksBulk/AddBooksBulkCommandHandler.cs:60-70 | a fresh book in the created state with the given id is queued for insertion |
| BulkCommands.AddBooksBulk | src/BookManagement.Application/Books/Commands/AddBooksBulk/AddBooksBulkCommandHandler.cs:18-78 | fails iff some book fails, with the first failing book's error; the books before it are created and queued in order; success returns the new ids in order and saves once; failure does not save |
| BulkCommands.DuplicateTitleAccepted | src/BookManagement.Application/Books/Commands/AddBooksBulk/AddBooksBulkCommandHandler.cs:27-31 | the existence check sees only saved titles, so a request naming the same new title twice passes both checks |
| BulkCommands.FirstMissing | src/BookManagement.Application/Books/Commands/SoftDeleteBooksBulk/SoftDeleteBooksBulkCommandHandler.cs:19-26 | every id before the result is found, and the id at the result is not |
| BulkCommands.DeleteOne | src/BookManagement.Application/Books/Commands/SoftDeleteBooksBulk/SoftDeleteBooksBulkCommandHandler.cs:28-30 | the book ends deleted and queued for update; the stored states change only at its id, to SoftDelete of the old state; every stored book stays valid and tracked |
| BulkCommands.DeleteEachUnchanged | src/BookManagement.Application/Books/Commands/SoftDeleteBooksBulk/SoftDeleteBooksBulkCommandHandler.cs:19-31 | deleting the first k ids in order leaves every book whose id is not among them as it was |
| BulkCommands.DeleteEachDeleted | src/BookManagement.Application/Books/Commands/SoftDeleteBooksBulk/SoftDeleteBooksBulkCommandHandler.cs:19-31 | deleting the first k ids in order leaves the stored book of each of them deleted |
| BulkCommands.DeleteEachFirst | src/BookManagement.Application/Books/Commands/SoftDeleteBooksBulk/SoftDeleteBooksBulkCommandHandler.cs:19-31 | the book of an id among the first k ends as its old state soft-deleted with the event id of the id's first position; a repeated id fails on the deleted book and changes nothing |
| BulkCommands.DeleteEachSummary | src/BookManagement.Application/Books/Commands/SoftDeleteBooksBulk/SoftDeleteBooksBulkCommandHandler.cs:19-31 | DeleteEachUnchanged and DeleteEachFirst for every id and position together |
| BulkCommands.DeleteStep | src/BookManagement.Application/Books/Commands/SoftDeleteBooksBulk/SoftDeleteBooksBulkCommandHandler.cs:21-30 | the k-th id is found iff it is stored; when found, the loop's progress extends to k + 1 ids; when not, nothing changes and k is the first missing position |
| BulkCommands.FoundDeleted | src/BookManagement.Application/Books/Commands/SoftDeleteBooksBulk/SoftDeleteBooksBulkCommandHandler.cs:19-31 | after the loop, each of the first k ids is stored, its book is the k-th queued one and it is deleted |
| BulkCommands.DeleteFound | src/BookManagement.Application/Books/Commands/SoftDeleteBooksBulk/SoftDeleteBooksBulkCommandHandler.cs:19-31 | stops at the first missing id; every book before it is the stored book for its id, soft-deleted and queued for update in order; the stored states become DeleteEach of the old ones; every stored book stays valid and tracked |
| BulkCommands.SoftDeleteBooksBulk | src/BookManagement.Application/Books/Commands/SoftDeleteBooksBulk/SoftDeleteBooksBulkCommandHandler.cs:13-36 | fails with Book.NotFound(first missing id) iff some id is missing, without saving; the books found before it are deleted and queued; each such book's state is its old state soft-deleted with the event id of its id's first position, and every other stored book's state is unchanged; otherwise saves once and succeeds |

## Left out

- The JSON serialiser with type-name handling is a pair of functions. Reading content back gives an event, null, or an exception with its text. Whether it round-trips is a stated assumption, not something proved about Newtonsoft.Json.
- The clock, Guid.NewGuid, Guid.CreateVersion7 and the host's byte order are parameters. The model assumes one `now` per save.
- Three things stay outside the model: Polly's delays between attempts, Quartz scheduling and DisallowConcurrentExecution, and cancellation tokens. Only the number and outcome of publish attempts are modelled.
- The store's answer to the unordered `Take(20)` query is a parameter constrained by `IsBatch`. Every answer the query may give is covered.
- Database transactions, EF Core change tracking and the SQL behind the queries are not modelled. A save is one atomic step, and a change-tracker entry is not linked to the aggregate object it tracks.
- BookRepository's two lookups read separate state:
  - `ExistsByTitle` reads the titles of the saved books, deleted ones included.
  - `GetById` reads the saved, not-deleted books.
  - The request's own queued books are visible to neither.
  - Both are constant fields, because the saved rows do not change while a request runs.
  - The context hands out one tracked object per row: distinct ids give distinct books with distinct aggregate roots (`BookRepository.Valid`).
  - A ghost map `states` holds each stored book's state (`BookRepository.Tracks`). The delete members state what happens to every stored book through it.
- The bulk handlers' unit of work is a save counter, `UnitOfWorkLog`. What a save writes is modelled by `Persistence.UnitOfWork.SaveChanges`.
- Source files that are not part of this model:
  - UpdateAuditableEntitiesInterceptor.cs. It is registered between the two save interceptors, so `DbContext.SaveChanges` runs only event conversion and id generation.
  - AggregateRoot.cs and Entity.cs. Aggregates reach the event list through a `root` object: composition in place of the base class. The entity id is a parameter.
  - `Persistence.DbContext.ConvertDomainEventsToOutboxMessages` assumes that GetDomainEvents returns a copy of the event list. The drain reads each aggregate's events as a value before ClearDomainEvents. The source enumerates them lazily after the clear (UnitOfWork.cs:54-56), so a live list would make the drain produce no rows. The same assumption underlies ToMessagesFacts, FlattenCount and UnitOfWork.SaveChanges.
  - The value objects of the older User entity's namespace. That entity reuses the Users value objects.
- The source declares BookCreatedDomainEvent with two fields, but Book.Create passes the title as a third argument. The model follows Book.Create and gives BookCreated a title.
- `WaitAndRetryAsync(3)` retries three times after the first attempt. The model follows the code: up to four attempts, not three.
- Role equality is taken as structural: id and name. Enumeration.cs, which defines it for Role, is not part of this model.
- CalculatePopularityScore is left out because it is floating-point arithmetic.
- The FluentValidation validators of the commands and the queries are outside the modelled core.
- Strings are sequences of characters. .NET strings are UTF-16 code units, so lengths agree only for text in the Basic Multilingual Plane.
- Null inputs are modelled only where the code tests for them: the arguments of Book.Create become `Option`. The null-conditional `email?.Value` is not modelled.
- `Users.User.UpdateName`: reading `Value` of a failed `Create` throws. This becomes `completed == false`, with the first name kept when only the last name fails.
- `Idempotence.Handle`: the decorated handler's own effects are not modelled. Only whether it throws is.
- `OutboxJob.Execute`: the handlers' saves through the shared context are modelled only as `handlerSaves(p)` writes of the job's rows. The consumer-ledger rows they add and their own entities are not modelled, and `ctx.consumers` is outside Execute's frame. One delivery's ledger update is `Idempotence.Handle`.
- `SequentialGuid.Next` requires a tick count no larger than DateTime's maximum. It models the Guid as the 16 bytes of `ToByteArray`.
- `SequentialGuid.GeneratesTemporaryValues` is a constant and has no contract of its own.
- `Aggregates.Book.Create` takes the event id as a parameter rather than calling Guid.NewGuid, and likewise every method that raises an event.
- `Users.User.Create` takes the aggregate's id as a parameter, because AggregateRoot's parameterless constructor is not part of this model.

## Findings

| source | as written | input that shows it | evidently intended | confidence | as-written member | corrected member |
|---|---|---|---|---|---|---|
| src/BookManagement.Domain/Errors/DomainErrors.cs:69-71 | FirstName.TooLong is declared with code "LastName.TooLong" | a 51-character first name: FirstName.Create returns an error whose code is "LastName.TooLong", the same code as for a too-long last name | code "FirstName.TooLong" | not executed | Shared.CodeAsWrittenClash | Shared.CodesIdentifyErrors |
