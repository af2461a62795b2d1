/**
  The persistence side of the domain-event pipeline: the database context with
  its tracked aggregates and entity entries, the outbox table and the consumer
  ledger; the commit hooks that drain events into outbox rows, stamp audit
  fields and assign ids; and the unit of work that runs them before saving.

  The clock, fresh Guids and the JSON serialiser are parameters.
 */
module Persistence {
  import opened Shared
  import opened DomainEvents
  import opened Aggregates

  // ---------------------------------------------------------------- rows and entries

  /** A row of the outbox table. */
  datatype OutboxMessage = OutboxMessage(
    id: Guid,
    typeName: string,
    content: string,
    occurredOnUtc: int,
    processedOnUtc: Option<int>,
    error: Option<string>)

  /** A row of the consumer ledger; (eventId, name) is its composite key. */
  datatype ConsumerKey = ConsumerKey(eventId: Guid, name: string)

  datatype EntityState = Detached | Unchanged | Deleted | Modified | Added

  /**
    The Id property of a tracked entry.  GuidKey is an Entity whose Id is
    Guid-typed (possibly null); OtherKey is an Entity with an Id of another CLR
    type.  Only Entity entries are modelled, as the id hook visits only those.
   */
  datatype EntityKey = GuidKey(guid: Option<Guid>) | OtherKey(other: int)

  /** A change-tracker entry of an entity; `auditable` marks entities that carry audit timestamps. */
  datatype Entry = Entry(
    state: EntityState,
    key: EntityKey,
    auditable: bool,
    createdOnUtc: int,
    modifiedOnUtc: Option<int>)

  // ---------------------------------------------------------------- draining events

  /** The pending events of each tracked aggregate, in tracking order. */
  function EventLists(aggs: seq<AggregateRoot>): (lists: seq<seq<DomainEvent>>)
    reads aggs
    ensures |lists| == |aggs|
    ensures forall k :: 0 <= k < |aggs| ==> lists[k] == aggs[k].domainEvents
  {
    seq(|aggs|, k reads aggs requires 0 <= k < |aggs| => aggs[k].domainEvents)
  }

  /** SelectMany: the lists one after the other. */
  function Flatten(xss: seq<seq<DomainEvent>>): seq<DomainEvent>
    decreases |xss|
  {
    if xss == [] then [] else Flatten(xss[..|xss| - 1]) + xss[|xss| - 1]
  }

  /** Every pending event of the tracked aggregates, aggregate by aggregate. */
  function Pending(aggs: seq<AggregateRoot>): seq<DomainEvent>
    reads aggs
  {
    Flatten(EventLists(aggs))
  }

  /** The total number of events, counted list by list from the front. */
  function TotalCount(xss: seq<seq<DomainEvent>>): nat
    decreases |xss|
  {
    if xss == [] then 0 else |xss[0]| + TotalCount(xss[1..])
  }

  lemma {:induction false} FlattenCons(x: seq<DomainEvent>, xss: seq<seq<DomainEvent>>)
    ensures Flatten([x] + xss) == x + Flatten(xss)
    decreases |xss|
  {
    if xss != [] {
      var w := [x] + xss;
      assert w[..|w| - 1] == [x] + xss[..|xss| - 1];
      FlattenCons(x, xss[..|xss| - 1]);
    } else {
      assert [x] + xss == [x];
      assert [x][..0] == [];
    }
  }

  /** One outbox row per pending event: the drained sequence is as long as all the lists together. */
  lemma {:induction false} FlattenCount(xss: seq<seq<DomainEvent>>)
    ensures |Flatten(xss)| == TotalCount(xss)
    decreases |xss|
  {
    if xss != [] {
      FlattenCount(xss[1..]);
      FlattenCons(xss[0], xss[1..]);
      assert [xss[0]] + xss[1..] == xss;
    }
  }

  /**
    Aggregate order, then event order: the events of the aggregates before
    position i come first, followed by exactly the events of aggregate i.
   */
  lemma {:induction false} FlattenPrefix(xss: seq<seq<DomainEvent>>, i: nat)
    requires i <= |xss|
    ensures |Flatten(xss[..i])| <= |Flatten(xss)|
    ensures Flatten(xss)[..|Flatten(xss[..i])|] == Flatten(xss[..i])
    ensures i < |xss| ==> Flatten(xss[..i + 1]) == Flatten(xss[..i]) + xss[i]
    decreases |xss| - i
  {
    if i == |xss| {
      assert xss[..i] == xss;
    } else {
      assert xss[..i + 1][..i] == xss[..i];
      FlattenPrefix(xss, i + 1);
      var p := Flatten(xss[..i]);
      var q := Flatten(xss[..i + 1]);
      assert q == p + xss[i];
      assert Flatten(xss)[..|p|] == q[..|p|];
    }
  }

  /** Once every list is empty, there is nothing left to drain. */
  lemma {:induction false} FlattenEmpty(xss: seq<seq<DomainEvent>>)
    requires forall k :: 0 <= k < |xss| ==> xss[k] == []
    ensures Flatten(xss) == []
    decreases |xss|
  {
    if xss != [] {
      FlattenEmpty(xss[..|xss| - 1]);
    }
  }

  /** Every aggregate's pending-event list is empty. */
  ghost predicate Drained(aggs: seq<AggregateRoot>)
    reads aggs
  {
    forall a :: a in aggs ==> a.domainEvents == []
  }

  /** Once every tracked aggregate has been cleared, nothing is pending. */
  lemma NothingPending(aggs: seq<AggregateRoot>)
    requires Drained(aggs)
    ensures Pending(aggs) == []
  {
    FlattenEmpty(EventLists(aggs));
  }

  /** The outbox row staged for one event. */
  function ToMessage(e: DomainEvent, id: Guid, now: int, codec: Codec): OutboxMessage {
    OutboxMessage(id, TypeName(e), codec.serialize(e), now, None, None)
  }

  /**
    The rows staged for a sequence of events.  Guid.NewGuid is an oracle:
    `newId(k)` is the Guid it returns for the k-th row of this save.
   */
  function ToMessages(events: seq<DomainEvent>, newId: nat -> Guid, now: int, codec: Codec): seq<OutboxMessage> {
    seq(|events|, k requires 0 <= k < |events| => ToMessage(events[k], newId(k), now, codec))
  }

  /**
    What a staged row holds: the fresh id, the concrete type name and the
    type-tagged content of its event, the time of the save, and no processing
    result yet.  With a serialiser that round-trips, the content reads back as
    the very event.
   */
  lemma ToMessagesFacts(events: seq<DomainEvent>, newId: nat -> Guid, now: int, codec: Codec)
    ensures var ms := ToMessages(events, newId, now, codec);
      && |ms| == |events|
      && forall k :: 0 <= k < |ms| ==>
           && ms[k].id == newId(k)
           && ms[k].typeName == TypeName(events[k])
           && ms[k].content == codec.serialize(events[k])
           && ms[k].occurredOnUtc == now
           && ms[k].processedOnUtc.None?
           && ms[k].error.None?
           && (RoundTrips(codec) ==> codec.deserialize(ms[k].content) == Decoded(events[k]))
  {
  }

  lemma ToMessagesSnoc(events: seq<DomainEvent>, e: DomainEvent, newId: nat -> Guid, now: int, codec: Codec)
    ensures ToMessages(events + [e], newId, now, codec)
         == ToMessages(events, newId, now, codec) + [ToMessage(e, newId(|events|), now, codec)]
  {
  }

  // ---------------------------------------------------------------- audit timestamps and ids

  /** One entry after UpdateAuditableEntities: Added gets CreatedOnUtc, Modified gets ModifiedOnUtc. */
  function Stamp(e: Entry, now: int): Entry {
    if !e.auditable then e
    else if e.state == Added then e.(createdOnUtc := now)
    else if e.state == Modified then e.(modifiedOnUtc := Some(now))
    else e
  }

  lemma StampFacts(e: Entry, now: int)
    ensures var s := Stamp(e, now);
      && s.state == e.state && s.key == e.key && s.auditable == e.auditable
      && (e.auditable && e.state == Added ==> s.createdOnUtc == now && s.modifiedOnUtc == e.modifiedOnUtc)
      && (e.auditable && e.state == Modified ==> s.modifiedOnUtc == Some(now) && s.createdOnUtc == e.createdOnUtc)
      && (!e.auditable || (e.state != Added && e.state != Modified) ==> s == e)
      && Stamp(s, now) == s
  {
  }

  /** Guid.CreateVersion7: the version nibble, the high half of byte 7 in Guid.ToByteArray order, is 7. */
  predicate IsVersion7(g: Guid) {
    g[7] as int / 16 == 7
  }

  /** An entry that the id hook fills in: Added, Guid-typed, and null or Guid.Empty. */
  predicate NeedsId(e: Entry) {
    e.state == Added && e.key.GuidKey? && (e.key.guid.None? || e.key.guid == Some(EmptyGuid))
  }

  function AssignId(e: Entry, newId: Guid): Entry {
    if NeedsId(e) then e.(key := GuidKey(Some(newId))) else e
  }

  /**
    An entry that needs an id gets the fresh version-7 id, which is never
    Guid.Empty; every other entry, and every other field, is left alone; and a
    second pass changes nothing.
   */
  lemma AssignIdFacts(e: Entry, newId: Guid, again: Guid)
    requires IsVersion7(newId)
    ensures var r := AssignId(e, newId);
      && r.state == e.state && r.auditable == e.auditable
      && r.createdOnUtc == e.createdOnUtc && r.modifiedOnUtc == e.modifiedOnUtc
      && (NeedsId(e) ==> r.key == GuidKey(Some(newId)) && r.key.guid.value != EmptyGuid)
      && (!NeedsId(e) ==> r == e)
      && !NeedsId(r)
      && AssignId(r, again) == r
  {
    assert newId[7] != EmptyGuid[7];
  }

  /**
    Select: turns the events of one aggregate into rows, one at a time, after
    the rows already staged for the events before them.
   */
  method StageMessages(staged: seq<OutboxMessage>, ghost before: seq<DomainEvent>, events: seq<DomainEvent>,
                       newId: nat -> Guid, now: int, codec: Codec)
    returns (r: seq<OutboxMessage>)
    requires staged == ToMessages(before, newId, now, codec)
    ensures r == ToMessages(before + events, newId, now, codec)
  {
    r := staged;
    var j := 0;
    while j < |events|
      invariant 0 <= j <= |events|
      invariant r == ToMessages(before + events[..j], newId, now, codec)
    {
      assert before + events[..j + 1] == (before + events[..j]) + [events[j]];
      ToMessagesSnoc(before + events[..j], events[j], newId, now, codec);
      r := r + [ToMessage(events[j], newId(|r|), now, codec)];
      j := j + 1;
    }
    assert events[..j] == events;
  }

  /** UpdateAuditableEntities over all tracked entries. */
  function StampAll(es: seq<Entry>, now: int): (r: seq<Entry>)
    ensures |r| == |es|
  {
    seq(|es|, k requires 0 <= k < |es| => Stamp(es[k], now))
  }

  /** The id hook over all tracked entries, the k-th entry offered the k-th fresh id. */
  function AssignIds(es: seq<Entry>, ids: seq<Guid>): (r: seq<Entry>)
    requires |ids| == |es|
    ensures |r| == |es|
  {
    seq(|es|, k requires 0 <= k < |es| => AssignId(es[k], ids[k]))
  }

  // ---------------------------------------------------------------- the context

  class DbContext {
    /** The aggregate roots in the change tracker. */
    const aggregates: seq<AggregateRoot>
    /** The change tracker's entity entries. */
    var entries: seq<Entry>
    /** The OutboxMessages table, saved rows and rows staged in this context alike. */
    var outbox: seq<OutboxMessage>
    /** The OutboxMessageConsumers table. */
    var consumers: set<ConsumerKey>
    /** How many times the changes were written to the database. */
    var saveCount: nat

    /** The change tracker holds each aggregate once. */
    ghost predicate Valid()
      reads this
    {
      Distinct(aggregates)
    }

    constructor (aggregates: seq<AggregateRoot>, entries: seq<Entry>, outbox: seq<OutboxMessage>, consumers: set<ConsumerKey>)
      ensures this.aggregates == aggregates && this.entries == entries
      ensures this.outbox == outbox && this.consumers == consumers && saveCount == 0
    {
      this.aggregates, this.entries := aggregates, entries;
      this.outbox, this.consumers := outbox, consumers;
      saveCount := 0;
    }

    /**
      Drains every tracked aggregate's events into new outbox rows: events are
      read and cleared aggregate by aggregate, each becomes one row, and the
      rows are appended to the outbox at the end.  GetDomainEvents is taken
      to return a copy of the list: the source enumerates it only after
      ClearDomainEvents, and a live list would be empty by then.
     */
    method ConvertDomainEventsToOutboxMessages(now: int, newId: nat -> Guid, codec: Codec)
      requires Valid()
      modifies this`outbox, aggregates
      ensures outbox == old(outbox) + ToMessages(old(Pending(aggregates)), newId, now, codec)
      ensures Drained(aggregates)
    {
      var aggs := aggregates;
      ghost var lists := EventLists(aggs);
      ghost var all := Pending(aggs);
      var staged: seq<OutboxMessage> := [];
      var i := 0;
      while i < |aggs|
        invariant 0 <= i <= |aggs|
        invariant outbox == old(outbox)
        invariant forall k :: 0 <= k < i ==> aggs[k].domainEvents == []
        invariant forall k :: i <= k < |aggs| ==> aggs[k].domainEvents == lists[k]
        invariant staged == ToMessages(Flatten(lists[..i]), newId, now, codec)
      {
        assert lists[..i + 1][..i] == lists[..i];
        var root := aggs[i];
        var events := root.domainEvents;
        root.ClearDomainEvents();
        staged := StageMessages(staged, Flatten(lists[..i]), events, newId, now, codec);
        i := i + 1;
      }
      assert lists[..i] == lists;
      outbox := outbox + staged;
    }

    /** Stamps CreatedOnUtc on added and ModifiedOnUtc on modified auditable entries. */
    method UpdateAuditableEntities(now: int)
      modifies this`entries
      ensures entries == StampAll(old(entries), now)
    {
      var i := 0;
      while i < |entries|
        invariant 0 <= i <= |entries| == |old(entries)|
        invariant forall k :: 0 <= k < i ==> entries[k] == Stamp(old(entries)[k], now)
        invariant forall k :: i <= k < |entries| ==> entries[k] == old(entries)[k]
      {
        entries := entries[i := Stamp(entries[i], now)];
        i := i + 1;
      }
    }

    /** Gives each added entry with a null or empty Guid id the next fresh id. */
    method GenerateIds(freshIds: seq<Guid>)
      requires |freshIds| == |entries|
      modifies this`entries
      ensures entries == AssignIds(old(entries), freshIds)
    {
      var i := 0;
      while i < |entries|
        invariant 0 <= i <= |entries| == |old(entries)|
        invariant forall k :: 0 <= k < i ==> entries[k] == AssignId(old(entries)[k], freshIds[k])
        invariant forall k :: i <= k < |entries| ==> entries[k] == old(entries)[k]
      {
        var e := entries[i];
        if e.state == Added {
          if e.key.GuidKey? && (e.key.guid.None? || e.key.guid.value == EmptyGuid) {
            entries := entries[i := e.(key := GuidKey(Some(freshIds[i])))];
          }
        }
        i := i + 1;
      }
    }

    /**
      DbContext.SaveChangesAsync: the modelled save interceptors in
      registration order (event conversion, then id generation), then one
      write.  The audit interceptor registered between them is not modelled.
     */
    method SaveChanges(now: int, newId: nat -> Guid, entityIds: seq<Guid>, codec: Codec)
      requires Valid()
      requires |entityIds| == |entries|
      modifies this, aggregates
      ensures consumers == old(consumers)
      ensures outbox == old(outbox) + ToMessages(old(Pending(aggregates)), newId, now, codec)
      ensures Drained(aggregates)
      ensures entries == AssignIds(old(entries), entityIds)
      ensures saveCount == old(saveCount) + 1
    {
      ConvertOnSavingChanges(this, now, newId, codec);
      GenerateIdOnSavingChanges(this, entityIds);
      saveCount := saveCount + 1;
    }
  }

  /** The conversion interceptor: with no context it passes through, otherwise it drains the events. */
  method ConvertOnSavingChanges(ctx: DbContext?, now: int, newId: nat -> Guid, codec: Codec)
    requires ctx != null ==> ctx.Valid()
    modifies ctx, if ctx != null then ctx.aggregates else []
    ensures ctx != null ==> ctx.entries == old(ctx.entries)
    ensures ctx != null ==> ctx.consumers == old(ctx.consumers) && ctx.saveCount == old(ctx.saveCount)
    ensures ctx != null ==> Drained(ctx.aggregates)
    ensures ctx != null ==> ctx.outbox == old(ctx.outbox) + ToMessages(old(Pending(ctx.aggregates)), newId, now, codec)
  {
    if ctx == null {
      return;
    }
    ctx.ConvertDomainEventsToOutboxMessages(now, newId, codec);
  }

  /** The id interceptor: with no context it passes through, otherwise it assigns ids. */
  method GenerateIdOnSavingChanges(ctx: DbContext?, freshIds: seq<Guid>)
    requires ctx != null ==> |freshIds| == |ctx.entries|
    modifies ctx
    ensures ctx != null ==> ctx.outbox == old(ctx.outbox)
    ensures ctx != null ==> ctx.consumers == old(ctx.consumers) && ctx.saveCount == old(ctx.saveCount)
    ensures ctx != null ==> ctx.entries == AssignIds(old(ctx.entries), freshIds)
  {
    if ctx == null {
      return;
    }
    ctx.GenerateIds(freshIds);
  }

  /** The unit of work over one context. */
  class UnitOfWork {
    const db: DbContext

    constructor (db: DbContext)
      ensures this.db == db
    {
      this.db := db;
    }

    /**
      SaveChangesAsync: drains the events, stamps the audit fields, then saves
      through the context (whose conversion hook then finds nothing left to
      drain).  Each pending event ends up in exactly one new outbox row.
     */
    method SaveChanges(now: int, newId: nat -> Guid, entityIds: seq<Guid>, codec: Codec)
      requires db.Valid()
      requires |entityIds| == |db.entries|
      modifies db, db.aggregates
      ensures db.consumers == old(db.consumers)
      ensures db.outbox == old(db.outbox) + ToMessages(old(Pending(db.aggregates)), newId, now, codec)
      ensures Drained(db.aggregates)
      ensures db.entries == AssignIds(StampAll(old(db.entries), now), entityIds)
      ensures db.saveCount == old(db.saveCount) + 1
    {
      db.ConvertDomainEventsToOutboxMessages(now, newId, codec);
      NothingPending(db.aggregates);
      db.UpdateAuditableEntities(now);
      ghost var drained := db.outbox;
      db.SaveChanges(now, newId, entityIds, codec);
      assert ToMessages([], newId, now, codec) == [];
    }
  }
}
