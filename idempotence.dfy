/**
  The idempotent decorator around a domain-event handler.  Before running the
  decorated handler it looks up the consumer ledger (the OutboxMessageConsumers
  table, keyed by event id and handler name); after the handler returns it
  records the pair and saves.  A handler that throws records nothing, so the
  event may be delivered to it again.
 */
module Idempotence {
  import opened Shared
  import opened DomainEvents
  import opened Persistence

  /** One delivery of an event to a handler: the ledger key, and whether the decorated handler throws. */
  datatype Delivery = Delivery(key: ConsumerKey, throws: bool)

  /** The ledger after one delivery, whether the decorated handler was called, and whether it returned. */
  datatype HandleStep = HandleStep(ledger: set<ConsumerKey>, called: bool, completed: bool)

  /** One call of Handle, on the ledger alone. */
  function Deliver(ledger: set<ConsumerKey>, d: Delivery): HandleStep {
    if d.key in ledger then HandleStep(ledger, false, false)
    else if d.throws then HandleStep(ledger, true, false)
    else HandleStep(ledger + {d.key}, true, true)
  }

  /** The ledger after a sequence of deliveries, handled one after the other. */
  function Replay(ledger: set<ConsumerKey>, ds: seq<Delivery>): set<ConsumerKey>
    decreases |ds|
  {
    if ds == [] then ledger else Replay(Deliver(ledger, ds[0]).ledger, ds[1..])
  }

  /** The keys whose decorated handler ran to completion, in delivery order. */
  function Completions(ledger: set<ConsumerKey>, ds: seq<Delivery>): seq<ConsumerKey>
    decreases |ds|
  {
    if ds == [] then []
    else
      var step := Deliver(ledger, ds[0]);
      (if step.completed then [ds[0].key] else []) + Completions(step.ledger, ds[1..])
  }

  /** The keys for which the decorated handler was called at all, in delivery order. */
  function Calls(ledger: set<ConsumerKey>, ds: seq<Delivery>): seq<ConsumerKey>
    decreases |ds|
  {
    if ds == [] then []
    else
      var step := Deliver(ledger, ds[0]);
      (if step.called then [ds[0].key] else []) + Calls(step.ledger, ds[1..])
  }

  /** What one delivery promises: the handler runs exactly when the key is not yet recorded. */
  lemma DeliverFacts(ledger: set<ConsumerKey>, d: Delivery)
    ensures var r := Deliver(ledger, d);
      && (r.called <==> d.key !in ledger)
      && (r.completed <==> r.called && !d.throws)
      && (r.completed ==> r.ledger == ledger + {d.key})
      && (!r.completed ==> r.ledger == ledger)
  {
  }

  /** No completed key was in the ledger the deliveries started from. */
  lemma {:induction false} CompletionsFresh(ledger: set<ConsumerKey>, ds: seq<Delivery>)
    ensures forall i :: 0 <= i < |Completions(ledger, ds)| ==> Completions(ledger, ds)[i] !in ledger
    decreases |ds|
  {
    if ds != [] {
      var step := Deliver(ledger, ds[0]);
      CompletionsFresh(step.ledger, ds[1..]);
      var rest := Completions(step.ledger, ds[1..]);
      var done := Completions(ledger, ds);
      forall i | 0 <= i < |done| ensures done[i] !in ledger {
        if step.completed {
          if i > 0 {
            assert done[i] == rest[i - 1];
          }
        } else {
          assert done[i] == rest[i];
        }
      }
    }
  }

  /** No key completes twice. */
  lemma {:induction false} CompletionsDistinct(ledger: set<ConsumerKey>, ds: seq<Delivery>)
    ensures Distinct(Completions(ledger, ds))
    decreases |ds|
  {
    if ds != [] {
      var step := Deliver(ledger, ds[0]);
      CompletionsDistinct(step.ledger, ds[1..]);
      var rest := Completions(step.ledger, ds[1..]);
      var done := Completions(ledger, ds);
      if step.completed {
        CompletionsFresh(step.ledger, ds[1..]);
        assert done == [ds[0].key] + rest;
        forall i, j | 0 <= i < j < |done| ensures done[i] != done[j] {
          assert done[j] == rest[j - 1];
          if i > 0 {
            assert done[i] == rest[i - 1];
          } else {
            assert rest[j - 1] !in step.ledger;
          }
        }
      } else {
        assert done == rest;
      }
    }
  }

  /** The final ledger is the initial one plus exactly the completed keys. */
  lemma {:induction false} ReplayAddsCompletions(ledger: set<ConsumerKey>, ds: seq<Delivery>)
    ensures Replay(ledger, ds) == ledger + Elements(Completions(ledger, ds))
    decreases |ds|
  {
    if ds != [] {
      var step := Deliver(ledger, ds[0]);
      ReplayAddsCompletions(step.ledger, ds[1..]);
      var rest := Completions(step.ledger, ds[1..]);
      var done := Completions(ledger, ds);
      if step.completed {
        assert done == [ds[0].key] + rest;
        assert Elements(done) == {ds[0].key} + Elements(rest);
      } else {
        assert done == rest;
      }
    }
  }

  /**
    Over any sequence of deliveries, starting from any ledger: each handler
    runs to completion at most once per event, never for an event it had
    already recorded, and the final ledger is the initial one plus exactly the
    completed keys.
   */
  lemma ReplayFacts(ledger: set<ConsumerKey>, ds: seq<Delivery>)
    ensures var done := Completions(ledger, ds);
      && Distinct(done)
      && (forall i :: 0 <= i < |done| ==> done[i] !in ledger)
      && Replay(ledger, ds) == ledger + Elements(done)
  {
    CompletionsFresh(ledger, ds);
    CompletionsDistinct(ledger, ds);
    ReplayAddsCompletions(ledger, ds);
  }

  /** The decorated handler is never called for an event already recorded in the ledger. */
  lemma {:induction false} NoCallsWhenRecorded(ledger: set<ConsumerKey>, ds: seq<Delivery>)
    ensures forall i :: 0 <= i < |Calls(ledger, ds)| ==> Calls(ledger, ds)[i] !in ledger
    decreases |ds|
  {
    if ds != [] {
      var step := Deliver(ledger, ds[0]);
      NoCallsWhenRecorded(step.ledger, ds[1..]);
      var rest := Calls(step.ledger, ds[1..]);
      var calls := Calls(ledger, ds);
      forall i | 0 <= i < |calls| ensures calls[i] !in ledger {
        if step.called {
          if i > 0 {
            assert calls[i] == rest[i - 1];
          }
        } else {
          assert calls[i] == rest[i];
        }
      }
    }
  }

  /** The ledger only grows. */
  lemma {:induction false} ReplayGrows(ledger: set<ConsumerKey>, ds: seq<Delivery>)
    ensures ledger <= Replay(ledger, ds)
    decreases |ds|
  {
    if ds != [] {
      ReplayGrows(Deliver(ledger, ds[0]).ledger, ds[1..]);
    }
  }

  /** Delivering the same event twice to the same handler: once it has completed, the second delivery does nothing. */
  lemma DeliverTwice(ledger: set<ConsumerKey>, d: Delivery, again: Delivery)
    requires again.key == d.key && Deliver(ledger, d).completed
    ensures var second := Deliver(Deliver(ledger, d).ledger, again);
      !second.called && second.ledger == ledger + {d.key}
  {
  }

  /** A delivery whose handler threw leaves the event unrecorded, so a redelivery runs the handler again. */
  lemma RetryAfterFailure(ledger: set<ConsumerKey>, d: Delivery, again: Delivery)
    requires again.key == d.key && d.key !in ledger && d.throws
    ensures var first := Deliver(ledger, d);
      first.called && !first.completed && Deliver(first.ledger, again).called
  {
  }

  /**
    Handle.  The handler's name and the event's id form the ledger key; an
    event already recorded for this handler is skipped.  Otherwise the
    decorated handler runs; when it throws, the exception propagates and
    nothing is recorded; when it returns, the key is added and the context is
    saved once, which runs the save hooks as every save does.
   */
  method Handle(ctx: DbContext, e: DomainEvent, consumer: string, handlerThrows: bool,
                now: int, newId: nat -> Guid, entityIds: seq<Guid>, codec: Codec)
    returns (step: HandleStep)
    requires ctx.Valid()
    requires |entityIds| == |ctx.entries|
    modifies ctx, ctx.aggregates
    ensures ctx.Valid()
    ensures step == Deliver(old(ctx.consumers), Delivery(ConsumerKey(e.id, consumer), handlerThrows))
    ensures ctx.consumers == step.ledger
    ensures step.completed ==> Drained(ctx.aggregates)
    ensures !step.completed ==> Pending(ctx.aggregates) == old(Pending(ctx.aggregates))
    ensures step.completed ==> ctx.saveCount == old(ctx.saveCount) + 1
    ensures step.completed ==> ctx.outbox == old(ctx.outbox) + ToMessages(old(Pending(ctx.aggregates)), newId, now, codec)
    ensures step.completed ==> ctx.entries == AssignIds(old(ctx.entries), entityIds)
    ensures !step.completed ==> ctx.saveCount == old(ctx.saveCount)
    ensures !step.completed ==> ctx.outbox == old(ctx.outbox) && ctx.entries == old(ctx.entries)
  {
    var key := ConsumerKey(e.id, consumer);
    if key in ctx.consumers {
      return HandleStep(ctx.consumers, false, false);
    }
    if handlerThrows {
      return HandleStep(ctx.consumers, true, false);
    }
    ctx.consumers := ctx.consumers + {key};
    ctx.SaveChanges(now, newId, entityIds, codec);
    step := HandleStep(ctx.consumers, true, true);
  }
}
