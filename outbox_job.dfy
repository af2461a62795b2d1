/**
  The background job that publishes outbox rows: it takes a batch of at most
  20 unprocessed rows, deserialises each row's content, publishes the event
  under a retry policy, records the outcome on the row, and saves at the end.
  The handlers the publisher calls share the job's context and may save it
  in the middle of the run.

  The store's answer to the batch query, the publisher's behaviour on each
  attempt, the handlers' saves and the clock are parameters.
 */
module OutboxJob {
  import opened Shared
  import opened DomainEvents
  import opened Persistence

  /** Take(20) in the batch query. */
  const BatchSize: nat := 20
  /** WaitAndRetryAsync(3, ...): three retries after the first attempt. */
  const RetryCount: nat := 3

  // ---------------------------------------------------------------- the batch query

  /** Positions of the rows whose ProcessedOnUtc is null. */
  function Unprocessed(outbox: seq<OutboxMessage>): set<nat> {
    set k: nat | k < |outbox| && outbox[k].processedOnUtc.None?
  }

  function Min(a: nat, b: nat): nat {
    if a <= b then a else b
  }

  /**
    What the query `Where(ProcessedOnUtc == null).Take(20)` may return, with
    no ordering clause: distinct unprocessed rows, as many as there are up to
    twenty, in whatever order the store yields them.
   */
  ghost predicate IsBatch(outbox: seq<OutboxMessage>, batch: seq<nat>) {
    && Distinct(batch)
    && (forall p :: 0 <= p < |batch| ==> batch[p] < |outbox| && outbox[batch[p]].processedOnUtc.None?)
    && |batch| == Min(BatchSize, |Unprocessed(outbox)|)
  }

  /** The unprocessed positions from `from` on, in table order. */
  function UnprocessedFrom(outbox: seq<OutboxMessage>, from: nat): seq<nat>
    decreases |outbox| - from
  {
    if from >= |outbox| then []
    else if outbox[from].processedOnUtc.None? then [from] + UnprocessedFrom(outbox, from + 1)
    else UnprocessedFrom(outbox, from + 1)
  }

  /** One answer the store may give: the first unprocessed rows in table order. */
  function FirstUnprocessed(outbox: seq<OutboxMessage>): seq<nat> {
    var all := UnprocessedFrom(outbox, 0);
    all[..Min(BatchSize, |all|)]
  }

  lemma {:induction false} UnprocessedFromFacts(outbox: seq<OutboxMessage>, from: nat)
    ensures forall p :: 0 <= p < |UnprocessedFrom(outbox, from)| ==>
      from <= UnprocessedFrom(outbox, from)[p] < |outbox|
    ensures forall i, j :: 0 <= i < j < |UnprocessedFrom(outbox, from)| ==>
      UnprocessedFrom(outbox, from)[i] < UnprocessedFrom(outbox, from)[j]
    ensures forall k: nat :: k in UnprocessedFrom(outbox, from) <==>
      from <= k < |outbox| && outbox[k].processedOnUtc.None?
    decreases |outbox| - from
  {
    if from < |outbox| {
      UnprocessedFromFacts(outbox, from + 1);
    }
  }

  /** Reading the first unprocessed rows in table order is a valid answer to the batch query. */
  lemma FirstUnprocessedIsBatch(outbox: seq<OutboxMessage>)
    ensures IsBatch(outbox, FirstUnprocessed(outbox))
  {
    var all := UnprocessedFrom(outbox, 0);
    UnprocessedFromFacts(outbox, 0);
    assert Distinct(all);
    DistinctCard(all);
    assert Elements(all) == Unprocessed(outbox);
    var b := FirstUnprocessed(outbox);
    forall p | 0 <= p < |b| ensures b[p] < |outbox| && outbox[b[p]].processedOnUtc.None? {
      assert b[p] == all[p];
    }
  }

  /** A batch is never larger than twenty rows, and is empty only when nothing is left to process. */
  lemma BatchBounds(outbox: seq<OutboxMessage>, batch: seq<nat>)
    requires IsBatch(outbox, batch)
    ensures |batch| <= BatchSize
    ensures batch == [] <==> Unprocessed(outbox) == {}
  {
  }

  // ---------------------------------------------------------------- the retry policy

  /** PolicyResult: the final exception text, if any, and how many attempts were made. */
  datatype PolicyResult = PolicyResult(finalException: Option<string>, attempts: nat)

  /**
    ExecuteAndCapture under WaitAndRetry(retries): attempt k of the action
    fails with `fail(k)` (None when it succeeds); a failure is retried while
    retries remain.  The delays between attempts are not modelled.
   */
  function Capture(k: nat, retries: nat, fail: nat -> Option<string>): PolicyResult
    decreases retries
  {
    if fail(k).None? then PolicyResult(None, k)
    else if retries == 0 then PolicyResult(fail(k), k)
    else Capture(k + 1, retries - 1, fail)
  }

  function ExecuteAndCapture(retries: nat, fail: nat -> Option<string>): PolicyResult {
    Capture(1, retries, fail)
  }

  /**
    The policy makes between 1 and retries + 1 attempts and stops at the
    first success; it captures no exception iff some attempt succeeded, and
    otherwise the exception of the last attempt.
   */
  lemma {:induction false} CaptureFacts(k: nat, retries: nat, fail: nat -> Option<string>)
    ensures var r := Capture(k, retries, fail);
      && k <= r.attempts <= k + retries
      && (forall a :: k <= a < r.attempts ==> fail(a).Some?)
      && (r.finalException.None? <==> exists a :: k <= a <= k + retries && fail(a).None?)
      && (r.finalException.None? ==> fail(r.attempts).None?)
      && (r.finalException.Some? ==> r.attempts == k + retries && r.finalException == fail(k + retries))
    decreases retries
  {
    if fail(k).Some? && retries > 0 {
      CaptureFacts(k + 1, retries - 1, fail);
      var r := Capture(k, retries, fail);
      if r.finalException.Some? {
        forall a | k <= a <= k + retries ensures fail(a).Some? {
          if a == k {
          } else {
            assert k + 1 <= a <= k + 1 + (retries - 1);
          }
        }
      }
    }
  }

  /** With the job's policy: at most four attempts, and no error exactly when one of them succeeds. */
  lemma JobPolicyBound(fail: nat -> Option<string>)
    ensures var r := ExecuteAndCapture(RetryCount, fail);
      && 1 <= r.attempts <= 4
      && (r.finalException.None? <==> exists a :: 1 <= a <= 4 && fail(a).None?)
      && (r.finalException.Some? ==> r.finalException == fail(4))
  {
    CaptureFacts(1, RetryCount, fail);
  }

  // ---------------------------------------------------------------- processing the batch

  /**
    Everything a run of the job depends on besides the table: the serialiser,
    the retry count, the publisher's outcome for the batch row at position p
    on attempt k (`publishFailure(p, k)`), how many times the handlers save
    the job's own context while the batch row at position p is published
    (`handlerSaves(p)`: the idempotent decorator saves once per completed
    delivery), and the time.
   */
  datatype JobEnv = JobEnv(codec: Codec, retries: nat, publishFailure: (nat, nat) -> Option<string>,
                           handlerSaves: nat -> nat, now: int)

  /** Publishing the event of the batch row at position p under the retry policy. */
  function PublishResult(env: JobEnv, p: nat): PolicyResult {
    ExecuteAndCapture(env.retries, (k: nat) => env.publishFailure(p, k))
  }

  /**
    What the job does to the batch row at position p: a row whose content
    reads back as an event is published and marked processed; a row whose
    content is null is skipped.  (A row whose content throws ends the run
    before this; see FirstThrowing.)
   */
  function HandleRow(m: OutboxMessage, p: nat, env: JobEnv): OutboxMessage {
    match env.codec.deserialize(m.content)
    case Decoded(_) =>
      var result := PublishResult(env, p);
      m.(error := result.finalException, processedOnUtc := Some(env.now))
    case _ => m
  }

  /**
    The position of the first batch row, from `from` on, whose content makes
    the deserialiser throw, or the size of the batch when none does.
   */
  function FirstThrowing(outbox: seq<OutboxMessage>, batch: seq<nat>, codec: Codec, from: nat): (t: nat)
    requires from <= |batch|
    requires forall p :: 0 <= p < |batch| ==> batch[p] < |outbox|
    ensures from <= t <= |batch|
    ensures forall p :: from <= p < t ==> !codec.deserialize(outbox[batch[p]].content).DecodeFailed?
    ensures t < |batch| ==> codec.deserialize(outbox[batch[t]].content).DecodeFailed?
    decreases |batch| - from
  {
    if from == |batch| || codec.deserialize(outbox[batch[from]].content).DecodeFailed? then from
    else FirstThrowing(outbox, batch, codec, from + 1)
  }

  /** The table after handling the first n rows of the batch, one after the other. */
  function RunBatch(outbox: seq<OutboxMessage>, batch: seq<nat>, n: nat, env: JobEnv): (r: seq<OutboxMessage>)
    requires n <= |batch|
    requires forall p :: 0 <= p < |batch| ==> batch[p] < |outbox|
    ensures |r| == |outbox|
    decreases n
  {
    if n == 0 then outbox
    else
      var before := RunBatch(outbox, batch, n - 1, env);
      before[batch[n - 1] := HandleRow(before[batch[n - 1]], n - 1, env)]
  }

  /** An event handed to the publisher, and how many times: once per attempt of the retry policy. */
  datatype Publication = Publication(event: DomainEvent, attempts: nat)

  /** What the publisher receives while handling the first n rows, in batch order. */
  function Published(outbox: seq<OutboxMessage>, batch: seq<nat>, n: nat, env: JobEnv): seq<Publication>
    requires n <= |batch|
    requires forall p :: 0 <= p < |batch| ==> batch[p] < |outbox|
    decreases n
  {
    if n == 0 then []
    else
      var rest := Published(outbox, batch, n - 1, env);
      match env.codec.deserialize(outbox[batch[n - 1]].content)
      case Decoded(e) => rest + [Publication(e, PublishResult(env, n - 1).attempts)]
      case _ => rest
  }

  /** Each published event reaches the publisher at least once and at most retries + 1 times. */
  lemma {:induction false} PublishedAttempts(outbox: seq<OutboxMessage>, batch: seq<nat>, n: nat, env: JobEnv)
    requires n <= |batch|
    requires forall p :: 0 <= p < |batch| ==> batch[p] < |outbox|
    ensures forall q :: 0 <= q < |Published(outbox, batch, n, env)| ==>
      1 <= Published(outbox, batch, n, env)[q].attempts <= env.retries + 1
    decreases n
  {
    if n > 0 {
      PublishedAttempts(outbox, batch, n - 1, env);
      CaptureFacts(1, env.retries, (k: nat) => env.publishFailure(n - 1, k));
    }
  }

  /** The handlers save the job's context while the batch row at position p is published. */
  predicate SavesDuring(outbox: seq<OutboxMessage>, batch: seq<nat>, p: nat, env: JobEnv)
    requires p < |batch| && batch[p] < |outbox|
  {
    env.codec.deserialize(outbox[batch[p]].content).Decoded? && env.handlerSaves(p) > 0
  }

  /**
    How many batch rows the table holds handled after the first n rows: a
    save during the publication of row p writes the tracked rows as they are
    then, with the rows before p marked and row p not yet.  The result is the
    position of the last row before n whose publication saved, or 0.
   */
  function LastSaved(outbox: seq<OutboxMessage>, batch: seq<nat>, n: nat, env: JobEnv): (m: nat)
    requires n <= |batch|
    requires forall p :: 0 <= p < |batch| ==> batch[p] < |outbox|
    ensures m <= n && (n > 0 ==> m < n)
    ensures m > 0 ==> SavesDuring(outbox, batch, m, env)
    ensures forall p :: m < p < n ==> !SavesDuring(outbox, batch, p, env)
    decreases n
  {
    if n == 0 then 0
    else if SavesDuring(outbox, batch, n - 1, env) then n - 1
    else LastSaved(outbox, batch, n - 1, env)
  }

  /** The saves the handlers make while the first n batch rows are published. */
  function HandlerSaves(outbox: seq<OutboxMessage>, batch: seq<nat>, n: nat, env: JobEnv): nat
    requires n <= |batch|
    requires forall p :: 0 <= p < |batch| ==> batch[p] < |outbox|
    decreases n
  {
    if n == 0 then 0
    else HandlerSaves(outbox, batch, n - 1, env)
         + (if env.codec.deserialize(outbox[batch[n - 1]].content).Decoded? then env.handlerSaves(n - 1) else 0)
  }

  /**
    Handling distinct rows in order: each of the first n batch rows is
    handled once, from its original value, and every other row is untouched.
   */
  lemma {:induction false} RunBatchPointwise(outbox: seq<OutboxMessage>, batch: seq<nat>, n: nat, env: JobEnv)
    requires n <= |batch| && Distinct(batch)
    requires forall p :: 0 <= p < |batch| ==> batch[p] < |outbox|
    ensures var r := RunBatch(outbox, batch, n, env);
      && (forall p :: 0 <= p < n ==> r[batch[p]] == HandleRow(outbox[batch[p]], p, env))
      && (forall k :: 0 <= k < |outbox| && k !in batch[..n] ==> r[k] == outbox[k])
    decreases n
  {
    if n > 0 {
      RunBatchPointwise(outbox, batch, n - 1, env);
      var before := RunBatch(outbox, batch, n - 1, env);
      var last := batch[n - 1];
      var r := RunBatch(outbox, batch, n, env);
      assert r == before[last := HandleRow(before[last], n - 1, env)];
      assert last !in batch[..n - 1] by {
        forall p | 0 <= p < n - 1 ensures batch[p] != last {
          assert batch[..n - 1][p] == batch[p];
        }
      }
      forall p | 0 <= p < n ensures r[batch[p]] == HandleRow(outbox[batch[p]], p, env) {
        if p < n - 1 {
          assert batch[p] in batch[..n - 1];
        }
      }
      forall k | 0 <= k < |outbox| && k !in batch[..n] ensures r[k] == outbox[k] {
        assert batch[..n] == batch[..n - 1] + [last];
      }
    }
  }

  /**
    One run of the job.  Rows are handled in batch order: a row whose content
    reads back as null is skipped; a row whose content reads back as an event
    is published under the retry policy, gets the captured error (or none) and
    is marked processed, whether publishing succeeded or not.  The loaded rows
    are tracked in memory and reach the table with the save at the end.  The
    job shares its context with the idempotent handlers the publisher calls,
    and each of their saves also writes the tracked rows: the rows before the
    one being published, already marked.  When reading a row's content throws,
    the exception ends the run before the final save: the events of the
    earlier rows have been published, and the table is as the last handler
    save left it (unchanged when no handler saved).
   */
  method Execute(ctx: DbContext, batch: seq<nat>, env: JobEnv) returns (published: seq<Publication>, thrown: Option<string>)
    requires IsBatch(ctx.outbox, batch)
    modifies ctx`outbox, ctx`saveCount
    ensures var t := FirstThrowing(old(ctx.outbox), batch, env.codec, 0);
      && published == Published(old(ctx.outbox), batch, t, env)
      && (thrown.Some? <==> t < |batch|)
      && (t < |batch| ==> thrown == Some(env.codec.deserialize(old(ctx.outbox)[batch[t]].content).exception))
    ensures var t := FirstThrowing(old(ctx.outbox), batch, env.codec, 0);
      thrown.Some? ==>
        && ctx.outbox == RunBatch(old(ctx.outbox), batch, LastSaved(old(ctx.outbox), batch, t, env), env)
        && ctx.saveCount == old(ctx.saveCount) + HandlerSaves(old(ctx.outbox), batch, t, env)
    ensures thrown.None? ==> ctx.outbox == RunBatch(old(ctx.outbox), batch, |batch|, env)
    ensures thrown.None? ==> ctx.saveCount == old(ctx.saveCount) + HandlerSaves(old(ctx.outbox), batch, |batch|, env) + 1
  {
    var rows := ctx.outbox;
    published := [];
    var i := 0;
    while i < |batch|
      invariant 0 <= i <= |batch|
      invariant rows == RunBatch(old(ctx.outbox), batch, i, env)
      invariant published == Published(old(ctx.outbox), batch, i, env)
      invariant FirstThrowing(old(ctx.outbox), batch, env.codec, i) == FirstThrowing(old(ctx.outbox), batch, env.codec, 0)
      invariant ctx.outbox == RunBatch(old(ctx.outbox), batch, LastSaved(old(ctx.outbox), batch, i, env), env)
      invariant ctx.saveCount == old(ctx.saveCount) + HandlerSaves(old(ctx.outbox), batch, i, env)
    {
      RunBatchPointwise(old(ctx.outbox), batch, i, env);
      assert batch[i] !in batch[..i];
      var row := batch[i];
      var message := rows[row];
      var domainEvent := env.codec.deserialize(message.content);
      if domainEvent.DecodeFailed? {
        return published, Some(domainEvent.exception);
      }
      if domainEvent.Decoded? {
        var result := PublishResult(env, i);
        if env.handlerSaves(i) > 0 {
          ctx.outbox := rows;
        }
        ctx.saveCount := ctx.saveCount + env.handlerSaves(i);
        published := published + [Publication(domainEvent.event, result.attempts)];
        message := message.(error := result.finalException, processedOnUtc := Some(env.now));
        rows := rows[row := message];
      }
      i := i + 1;
    }
    ctx.outbox := rows;
    ctx.saveCount := ctx.saveCount + 1;
    thrown := None;
  }

  /**
    After a throw at position t, a batch row is in the table as handled
    exactly when it comes before the last row whose publication saved; every
    later row and every row outside the batch are as they were.
   */
  lemma ThrownTableRows(outbox: seq<OutboxMessage>, batch: seq<nat>, env: JobEnv, t: nat)
    requires IsBatch(outbox, batch) && t <= |batch|
    ensures var m := LastSaved(outbox, batch, t, env);
      var r := RunBatch(outbox, batch, m, env);
      && (forall p :: 0 <= p < m ==> r[batch[p]] == HandleRow(outbox[batch[p]], p, env))
      && (forall p :: m <= p < |batch| ==> r[batch[p]] == outbox[batch[p]])
      && (forall k :: 0 <= k < |outbox| && k !in batch ==> r[k] == outbox[k])
  {
    var m := LastSaved(outbox, batch, t, env);
    RunBatchPointwise(outbox, batch, m, env);
  }

  /**
    When the handlers never save the job's context, a throw leaves the table
    as it was and a run without a throw saves exactly once.
   */
  lemma {:induction false} QuietHandlersKeepTable(outbox: seq<OutboxMessage>, batch: seq<nat>, env: JobEnv, n: nat)
    requires n <= |batch|
    requires forall p :: 0 <= p < |batch| ==> batch[p] < |outbox|
    requires forall p :: 0 <= p < |batch| ==> env.handlerSaves(p) == 0
    ensures LastSaved(outbox, batch, n, env) == 0 && RunBatch(outbox, batch, 0, env) == outbox
    ensures HandlerSaves(outbox, batch, n, env) == 0
    decreases n
  {
    if n > 0 {
      QuietHandlersKeepTable(outbox, batch, env, n - 1);
    }
  }

  /** A run of the job leaves every row outside the batch unchanged. */
  lemma ExecuteKeepsOthers(outbox: seq<OutboxMessage>, batch: seq<nat>, env: JobEnv)
    requires IsBatch(outbox, batch)
    ensures forall k :: 0 <= k < |outbox| && k !in batch ==> RunBatch(outbox, batch, |batch|, env)[k] == outbox[k]
  {
    RunBatchPointwise(outbox, batch, |batch|, env);
    assert batch[..|batch|] == batch;
  }

  /**
    What a run of the job does to each batch row: one whose content
    deserialises is processed at `now` with the policy's error, and one that
    does not is left exactly as it was.
   */
  lemma ExecuteRows(outbox: seq<OutboxMessage>, batch: seq<nat>, env: JobEnv, p: nat)
    requires IsBatch(outbox, batch) && p < |batch|
    ensures var after := RunBatch(outbox, batch, |batch|, env)[batch[p]];
      && (!env.codec.deserialize(outbox[batch[p]].content).Decoded? ==> after == outbox[batch[p]])
      && (env.codec.deserialize(outbox[batch[p]].content).Decoded? ==>
            && after.processedOnUtc == Some(env.now)
            && after.error == PublishResult(env, p).finalException)
  {
    RunBatchPointwise(outbox, batch, |batch|, env);
  }

  /** In every row, only Error and ProcessedOnUtc can change. */
  lemma ExecuteKeepsMessages(outbox: seq<OutboxMessage>, batch: seq<nat>, env: JobEnv)
    requires IsBatch(outbox, batch)
    ensures var r := RunBatch(outbox, batch, |batch|, env);
      forall k :: 0 <= k < |outbox| ==> SameMessage(r[k], outbox[k])
  {
    RunBatchPointwise(outbox, batch, |batch|, env);
    assert batch[..|batch|] == batch;
    var r := RunBatch(outbox, batch, |batch|, env);
    forall k | 0 <= k < |outbox| ensures SameMessage(r[k], outbox[k]) {
      if k in batch {
        var p :| 0 <= p < |batch| && batch[p] == k;
      }
    }
  }

  /** Two rows that carry the same message: they may differ only in Error and ProcessedOnUtc. */
  predicate SameMessage(a: OutboxMessage, b: OutboxMessage) {
    a.id == b.id && a.typeName == b.typeName && a.content == b.content && a.occurredOnUtc == b.occurredOnUtc
  }

  /** The batch rows that the job marks processed: those whose content deserialises. */
  function Deliverable(outbox: seq<OutboxMessage>, batch: seq<nat>, codec: Codec): set<nat>
    requires forall p :: 0 <= p < |batch| ==> batch[p] < |outbox|
  {
    set p | 0 <= p < |batch| && codec.deserialize(outbox[batch[p]].content).Decoded? :: batch[p]
  }

  /** The unprocessed rows shrink by exactly the deliverable batch rows; undeserialisable ones stay unprocessed. */
  lemma ExecuteShrinksUnprocessed(outbox: seq<OutboxMessage>, batch: seq<nat>, env: JobEnv)
    requires IsBatch(outbox, batch)
    ensures Unprocessed(RunBatch(outbox, batch, |batch|, env))
         == Unprocessed(outbox) - Deliverable(outbox, batch, env.codec)
  {
    RunBatchPointwise(outbox, batch, |batch|, env);
    assert batch[..|batch|] == batch;
    var r := RunBatch(outbox, batch, |batch|, env);
    var gone := Deliverable(outbox, batch, env.codec);
    forall k: nat ensures k in Unprocessed(r) <==> k in Unprocessed(outbox) - gone {
      if k < |outbox| && k in batch {
        var p :| 0 <= p < |batch| && batch[p] == k;
        if k in gone {
          var q :| 0 <= q < |batch| && env.codec.deserialize(outbox[batch[q]].content).Decoded? && batch[q] == k;
          assert q == p;
        }
      }
    }
  }

  /**
    Rows staged by the conversion hook, read back with a serialiser that
    round-trips, are all published: no row throws, every row of the batch ends
    processed, and the publisher receives exactly the batch rows' own events,
    in batch order, each once per attempt of the retry policy.
   */
  lemma RoundTripPublishesAll(events: seq<DomainEvent>, newId: nat -> Guid, staged: int, batch: seq<nat>, env: JobEnv)
    requires RoundTrips(env.codec)
    requires IsBatch(ToMessages(events, newId, staged, env.codec), batch)
    ensures var outbox := ToMessages(events, newId, staged, env.codec);
      && FirstThrowing(outbox, batch, env.codec, 0) == |batch|
      && (forall p :: 0 <= p < |batch| ==>
            RunBatch(outbox, batch, |batch|, env)[batch[p]].processedOnUtc == Some(env.now))
      && Published(outbox, batch, |batch|, env)
         == seq(|batch|, p requires 0 <= p < |batch| => Publication(events[batch[p]], PublishResult(env, p).attempts))
  {
    var outbox := ToMessages(events, newId, staged, env.codec);
    ToMessagesFacts(events, newId, staged, env.codec);
    RunBatchPointwise(outbox, batch, |batch|, env);
    PublishedAll(outbox, batch, |batch|, events, env);
  }

  /** When every row reads back as its own event, the publisher receives the batch rows' events in order. */
  lemma {:induction false} PublishedAll(outbox: seq<OutboxMessage>, batch: seq<nat>, n: nat, events: seq<DomainEvent>, env: JobEnv)
    requires n <= |batch| && |events| == |outbox|
    requires forall p :: 0 <= p < |batch| ==> batch[p] < |outbox|
    requires forall k :: 0 <= k < |outbox| ==> env.codec.deserialize(outbox[k].content) == Decoded(events[k])
    ensures Published(outbox, batch, n, env)
         == seq(n, p requires 0 <= p < n => Publication(events[batch[p]], PublishResult(env, p).attempts))
    decreases n
  {
    if n > 0 {
      PublishedAll(outbox, batch, n - 1, events, env);
    }
  }
}
