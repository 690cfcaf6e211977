/**
 * One cycle of the producer (src/producer.py `KafkaProducerApp.produce_message`): fetch the rows
 * changed since the watermark, produce one keyed message per row, then move the watermark to
 * the table's latest `updated_timestamp`, persist it, and drain the delivery queue.
 *
 * PostgreSQL, the Avro serializer and the Kafka client are outside the model: the cycle receives
 * what the incremental query returned, for each row what serializing and producing it did, and
 * what the `max(updated_timestamp)` query returned. Its visible effects are recorded in order.
 */
module Producer {
  import opened Wrappers
  import opened Watermark

  /** A row of the incremental query; the Avro schema types `product_id` as a string. */
  datatype Row = Row(productId: string, updated: DateTime)

  /** What the Avro serializer did with a row. */
  datatype Serialization = Serialized | SerializedToNone | SerializerRaised

  /**
   * What `produce` did with a serialized row: enqueued it; raised `BufferError`, after which the
   * one retry either enqueued it or raised; raised `KafkaException`; or raised anything else.
   */
  datatype Reply = Enqueued | QueueFull(retryEnqueued: bool) | KafkaFailure(authFailed: bool) | OtherFailure

  /** A fetched row together with what happened when the cycle tried to publish it. */
  datatype Attempt = Attempt(row: Row, serialization: Serialization, reply: Reply)

  /** What `fetch_query_once` returned for the table maximum: nothing (the query failed), a NULL, or a timestamp. */
  datatype TableMax = MaxUnavailable | MaxNull | MaxOf(ts: DateTime)

  /**
   * Effects on the outside world: a message enqueued under a key, the blocking flush before a
   * retry, a write of the watermark file, and the final flush of the cycle.
   */
  datatype Effect = Produce(key: string) | Drain | Write(content: string) | FinalDrain

  /** How the loop over the rows ended. */
  datatype LoopEnd = Completed | Aborted | Exited

  /** The producer after a cycle: its in-memory watermark, the watermark file, what it did, whether it exited. */
  datatype Cycle = Cycle(watermark: DateTime, file: WatermarkFile, effects: seq<Effect>, exited: bool)

  /** The message key of a row: `str(product_id)`, which is the string itself. */
  function Key(r: Row): string {
    r.productId
  }

  /** An attempt that ends the cycle: the serializer raised, the retry raised, or authentication failed. */
  predicate Halts(a: Attempt) {
    || a.serialization == SerializerRaised
    || (a.serialization == Serialized && (a.reply == QueueFull(false) || a.reply == KafkaFailure(true)))
  }

  /** An attempt whose message reaches the producer's queue. */
  predicate Delivers(a: Attempt) {
    a.serialization == Serialized && (a.reply == Enqueued || a.reply == QueueFull(true))
  }

  /** An attempt that makes the process exit. */
  predicate ExitsProcess(a: Attempt) {
    a.serialization == Serialized && a.reply == KafkaFailure(true)
  }

  /** The position of the first attempt that ends the cycle, or the number of attempts if none does. */
  function FirstHalt(attempts: seq<Attempt>): (n: nat)
    ensures n <= |attempts|
    ensures forall i :: 0 <= i < n ==> !Halts(attempts[i])
    ensures n < |attempts| ==> Halts(attempts[n])
  {
    if attempts == [] then 0
    else if Halts(attempts[0]) then 0
    else 1 + FirstHalt(attempts[1..])
  }

  /** The keys of the attempts that deliver, in order. */
  function DeliveredKeys(attempts: seq<Attempt>): seq<string> {
    if attempts == [] then []
    else (if Delivers(attempts[0]) then [Key(attempts[0].row)] else []) + DeliveredKeys(attempts[1..])
  }

  /** The keys of the messages produced, in order. */
  function Produced(effects: seq<Effect>): seq<string> {
    if effects == [] then []
    else (if effects[0].Produce? then [effects[0].key] else []) + Produced(effects[1..])
  }

  lemma {:induction false} ProducedAppend(a: seq<Effect>, b: seq<Effect>)
    ensures Produced(a + b) == Produced(a) + Produced(b)
  {
    if a != [] {
      assert (a + b)[1..] == a[1..] + b;
      ProducedAppend(a[1..], b);
    } else {
      assert a + b == b;
    }
  }

  /** Every retry flush is followed by the retried message, unless the retry ended the cycle. */
  predicate RetriedOnce(effects: seq<Effect>, end: LoopEnd) {
    forall i {:trigger effects[i]} :: 0 <= i < |effects| && effects[i].Drain? ==>
      (i + 1 < |effects| && effects[i + 1].Produce?) || (i + 1 == |effects| && end == Aborted)
  }

  lemma RetriedAt(effects: seq<Effect>, end: LoopEnd, j: int)
    requires RetriedOnce(effects, end) && 0 <= j < |effects| && effects[j].Drain?
    ensures (j + 1 < |effects| && effects[j + 1].Produce?) || (j + 1 == |effects| && end == Aborted)
  {
  }

  lemma RetriedOnceAfter(prefix: seq<Effect>, effects: seq<Effect>, end: LoopEnd)
    requires RetriedOnce(effects, end)
    requires |prefix| > 0 && prefix[|prefix| - 1].Produce? && RetriedOnce(prefix, Completed)
    ensures RetriedOnce(prefix + effects, end)
  {
    var all := prefix + effects;
    forall i | 0 <= i < |all| && all[i].Drain?
      ensures (i + 1 < |all| && all[i + 1].Produce?) || (i + 1 == |all| && end == Aborted)
    {
      if i >= |prefix| {
        var j := i - |prefix|;
        assert all[i] == effects[j];
        RetriedAt(effects, end, j);
        if j + 1 < |effects| {
          assert effects[j + 1].Produce?;
          assert all[i + 1] == effects[j + 1];
        } else {
          assert i + 1 == |all| && end == Aborted;
        }
      } else {
        assert all[i] == prefix[i];
        RetriedAt(prefix, Completed, i);
        assert all[i + 1] == prefix[i + 1];
      }
    }
  }

  /**
   * One iteration of the loop: the effects of publishing one row, and whether the loop goes on.
   * A row serialized to `None` is skipped; a full queue is flushed and the row produced once
   * more; a failed `produce` is logged and skipped, except that an authentication failure exits.
   */
  function ProduceOne(a: Attempt): (r: (seq<Effect>, bool))
    ensures r.1 <==> !Halts(a)
    ensures Produced(r.0) == if Delivers(a) then [Key(a.row)] else []
    ensures LoopEffects(r.0)
    ensures r.1 ==> r.0 == [] || (r.0[|r.0| - 1].Produce? && RetriedOnce(r.0, Completed))
    ensures !r.1 ==> RetriedOnce(r.0, Aborted) && (ExitsProcess(a) ==> r.0 == [])
  {
    if a.serialization == SerializerRaised then ([], false)
    else if a.serialization == SerializedToNone then ([], true)
    else
      match a.reply
      case Enqueued => ([Produce(Key(a.row))], true)
      case QueueFull(retryEnqueued) =>
        if retryEnqueued then
          var e := [Drain, Produce(Key(a.row))];
          assert e[1..] == [Produce(Key(a.row))];
          (e, true)
        else ([Drain], false)
      case KafkaFailure(authFailed) => ([], !authFailed)
      case OtherFailure => ([], true)
  }

  lemma LoopEffectsAppend(a: seq<Effect>, b: seq<Effect>)
    requires LoopEffects(a) && LoopEffects(b)
    ensures LoopEffects(a + b)
  {
    forall i | 0 <= i < |a + b|
      ensures (a + b)[i].Produce? || (a + b)[i].Drain?
    {
      if i < |a| {
        assert (a + b)[i] == a[i];
      } else {
        assert (a + b)[i] == b[i - |a|];
      }
    }
  }

  /** The `for product_data in products` loop. */
  function ProduceAll(attempts: seq<Attempt>): (p: (seq<Effect>, LoopEnd))
    // the messages produced are exactly those of the delivering rows before the first halt, in row order
    ensures Produced(p.0) == DeliveredKeys(attempts[..FirstHalt(attempts)])
    ensures p.1 == Completed <==> FirstHalt(attempts) == |attempts|
    ensures p.1 == Exited <==> FirstHalt(attempts) < |attempts| && ExitsProcess(attempts[FirstHalt(attempts)])
    // the loop only produces and flushes for a retry, each retry flush followed by its one retry
    ensures LoopEffects(p.0)
    ensures RetriedOnce(p.0, p.1)
  {
    if attempts == [] then ([], Completed)
    else
      var a := attempts[0];
      var one := ProduceOne(a);
      if !one.1 then
        assert attempts[..FirstHalt(attempts)] == [];
        (one.0, if ExitsProcess(a) then Exited else Aborted)
      else
        var rest := ProduceAll(attempts[1..]);
        assert attempts[..FirstHalt(attempts)] == [a] + attempts[1..][..FirstHalt(attempts[1..])];
        ProducedAppend(one.0, rest.0);
        LoopEffectsAppend(one.0, rest.0);
        if one.0 == [] then
          assert one.0 + rest.0 == rest.0;
          (rest.0, rest.1)
        else
          RetriedOnceAfter(one.0, rest.0, rest.1);
          (one.0 + rest.0, rest.1)
  }

  /** Effects the loop itself has: messages and retry flushes only. */
  predicate LoopEffects(effects: seq<Effect>) {
    forall i :: 0 <= i < |effects| ==> effects[i].Produce? || effects[i].Drain?
  }

  /** The effects of a cycle end with exactly one final flush. */
  predicate EndsWithFinalDrain(effects: seq<Effect>) {
    && |effects| > 0 && effects[|effects| - 1] == FinalDrain
    && forall i :: 0 <= i < |effects| - 1 ==> effects[i] != FinalDrain
  }

  /** A cycle whose loop did not complete: nothing is persisted, and the queue is drained. */
  function Unpersisted(wm: DateTime, file: WatermarkFile, loop: seq<Effect>, exited: bool): (c: Cycle)
    requires LoopEffects(loop)
    ensures c.watermark == wm && c.file == file && c.exited == exited
    ensures EndsWithFinalDrain(c.effects) && Produced(c.effects) == Produced(loop)
    ensures forall i :: 0 <= i < |c.effects| ==> !c.effects[i].Write?
  {
    ProducedAppend(loop, [FinalDrain]);
    Cycle(wm, file, loop + [FinalDrain], exited)
  }

  /**
   * A cycle whose loop completed: the table maximum is fetched and, when there is one, becomes
   * the watermark in memory and on file before the final flush. Opening the file for writing
   * empties it before a NULL maximum makes the write raise.
   */
  function Persisted(wm: DateTime, file: WatermarkFile, loop: seq<Effect>, max: TableMax): (c: Cycle)
    requires max.MaxOf? ==> ValidDateTime(max.ts)
    requires LoopEffects(loop)
    ensures !c.exited
    ensures EndsWithFinalDrain(c.effects) && Produced(c.effects) == Produced(loop)
    ensures max.MaxUnavailable? ==> c.watermark == wm && c.file == file
    ensures max.MaxOf? ==>
      && c.watermark == max.ts && c.file == SetLastSuccessfulTimestamp(max.ts)
      && |c.effects| >= 2 && c.effects[|c.effects| - 2] == Write(Format(max.ts))
    ensures max.MaxNull? ==> c.watermark == wm && c.file == Present([])
    ensures forall i :: 0 <= i < |c.effects| && c.effects[i].Write? ==> i == |c.effects| - 2
  {
    match max
    case MaxUnavailable => Unpersisted(wm, file, loop, false)
    case MaxNull =>
      ProducedAppend(loop, [Write([]), FinalDrain]);
      Cycle(wm, Present([]), loop + [Write([]), FinalDrain], false)
    case MaxOf(ts) =>
      ProducedAppend(loop, [Write(Format(ts)), FinalDrain]);
      Cycle(ts, SetLastSuccessfulTimestamp(ts), loop + [Write(Format(ts)), FinalDrain], false)
  }

  /** `produce_message` from a watermark held in memory and a watermark file. */
  function ProduceCycle(wm: DateTime, file: WatermarkFile, query: Option<seq<Attempt>>, max: TableMax): (c: Cycle)
    requires ValidDateTime(wm)
    requires max.MaxOf? ==> ValidDateTime(max.ts)
    // a failed or empty query produces nothing and changes nothing
    ensures query.None? || query.value == [] ==> c == Cycle(wm, file, [FinalDrain], false)
    ensures EndsWithFinalDrain(c.effects)
    ensures query.Some? ==> Produced(c.effects) == DeliveredKeys(query.value[..FirstHalt(query.value)])
    ensures c.exited <==>
      query.Some? && FirstHalt(query.value) < |query.value| && ExitsProcess(query.value[FirstHalt(query.value)])
    // the watermark and its file change only when the loop completed and the maximum was fetched
    ensures c.watermark != wm || c.file != file ==>
      query.Some? && FirstHalt(query.value) == |query.value| && !max.MaxUnavailable?
    // on completion the watermark becomes the table maximum, in memory and on file, written just before the final flush
    ensures query.Some? && query.value != [] && FirstHalt(query.value) == |query.value| && max.MaxOf? ==>
      && c.watermark == max.ts && c.file == SetLastSuccessfulTimestamp(max.ts)
      && |c.effects| >= 2 && c.effects[|c.effects| - 2] == Write(Format(max.ts))
    // a NULL maximum leaves the in-memory watermark but an emptied file
    ensures query.Some? && query.value != [] && FirstHalt(query.value) == |query.value| && max.MaxNull? ==>
      c.watermark == wm && c.file == Present([])
    // the file is written at most once, right before the final flush
    ensures forall i :: 0 <= i < |c.effects| && c.effects[i].Write? ==> i == |c.effects| - 2
  {
    if query.None? || query.value == [] then Cycle(wm, file, [FinalDrain], false)
    else
      var loop := ProduceAll(query.value);
      if loop.1 == Completed then Persisted(wm, file, loop.0, max)
      else Unpersisted(wm, file, loop.0, loop.1 == Exited)
  }

  /** The query contract: every fetched row is strictly newer than the watermark. */
  predicate FetchedAfter(wm: DateTime, attempts: seq<Attempt>)
    requires ValidDateTime(wm)
  {
    forall i :: 0 <= i < |attempts| ==>
      ValidDateTime(attempts[i].row.updated) && Rank(attempts[i].row.updated) > Rank(wm)
  }

  /** The table maximum is at least the timestamp of every fetched row. */
  predicate MaxCovers(max: TableMax, attempts: seq<Attempt>) {
    max.MaxOf? ==>
      && ValidDateTime(max.ts)
      && forall i :: 0 <= i < |attempts| ==>
           ValidDateTime(attempts[i].row.updated) && Rank(attempts[i].row.updated) <= Rank(max.ts)
  }

  /**
   * Under the query contract the watermark never moves back, and a cycle that fetched rows and
   * completed moves it strictly forward.
   */
  lemma WatermarkMonotone(wm: DateTime, file: WatermarkFile, attempts: seq<Attempt>, max: TableMax)
    requires ValidDateTime(wm) && FetchedAfter(wm, attempts) && MaxCovers(max, attempts)
    ensures var c := ProduceCycle(wm, file, Some(attempts), max);
            && ValidDateTime(c.watermark) && Rank(c.watermark) >= Rank(wm)
            && (attempts != [] && FirstHalt(attempts) == |attempts| && max.MaxOf? ==> Rank(c.watermark) > Rank(wm))
  {
    var c := ProduceCycle(wm, file, Some(attempts), max);
    if attempts != [] && FirstHalt(attempts) == |attempts| && max.MaxOf? {
      assert c.watermark == max.ts;
      assert Rank(wm) < Rank(attempts[0].row.updated) <= Rank(max.ts);
    } else {
      assert c.watermark == wm;
    }
  }

  /**
   * Once a cycle has completed, no row it fetched is fetched again, including the rows it
   * skipped: the next query asks for rows newer than the table maximum.
   */
  lemma SkippedRowsAreNotRefetched(wm: DateTime, file: WatermarkFile, attempts: seq<Attempt>, max: TableMax, i: int)
    requires ValidDateTime(wm) && MaxCovers(max, attempts) && max.MaxOf?
    requires FirstHalt(attempts) == |attempts| && 0 <= i < |attempts|
    ensures var c := ProduceCycle(wm, file, Some(attempts), max);
            !(Rank(attempts[i].row.updated) > Rank(c.watermark))
  {
  }

  /**
   * The watermark written to the file is the one kept in memory: a restart reading the file
   * resumes from where the cycle left off, for every four-digit year.
   */
  lemma PersistedMatchesMemory(wm: DateTime, file: WatermarkFile, query: Option<seq<Attempt>>, max: TableMax)
    requires ValidDateTime(wm) && GetLastSuccessfulTimestamp(file) == Ok(wm)
    requires max.MaxOf? ==> ValidDateTime(max.ts) && 1000 <= max.ts.year
    requires !max.MaxNull?
    ensures var c := ProduceCycle(wm, file, query, max);
            GetLastSuccessfulTimestamp(c.file) == Ok(c.watermark)
  {
  }

  /**
   * From the sentinel, three rows stamped T1 < T2 < T3 that all publish are produced in order,
   * and the watermark becomes T3, the table maximum.
   */
  lemma ThreeRowsFromSentinel(r1: Row, r2: Row, r3: Row)
    requires ValidDateTime(r3.updated)
    ensures var attempts := [Attempt(r1, Serialized, Enqueued), Attempt(r2, Serialized, Enqueued), Attempt(r3, Serialized, Enqueued)];
            var c := ProduceCycle(Sentinel, Absent, Some(attempts), MaxOf(r3.updated));
            && c.watermark == r3.updated && !c.exited
            && c.effects == [Produce(Key(r1)), Produce(Key(r2)), Produce(Key(r3)), Write(Format(r3.updated)), FinalDrain]
  {
    var a1, a2, a3 := Attempt(r1, Serialized, Enqueued), Attempt(r2, Serialized, Enqueued), Attempt(r3, Serialized, Enqueued);
    var attempts := [a1, a2, a3];
    assert attempts[1..] == [a2, a3] && [a2, a3][1..] == [a3] && [a3][1..] == [];
    var p3 := ProduceAll([a3]);
    assert ProduceAll([]) == ([], Completed);
    assert [Produce(Key(r3))] + [] == [Produce(Key(r3))];
    assert p3 == ([Produce(Key(r3))], Completed);
    var p2 := ProduceAll([a2, a3]);
    assert [Produce(Key(r2))] + [Produce(Key(r3))] == [Produce(Key(r2)), Produce(Key(r3))];
    assert p2 == ([Produce(Key(r2)), Produce(Key(r3))], Completed);
    var p1 := ProduceAll(attempts);
    assert [Produce(Key(r1))] + [Produce(Key(r2)), Produce(Key(r3))] == [Produce(Key(r1)), Produce(Key(r2)), Produce(Key(r3))];
    assert p1 == ([Produce(Key(r1)), Produce(Key(r2)), Produce(Key(r3))], Completed);
  }
}
