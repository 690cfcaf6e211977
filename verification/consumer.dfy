/**
 * The consumer loop (src/consumer.py `KafkaConsumer.consume_message`) and the batch effects of
 * `_load_batch_to_snowflake`, as a step function over abstract poll events.
 *
 * The broker, the deserializers, the clock and Snowflake are outside the model: each event
 * carries what `poll` returned, what the deserializers made of it, the clock readings the loop
 * takes, and whether the sink accepts the load that event may trigger. The loop's visible
 * effects are recorded as a trace of `Load` and `Commit` actions.
 */
module Consumer {
  import opened Wrappers
  import opened Transfer

  /** `BATCH_SIZE` and `BATCH_TIME_LIMIT_SECONDS`. */
  datatype Config = Config(batchSize: nat, timeLimit: int)

  /** The values src/kafka_setting.py:60-61 configures. */
  const Configured := Config(100, 30)

  predicate ValidConfig(cfg: Config) {
    cfg.batchSize >= 1
  }

  /** What the key and value deserializers returned for a message, or that one of them raised. */
  datatype Payload =
    | Deserialized(key: Option<string>, value: Option<Record>)
    | DeserializeFailed

  /**
   * One turn of the poll loop. `now` is the clock reading compared with the time limit,
   * `resetAt` the reading stored when the timer is reset after a load, and `sinkOk` whether the
   * Snowflake PUT, COPY and commit would succeed if this event triggers a load.
   */
  datatype Event =
    | Idle(now: int, resetAt: int, sinkOk: bool)                       // poll returned None
    | PartitionEnd                                                     // _PARTITION_EOF
    | BrokerError(authFailed: bool)                                    // any other msg.error()
    | Message(payload: Payload, now: int, resetAt: int, sinkOk: bool)
    | Shutdown(sinkOk: bool)                                           // KeyboardInterrupt

  /**
   * Effects on the outside world: a load attempt of a batch (and whether it landed), and an
   * offset commit, which covers the whole consumed position; the model does not track offsets.
   */
  datatype Action = Load(records: seq<Record>, landed: bool) | Commit

  /**
   * When a flush commits offsets. `AsWritten` commits after every load attempt, as the code does;
   * `AfterLanding` commits only after a load that landed, as the comments in the loop intend.
   */
  datatype CommitPolicy = AsWritten | AfterLanding

  datatype State = State(batch: seq<Record>, lastBatchTime: int, trace: seq<Action>, stopped: bool)

  /** The consumer right after construction: empty batch, timer started at `startedAt`. */
  function Initial(startedAt: int): State {
    State([], startedAt, [], false)
  }

  /** The record a payload contributes to the batch, if both key and value deserialized to something. */
  function Accepted(p: Payload): Option<Record> {
    match p
    case Deserialized(Some(_), Some(v)) => Some(v)
    case _ => None
  }

  /**
   * Whether a load of `batch` lands: every timestamp converts, so that the JSON-lines text is
   * produced (`EncodeBatch` states the equivalence), and the Snowflake calls succeed.
   */
  predicate Lands(batch: seq<Record>, sinkOk: bool) {
    WellFormed(batch) && Convertible(batch) && sinkOk
  }

  /** The actions of one flush of a non-empty batch under a commit policy. */
  function FlushActions(policy: CommitPolicy, batch: seq<Record>, landed: bool): seq<Action> {
    [Load(batch, landed)] + (if policy == AsWritten || landed then [Commit] else [])
  }

  /**
   * `_load_batch_to_snowflake()` followed by `commit()`: the batch is handed to one load attempt
   * and cleared whether or not the load landed. The timer is left to the caller.
   */
  function Flush(st: State, policy: CommitPolicy, sinkOk: bool): (r: State)
    requires st.batch != []
    ensures r.batch == [] && r.lastBatchTime == st.lastBatchTime && r.stopped == st.stopped
    ensures r.trace == st.trace + FlushActions(policy, st.batch, Lands(st.batch, sinkOk))
  {
    var landed := Lands(st.batch, sinkOk);
    var commit := if policy == AsWritten || landed then [Commit] else [];
    st.(batch := [], trace := st.trace + [Load(st.batch, landed)] + commit)
  }

  /** Whether the step from `st` to `r` flushed, i.e. emitted a load attempt. */
  predicate Flushed(st: State, r: State) {
    |r.trace| > |st.trace|
  }

  /** The records handed to load attempts so far, in order. */
  function Loaded(trace: seq<Action>): seq<Record> {
    if trace == [] then []
    else Loaded(trace[..|trace| - 1]) + (if trace[|trace| - 1].Load? then trace[|trace| - 1].records else [])
  }

  /** One iteration of the `while True` loop, or the `finally` block for `Shutdown`. */
  function Step(cfg: Config, policy: CommitPolicy, st: State, ev: Event): (r: State)
    // once stopped, nothing happens
    ensures st.stopped ==> r == st
    // broker errors, including authentication failure, and partition ends change nothing
    ensures ev.PartitionEnd? || ev.BrokerError? ==> r == st
    // a message without key or value, or one that failed to deserialize, is dropped
    ensures ev.Message? && Accepted(ev.payload).None? ==> r == st
    // the history is only ever extended
    ensures |st.trace| <= |r.trace| && r.trace[..|st.trace|] == st.trace
    // a flush always leaves the batch empty
    ensures Flushed(st, r) ==> r.batch == []
    // the timer is reset only by a flush, to the reading taken after it; shutdown leaves it alone
    ensures r.lastBatchTime != st.lastBatchTime ==> Flushed(st, r) && !ev.Shutdown? && r.lastBatchTime == ev.resetAt
    ensures Flushed(st, r) && !ev.Shutdown? ==> r.lastBatchTime == ev.resetAt
    // an idle poll flushes exactly when the batch is non-empty and the time limit has elapsed
    ensures !st.stopped && ev.Idle? ==>
      (Flushed(st, r) <==> st.batch != [] && ev.now - st.lastBatchTime >= cfg.timeLimit)
    // an accepted record flushes exactly when it fills the batch or the time limit has elapsed
    ensures !st.stopped && ev.Message? && Accepted(ev.payload).Some? ==>
      (Flushed(st, r) <==> |st.batch| + 1 >= cfg.batchSize || ev.now - st.lastBatchTime >= cfg.timeLimit)
    // shutdown stops the loop after one last load of a non-empty batch
    ensures ev.Shutdown? ==> r.stopped
    ensures ev.Shutdown? && !st.stopped ==> r.batch == [] && (Flushed(st, r) <==> st.batch != [])
    // between events the batch stays below the size limit
    ensures ValidConfig(cfg) && |st.batch| < cfg.batchSize ==> |r.batch| < cfg.batchSize
  {
    if st.stopped then st
    else
      match ev
      case Idle(now, resetAt, sinkOk) =>
        if st.batch != [] && now - st.lastBatchTime >= cfg.timeLimit then
          Flush(st, policy, sinkOk).(lastBatchTime := resetAt)
        else st
      case PartitionEnd => st
      case BrokerError(_) => st
      case Message(payload, now, resetAt, sinkOk) =>
        if Accepted(payload).None? then st
        else
          var grown := st.(batch := st.batch + [Accepted(payload).value]);
          if |grown.batch| >= cfg.batchSize || now - st.lastBatchTime >= cfg.timeLimit then
            Flush(grown, policy, sinkOk).(lastBatchTime := resetAt)
          else grown
      case Shutdown(sinkOk) =>
        if st.batch != [] then
          Flush(st, policy, sinkOk).(stopped := true)
        else st.(stopped := true)
  }

  lemma LoadedAppend(t: seq<Action>, u: seq<Action>)
    ensures Loaded(t + u) == Loaded(t) + Loaded(u)
    decreases |u|
  {
    if u == [] {
      assert t + u == t;
    } else {
      assert (t + u)[..|t + u| - 1] == t + u[..|u| - 1];
      LoadedAppend(t, u[..|u| - 1]);
    }
  }

  /** A flush moves the whole batch, unchanged, into the load history. */
  lemma LoadedFlush(st: State, policy: CommitPolicy, sinkOk: bool)
    requires st.batch != []
    ensures Loaded(Flush(st, policy, sinkOk).trace) == Loaded(st.trace) + st.batch
  {
    var actions := FlushActions(policy, st.batch, Lands(st.batch, sinkOk));
    LoadedAppend(st.trace, actions);
    LoadedActions(policy, st.batch, Lands(st.batch, sinkOk));
  }

  /** The records of one flush's actions are its batch. */
  lemma LoadedActions(policy: CommitPolicy, batch: seq<Record>, landed: bool)
    ensures Loaded(FlushActions(policy, batch, landed)) == batch
  {
    var load := [Load(batch, landed)];
    assert load[..0] == [];
    assert Loaded(load) == batch;
    if policy == AsWritten || landed {
      var a := load + [Commit];
      assert a[..1] == load;
    }
  }

  /**
   * The order of effects a commit policy guarantees: no load of an empty batch; every commit
   * directly follows a load attempt, a landed one under `AfterLanding`; and every load attempt
   * that the policy commits is directly followed by its commit.
   */
  predicate Ordered(policy: CommitPolicy, t: seq<Action>) {
    && (forall i :: 0 <= i < |t| && t[i].Load? ==> t[i].records != [])
    && (forall i :: 0 <= i < |t| && t[i].Commit? ==>
          0 < i && t[i - 1].Load? && (policy == AfterLanding ==> t[i - 1].landed))
    && (forall i :: 0 <= i < |t| && t[i].Load? && (policy == AsWritten || t[i].landed) ==>
          i + 1 < |t| && t[i + 1].Commit?)
  }

  /** What holds of the consumer between events. */
  predicate Inv(cfg: Config, policy: CommitPolicy, st: State) {
    && |st.batch| < cfg.batchSize
    && Ordered(policy, st.trace)
    && (st.stopped ==> st.batch == [])
  }

  lemma OrderedFlush(policy: CommitPolicy, t: seq<Action>, batch: seq<Record>, landed: bool)
    requires Ordered(policy, t) && batch != []
    ensures Ordered(policy, t + FlushActions(policy, batch, landed))
  {
    var u := t + FlushActions(policy, batch, landed);
    assert u[|t|] == Load(batch, landed);
    forall i | 0 <= i < |u| && u[i].Commit?
      ensures 0 < i && u[i - 1].Load? && (policy == AfterLanding ==> u[i - 1].landed)
    {
      if i < |t| {
        assert u[i] == t[i] && u[i - 1] == t[i - 1];
      }
    }
    forall i | 0 <= i < |u| && u[i].Load? && (policy == AsWritten || u[i].landed)
      ensures i + 1 < |u| && u[i + 1].Commit?
    {
      if i < |t| {
        assert u[i] == t[i];
      }
    }
  }

  /** Every record accepted is either still in the batch or was handed to a load, in arrival order. */
  lemma StepConserves(cfg: Config, policy: CommitPolicy, st: State, ev: Event)
    requires !st.stopped
    ensures var r := Step(cfg, policy, st, ev);
            Loaded(r.trace) + r.batch == Loaded(st.trace) + st.batch +
              (if ev.Message? && Accepted(ev.payload).Some? then [Accepted(ev.payload).value] else [])
  {
    if ev.Message? && Accepted(ev.payload).Some? {
      AcceptedConserved(cfg, policy, st, ev);
    } else {
      OtherConserved(cfg, policy, st, ev);
      assert Loaded(st.trace) + st.batch + [] == Loaded(st.trace) + st.batch;
    }
  }

  lemma AcceptedConserved(cfg: Config, policy: CommitPolicy, st: State, ev: Event)
    requires !st.stopped && ev.Message? && Accepted(ev.payload).Some?
    ensures var r := Step(cfg, policy, st, ev);
            Loaded(r.trace) + r.batch == Loaded(st.trace) + st.batch + [Accepted(ev.payload).value]
  {
    var r := Step(cfg, policy, st, ev);
    var grown := st.(batch := st.batch + [Accepted(ev.payload).value]);
    if Flushed(st, r) {
      LoadedFlush(grown, policy, ev.sinkOk);
      assert r.trace == Flush(grown, policy, ev.sinkOk).trace;
    } else {
      assert r == grown;
    }
  }

  lemma OtherConserved(cfg: Config, policy: CommitPolicy, st: State, ev: Event)
    requires !st.stopped && !(ev.Message? && Accepted(ev.payload).Some?)
    ensures var r := Step(cfg, policy, st, ev);
            Loaded(r.trace) + r.batch == Loaded(st.trace) + st.batch
  {
    var r := Step(cfg, policy, st, ev);
    if Flushed(st, r) {
      LoadedFlush(st, policy, ev.sinkOk);
      assert r.trace == Flush(st, policy, ev.sinkOk).trace;
    } else {
      assert r.trace == r.trace[..|st.trace|] == st.trace;
    }
  }

  lemma StepKeepsInv(cfg: Config, policy: CommitPolicy, st: State, ev: Event)
    requires ValidConfig(cfg) && Inv(cfg, policy, st)
    ensures Inv(cfg, policy, Step(cfg, policy, st, ev))
  {
    var r := Step(cfg, policy, st, ev);
    if Flushed(st, r) {
      var flushed := if ev.Message? then st.batch + [Accepted(ev.payload).value] else st.batch;
      assert r.trace == st.trace + FlushActions(policy, flushed, Lands(flushed, ev.sinkOk));
      OrderedFlush(policy, st.trace, flushed, Lands(flushed, ev.sinkOk));
    }
  }

  /** The records of the events up to the first shutdown that join the batch, in arrival order. */
  function AcceptedUntilStop(events: seq<Event>): seq<Record> {
    if events == [] || events[0].Shutdown? then []
    else
      (if events[0].Message? && Accepted(events[0].payload).Some? then [Accepted(events[0].payload).value] else [])
        + AcceptedUntilStop(events[1..])
  }

  /** The consumer after a sequence of events. */
  function Run(cfg: Config, policy: CommitPolicy, st: State, events: seq<Event>): (r: State)
    requires ValidConfig(cfg) && Inv(cfg, policy, st)
    ensures Inv(cfg, policy, r)
    ensures st.stopped ==> r == st
    ensures |st.trace| <= |r.trace| && r.trace[..|st.trace|] == st.trace
    decreases |events|
  {
    if events == [] then st
    else
      var next := Step(cfg, policy, st, events[0]);
      StepKeepsInv(cfg, policy, st, events[0]);
      var r := Run(cfg, policy, next, events[1..]);
      assert r.trace[..|st.trace|] == r.trace[..|next.trace|][..|st.trace|];
      r
  }

  lemma ConcatAssoc<T>(a: seq<T>, b: seq<T>, c: seq<T>)
    ensures a + b + c == a + (b + c)
  {
  }

  /**
   * Every accepted record has been handed to a load attempt, landed or not, or is still in the
   * batch; none is duplicated or reordered.
   */
  lemma {:induction false} RunConserves(cfg: Config, policy: CommitPolicy, st: State, events: seq<Event>)
    requires ValidConfig(cfg) && Inv(cfg, policy, st) && !st.stopped
    ensures var r := Run(cfg, policy, st, events);
            Loaded(r.trace) + r.batch == Loaded(st.trace) + st.batch + AcceptedUntilStop(events)
    decreases |events|
  {
    if events != [] {
      var next := Step(cfg, policy, st, events[0]);
      StepKeepsInv(cfg, policy, st, events[0]);
      var r := Run(cfg, policy, next, events[1..]);
      assert Run(cfg, policy, st, events) == r;
      var acc := if events[0].Message? && Accepted(events[0].payload).Some? then [Accepted(events[0].payload).value] else [];
      StepConserves(cfg, policy, st, events[0]);
      assert Loaded(next.trace) + next.batch == Loaded(st.trace) + st.batch + acc;
      if events[0].Shutdown? {
        assert r == next;
        assert acc == [] && AcceptedUntilStop(events) == [];
      } else {
        RunConserves(cfg, policy, next, events[1..]);
        assert AcceptedUntilStop(events) == acc + AcceptedUntilStop(events[1..]);
        assert Loaded(r.trace) + r.batch == Loaded(next.trace) + next.batch + AcceptedUntilStop(events[1..]);
        ConcatAssoc(Loaded(st.trace) + st.batch, acc, AcceptedUntilStop(events[1..]));
      }
    }
  }

  /** A consumer that runs until shutdown has handed every accepted record to a load attempt. */
  lemma {:induction false} ShutdownLoadsEverything(cfg: Config, policy: CommitPolicy, start: int, events: seq<Event>)
    requires ValidConfig(cfg)
    requires exists i :: 0 <= i < |events| && events[i].Shutdown?
    ensures var r := Run(cfg, policy, Initial(start), events);
            r.stopped && r.batch == [] && Loaded(r.trace) == AcceptedUntilStop(events)
  {
    var st := Initial(start);
    assert Inv(cfg, policy, st);
    var r := Run(cfg, policy, st, events);
    assert Loaded(st.trace) == [];
    RunStops(cfg, policy, st, events);
    RunConserves(cfg, policy, st, events);
    assert r.batch == [] && st.batch == [];
    assert Loaded(r.trace) + r.batch == Loaded(r.trace);
    assert Loaded(st.trace) + st.batch + AcceptedUntilStop(events) == AcceptedUntilStop(events);
  }

  lemma {:induction false} RunStops(cfg: Config, policy: CommitPolicy, st: State, events: seq<Event>)
    requires ValidConfig(cfg) && Inv(cfg, policy, st)
    requires exists i :: 0 <= i < |events| && events[i].Shutdown?
    ensures Run(cfg, policy, st, events).stopped
    decreases |events|
  {
    StepKeepsInv(cfg, policy, st, events[0]);
    if !events[0].Shutdown? {
      var i :| 0 <= i < |events| && events[i].Shutdown?;
      assert events[1..][i - 1] == events[i];
      RunStops(cfg, policy, Step(cfg, policy, st, events[0]), events[1..]);
    } else {
      var next := Step(cfg, policy, st, events[0]);
      RunFromStopped(cfg, policy, next, events[1..]);
    }
  }

  lemma {:induction false} RunFromStopped(cfg: Config, policy: CommitPolicy, st: State, events: seq<Event>)
    requires ValidConfig(cfg) && Inv(cfg, policy, st) && st.stopped
    ensures Run(cfg, policy, st, events) == st
    decreases |events|
  {
    if events != [] {
      RunFromStopped(cfg, policy, Step(cfg, policy, st, events[0]), events[1..]);
    }
  }

  /**
   * As written, a flush commits even when the load did not land: a single record with the sink
   * failing is loaded without landing and its offset committed all the same.
   */
  lemma FailedLoadIsCommitted(rec: Record)
    ensures var ev := Message(Deserialized(Some(rec.productId), Some(rec)), 0, 0, false);
            Step(Config(1, 30), AsWritten, Initial(0), ev).trace == [Load([rec], false), Commit]
  {
    var ev := Message(Deserialized(Some(rec.productId), Some(rec)), 0, 0, false);
    assert Accepted(ev.payload) == Some(rec);
    var grown := Initial(0).(batch := [rec]);
    assert !Lands([rec], false);
    var r := Step(Config(1, 30), AsWritten, Initial(0), ev);
    assert Initial(0).batch + [rec] == [rec];
    assert r.batch == [];
    assert r.lastBatchTime == 0;
    assert r.trace == Flush(grown, AsWritten, false).trace;
  }

  /** Under the intended policy the same failing load is not committed. */
  lemma FailedLoadIsNotCommitted(rec: Record)
    ensures var ev := Message(Deserialized(Some(rec.productId), Some(rec)), 0, 0, false);
            Step(Config(1, 30), AfterLanding, Initial(0), ev).trace == [Load([rec], false)]
  {
    var ev := Message(Deserialized(Some(rec.productId), Some(rec)), 0, 0, false);
    var grown := Initial(0).(batch := [rec]);
    var r := Step(Config(1, 30), AfterLanding, Initial(0), ev);
    assert Accepted(ev.payload) == Some(rec);
    assert Initial(0).batch + [rec] == [rec];
    assert !Lands([rec], false);
    assert r.trace == Flush(grown, AfterLanding, false).trace;
  }

  /** A message carrying a record keyed by its product id, read at clock reading `t`, the sink up. */
  function Arrival(rec: Record, t: int): Event {
    Message(Deserialized(Some(rec.productId), Some(rec)), t, t, true)
  }

  lemma ArrivalStep(cfg: Config, policy: CommitPolicy, st: State, rec: Record, t: int)
    requires !st.stopped
    ensures var r := Step(cfg, policy, st, Arrival(rec, t));
            var b := st.batch + [rec];
            if |b| >= cfg.batchSize || t - st.lastBatchTime >= cfg.timeLimit then
              r == State([], t, st.trace + FlushActions(policy, b, Lands(b, true)), false)
            else r == st.(batch := b)
  {
    assert Accepted(Arrival(rec, t).payload) == Some(rec);
  }

  lemma IdleStep(cfg: Config, policy: CommitPolicy, st: State, t: int)
    requires !st.stopped && st.batch != [] && t - st.lastBatchTime >= cfg.timeLimit
    ensures Step(cfg, policy, st, Idle(t, t, true))
         == State([], t, st.trace + FlushActions(policy, st.batch, Lands(st.batch, true)), false)
  {
  }

  lemma RunCons(cfg: Config, policy: CommitPolicy, st: State, ev: Event, events: seq<Event>)
    requires ValidConfig(cfg) && Inv(cfg, policy, st)
    ensures Inv(cfg, policy, Step(cfg, policy, st, ev))
    ensures Run(cfg, policy, st, [ev] + events) == Run(cfg, policy, Step(cfg, policy, st, ev), events)
  {
    StepKeepsInv(cfg, policy, st, ev);
    assert ([ev] + events)[1..] == events;
  }

  /** With room for two records, a second arrival fills the batch and flushes both. */
  lemma PairFlush(cfg: Config, st: State, a: Record, ta: int, b: Record, tb: int)
    requires cfg.batchSize == 2 && !st.stopped && st.batch == [] && ta - st.lastBatchTime < cfg.timeLimit
    ensures Step(cfg, AsWritten, Step(cfg, AsWritten, st, Arrival(a, ta)), Arrival(b, tb))
         == State([], tb, st.trace + [Load([a, b], Lands([a, b], true)), Commit], false)
  {
    ArrivalStep(cfg, AsWritten, st, a, ta);
    var s1 := Step(cfg, AsWritten, st, Arrival(a, ta));
    assert s1 == st.(batch := [a]);
    ArrivalStep(cfg, AsWritten, s1, b, tb);
    assert s1.batch + [b] == [a, b];
  }

  /** A lone record arriving within the time limit waits for an idle poll past the limit. */
  lemma LoneFlush(cfg: Config, st: State, a: Record, ta: int, tb: int)
    requires cfg.batchSize == 2 && !st.stopped && st.batch == []
    requires ta - st.lastBatchTime < cfg.timeLimit <= tb - st.lastBatchTime
    ensures Step(cfg, AsWritten, Step(cfg, AsWritten, st, Arrival(a, ta)), Idle(tb, tb, true))
         == State([], tb, st.trace + [Load([a], Lands([a], true)), Commit], false)
  {
    ArrivalStep(cfg, AsWritten, st, a, ta);
    var s1 := Step(cfg, AsWritten, st, Arrival(a, ta));
    assert s1 == st.(batch := [a]);
    IdleStep(cfg, AsWritten, s1, tb);
  }

  /** `PairFlush` inside a run: the two arrivals leave the run to go on from the flushed state. */
  lemma PairRun(cfg: Config, st: State, a: Record, ta: int, b: Record, tb: int, events: seq<Event>)
    requires ValidConfig(cfg) && Inv(cfg, AsWritten, st)
    requires cfg.batchSize == 2 && !st.stopped && st.batch == [] && ta - st.lastBatchTime < cfg.timeLimit
    ensures var next := State([], tb, st.trace + [Load([a, b], Lands([a, b], true)), Commit], false);
            && Inv(cfg, AsWritten, next)
            && Run(cfg, AsWritten, st, [Arrival(a, ta), Arrival(b, tb)] + events) == Run(cfg, AsWritten, next, events)
  {
    PairFlush(cfg, st, a, ta, b, tb);
    RunPair(cfg, st, Arrival(a, ta), Arrival(b, tb), events);
  }

  /** `LoneFlush` inside a run. */
  lemma LoneRun(cfg: Config, st: State, a: Record, ta: int, tb: int, events: seq<Event>)
    requires ValidConfig(cfg) && Inv(cfg, AsWritten, st)
    requires cfg.batchSize == 2 && !st.stopped && st.batch == []
    requires ta - st.lastBatchTime < cfg.timeLimit <= tb - st.lastBatchTime
    ensures var next := State([], tb, st.trace + [Load([a], Lands([a], true)), Commit], false);
            && Inv(cfg, AsWritten, next)
            && Run(cfg, AsWritten, st, [Arrival(a, ta), Idle(tb, tb, true)] + events) == Run(cfg, AsWritten, next, events)
  {
    LoneFlush(cfg, st, a, ta, tb);
    RunPair(cfg, st, Arrival(a, ta), Idle(tb, tb, true), events);
  }

  /** The first four arrivals are loaded as two full batches, and the run goes on from there. */
  lemma TwoFullBatches(r1: Record, r2: Record, r3: Record, r4: Record, events: seq<Event>)
    ensures var next := State([], 4, [Load([r1, r2], Lands([r1, r2], true)), Commit,
                                      Load([r3, r4], Lands([r3, r4], true)), Commit], false);
            && Inv(Config(2, 30), AsWritten, next)
            && Run(Config(2, 30), AsWritten, Initial(0),
                   [Arrival(r1, 1), Arrival(r2, 2), Arrival(r3, 3), Arrival(r4, 4)] + events)
               == Run(Config(2, 30), AsWritten, next, events)
  {
    var cfg := Config(2, 30);
    var e1, e2, e3, e4 := Arrival(r1, 1), Arrival(r2, 2), Arrival(r3, 3), Arrival(r4, 4);
    var s0 := Initial(0);
    var l12, l34 := Load([r1, r2], Lands([r1, r2], true)), Load([r3, r4], Lands([r3, r4], true));
    var s2 := State([], 2, [l12, Commit], false);
    var s4 := State([], 4, [l12, Commit, l34, Commit], false);
    assert Inv(cfg, AsWritten, s0);
    assert [e1, e2, e3, e4] + events == [e1, e2] + ([e3, e4] + events);
    assert s0.trace + [l12, Commit] == s2.trace;
    PairRun(cfg, s0, r1, 1, r2, 2, [e3, e4] + events);
    assert s2.trace + [l34, Commit] == s4.trace;
    PairRun(cfg, s2, r3, 3, r4, 4, events);
  }

  /**
   * With a batch size of two, five records arriving within the time limit are loaded as two
   * full batches, each committed, and the fifth waits for an idle poll past the limit.
   */
  lemma FiveRecordsInBatchesOfTwo(r1: Record, r2: Record, r3: Record, r4: Record, r5: Record)
    ensures
      var events := [Arrival(r1, 1), Arrival(r2, 2), Arrival(r3, 3), Arrival(r4, 4), Arrival(r5, 5), Idle(40, 40, true)];
      Run(Config(2, 30), AsWritten, Initial(0), events).trace ==
        [Load([r1, r2], Lands([r1, r2], true)), Commit,
         Load([r3, r4], Lands([r3, r4], true)), Commit,
         Load([r5], Lands([r5], true)), Commit]
  {
    var cfg := Config(2, 30);
    var e1, e2, e3, e4, e5, e6 := Arrival(r1, 1), Arrival(r2, 2), Arrival(r3, 3), Arrival(r4, 4), Arrival(r5, 5), Idle(40, 40, true);
    var l12, l34, l5 := Load([r1, r2], Lands([r1, r2], true)), Load([r3, r4], Lands([r3, r4], true)), Load([r5], Lands([r5], true));
    var s4 := State([], 4, [l12, Commit, l34, Commit], false);
    var s6 := State([], 40, [l12, Commit, l34, Commit, l5, Commit], false);
    assert [e1, e2, e3, e4, e5, e6] == [e1, e2, e3, e4] + [e5, e6];
    TwoFullBatches(r1, r2, r3, r4, [e5, e6]);
    assert [e5, e6] == [e5, e6] + [];
    assert s4.trace + [l5, Commit] == s6.trace;
    LoneRun(cfg, s4, r5, 5, 40, []);
    assert Run(cfg, AsWritten, s6, []) == s6;
  }

  lemma RunPair(cfg: Config, st: State, a: Event, b: Event, events: seq<Event>)
    requires ValidConfig(cfg) && Inv(cfg, AsWritten, st)
    ensures Inv(cfg, AsWritten, Step(cfg, AsWritten, Step(cfg, AsWritten, st, a), b))
    ensures Run(cfg, AsWritten, st, [a, b] + events)
         == Run(cfg, AsWritten, Step(cfg, AsWritten, Step(cfg, AsWritten, st, a), b), events)
  {
    RunCons(cfg, AsWritten, st, a, [b] + events);
    RunCons(cfg, AsWritten, Step(cfg, AsWritten, st, a), b, events);
    assert [a, b] + events == [a] + ([b] + events);
  }
}
