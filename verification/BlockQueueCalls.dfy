/** What the calls of the blocking queue achieve, and that each of them returns in the end. */
module BlockQueueCalls {
  // A batch push gives up only on a closed or full queue; a push or pop leaves with its effect, or
  // for a reason; and a queue that nobody calls comes to rest with no call left that could go on.

  import opened Q = BlockQueue

  // ---------- batch pushes ----------

  /** The batch push returned in the last step, short of its end, on a closed or full queue. */
  ghost predicate GaveUp<T>(s: State<T>, t: State<T>, b: Batch<T>) {
    b in s.batches && t.returned == s.returned + [b] && (s.mon.closed || !HasRoom(s.mon))
  }

  lemma {:induction false} StepReturns<T>(s: State<T>, act: Action<T>, b: Batch<T>)
    requires Enabled(s, act) && b in Apply(s, act).returned && b !in s.returned && b.pushed < |b.items|
    ensures GaveUp(s, Apply(s, act), b)
  {
    hide Without, Tagged;
  }

  /** A batch push that returns fewer elements than it was given found the queue closed or full. */
  lemma {:induction false} ShortBatchMetFullQueue<T(!new)>(run: seq<State<T>>, i: nat, b: Batch<T>) returns (j: nat)
    requires IsRun(run) && i < |run| && b in run[i].returned && b.pushed < |b.items|
    ensures j < i && GaveUp(run[j], run[j + 1], b)
  {
    hide Enabled, Apply, GaveUp;
    if i == 0 {
      assert false;
    } else if b in run[i - 1].returned {
      j := ShortBatchMetFullQueue(run, i - 1, b);
    } else {
      assert Next(run[i - 1], run[i]);
      var act :| Enabled(run[i - 1], act) && run[i] == Apply(run[i - 1], act);
      StepReturns(run[i - 1], act, b);
      j := i - 1;
    }
  }

  /** How many of a batch's elements an undisturbed queue takes. */
  function Fitting<T>(m: Monitor<T>, count: nat): nat {
    if m.closed then 0 else Least(count, FreeSlots(m))
  }

  /** The turns of the i-th batch, with no other step between them. */
  ghost function Alone<T>(s: State<T>, i: nat): (r: State<T>)
    requires i < |s.batches|
    decreases |s.batches[i].items| - s.batches[i].pushed
  {
    var t := Apply(s, BatchNext(i, 0));
    if |t.batches| < |s.batches| then t else Alone(t, i)
  }

  lemma {:induction false} OneTurn<T>(s: State<T>, i: nat)
    requires i < |s.batches|
    ensures var b := s.batches[i];
            var t := Apply(s, BatchNext(i, 0));
            if b.pushed < |b.items| && !s.mon.closed && HasRoom(s.mon)
            then |t.batches| == |s.batches| && t.batches[i] == b.(pushed := b.pushed + 1) && t.returned == s.returned
                 && t.mon == s.mon.(queue := s.mon.queue + [b.items[b.pushed]])
            else |t.batches| < |s.batches| && t.mon == s.mon && t.returned == s.returned + [b]
  {
  }

  lemma {:induction false} AloneTakes<T>(s: State<T>, i: nat)
    requires i < |s.batches| && s.batches[i].pushed <= |s.batches[i].items|
    ensures var b := s.batches[i];
            var n := b.pushed + Fitting(s.mon, |b.items| - b.pushed);
            && Alone(s, i).mon == s.mon.(queue := s.mon.queue + b.items[b.pushed..n])
            && Alone(s, i).returned == s.returned + [b.(pushed := n)]
    decreases |s.batches[i].items| - s.batches[i].pushed
  {
    hide Apply;
    var b := s.batches[i];
    var t := Apply(s, BatchNext(i, 0));
    OneTurn(s, i);
    if b.pushed < |b.items| && !s.mon.closed && HasRoom(s.mon) {
      AloneTakes(t, i);
      var n := b.pushed + Fitting(s.mon, |b.items| - b.pushed);
      assert b.items[b.pushed..n] == [b.items[b.pushed]] + b.items[b.pushed + 1..n];
    } else {
      assert b.items[b.pushed..b.pushed] == [];
    }
  }

  /** Undisturbed, a batch push puts in as many elements, from the front, as there are free slots,
      none on a closed queue, and returns their number. */
  lemma {:induction false} UndisturbedBatch<T>(s: State<T>, items: seq<T>)
    ensures var t := Apply(s, PushBatch(items));
            var r := if |t.batches| > |s.batches| then Alone(t, |s.batches|) else t;
            var n := Fitting(s.mon, |items|);
            && r.mon == s.mon.(queue := s.mon.queue + items[..n])
            && r.returned == s.returned + [Batch(s.calls, items, n)]
  {
    var t := Apply(s, PushBatch(items));
    if |t.batches| > |s.batches| {
      AloneTakes(t, |s.batches|);
      var n := Fitting(s.mon, |items|);
      assert items[0..n] == items[..n];
    } else {
      assert items[..|items|] == items;
    }
  }

  // ---------- pushes and pops ----------

  /** The push calls inside, asleep or woken. */
  function Pushers<T(==)>(s: State<T>): multiset<Producer<T>> {
    multiset(s.sleepP) + multiset(s.wokenP)
  }

  function Poppers<T>(s: State<T>): multiset<Consumer> {
    multiset(s.sleepC) + multiset(s.wokenC)
  }

  /** The item is now at the end of the queue, if the queue was open and not full. */
  predicate Puts<T(==)>(s: State<T>, t: State<T>, item: T) {
    t.mon == if !s.mon.closed && |s.mon.queue| < s.mon.capacity then s.mon.(queue := s.mon.queue + [item]) else s.mon
  }

  /** The call has removed what it may of the front of the queue. */
  predicate Gets<T(==)>(s: State<T>, t: State<T>, c: Consumer) {
    var n := Least(Most(c), |s.mon.queue|);
    t.removed == s.removed + s.mon.queue[..n] && t.mon == s.mon.(queue := s.mon.queue[n..])
  }

  lemma WithoutOne<A>(s: seq<A>, i: nat)
    requires i < |s|
    ensures multiset(Without(s, i)) == multiset(s) - multiset{s[i]}
  {
    assert s == s[..i] + [s[i]] + s[i + 1..];
  }

  lemma MovesOver<A>(asleep: seq<A>, woken: seq<A>, i: nat)
    requires i < |asleep|
    ensures multiset(Without(asleep, i)) + multiset(woken + [asleep[i]]) == multiset(asleep) + multiset(woken)
  {
    assert asleep == asleep[..i] + [asleep[i]] + asleep[i + 1..];
  }

  lemma AllMoveOver<A>(asleep: seq<A>, woken: seq<A>)
    ensures multiset([]) + multiset(woken + asleep) == multiset(asleep) + multiset(woken)
  {
  }

  lemma {:induction false} WakingOne<T>(s: State<T>, pick: nat)
    ensures PickOk(s.sleepC, pick) ==> Poppers(WakeConsumer(s, pick)) == Poppers(s)
    ensures PickOk(s.sleepP, pick) ==> Pushers(WakeProducer(s, pick)) == Pushers(s)
  {
    hide Without;
    if pick < |s.sleepC| { MovesOver(s.sleepC, s.wokenC, pick); }
    if pick < |s.sleepP| { MovesOver(s.sleepP, s.wokenP, pick); }
  }

  lemma {:induction false} WakingAll<T>(s: State<T>)
    ensures Poppers(WakeAllConsumers(s)) == Poppers(s) && Pushers(WakeAllProducers(s)) == Pushers(s)
  {
    AllMoveOver(s.sleepC, s.wokenC);
    AllMoveOver(s.sleepP, s.wokenP);
  }

  /** Once its wait is over, a push adds its item on an open queue, and changes no one else's call. */
  lemma {:induction false} FinishedPush<T>(s: State<T>, item: T, pick: nat)
    requires PickOk(s.sleepC, pick)
    ensures var r := FinishPush(s, item, pick);
            && Pushers(r) == Pushers(s) && Poppers(r) == Poppers(s)
            && r.mon == if s.mon.closed then s.mon else s.mon.(queue := s.mon.queue + [item])
  {
    hide Pushers, Poppers;
    var t := s.(calls := s.calls + 1);
    PutLeavesCalls(t, item, s.calls, pick);
    SameCalls(s, t);
  }

  lemma {:induction false} PutLeavesCalls<T>(s: State<T>, item: T, call: nat, pick: nat)
    requires PickOk(s.sleepC, pick)
    ensures var r := PutOne(s, item, call, pick);
            Pushers(r) == Pushers(s) && Poppers(r) == Poppers(s) && r.mon == s.mon.(queue := s.mon.queue + [item])
  {
    var t := s.(mon := s.mon.(queue := s.mon.queue + [item]), accepted := s.accepted + [Entry(item, call)]);
    hide Poppers;
    WakingOne(t, pick);
    SameCalls(s, t);
  }

  lemma SameCalls<T>(s: State<T>, t: State<T>)
    requires s.sleepP == t.sleepP && s.wokenP == t.wokenP && s.sleepC == t.sleepC && s.wokenC == t.wokenC
    ensures Pushers(s) == Pushers(t) && Poppers(s) == Poppers(t)
  {
  }

  /** Once its wait is over, a pop takes its items, and changes no one else's call. */
  lemma {:induction false} FinishedPop<T>(s: State<T>, c: Consumer, pick: nat)
    requires PickOk(s.sleepP, pick)
    ensures var r := FinishPop(s, c, pick);
            Pushers(r) == Pushers(s) && Poppers(r) == Poppers(s) && Gets(s, r, c)
  {
    hide Pushers;
    var n := Least(Most(c), |s.mon.queue|);
    var t := s.(mon := s.mon.(queue := s.mon.queue[n..]), removed := s.removed + s.mon.queue[..n]);
    WakingOne(t, pick);
    WakingAll(t);
    SameCalls(s, t);
  }

  lemma {:induction false} PusherGone<T>(s: State<T>, i: nat)
    requires i < |s.wokenP|
    ensures var t := s.(wokenP := Without(s.wokenP, i));
            && Pushers(t) == Pushers(s) - multiset{s.wokenP[i]} && Poppers(t) == Poppers(s)
            && Pushers(t.(sleepP := s.sleepP + [s.wokenP[i]])) == Pushers(s)
            && Poppers(t.(sleepP := s.sleepP + [s.wokenP[i]])) == Poppers(s)
  {
    hide Without;
    WithoutOne(s.wokenP, i);
    MovesOver(s.wokenP, s.sleepP, i);
  }

  lemma {:induction false} PusherTimedOut<T>(s: State<T>, i: nat)
    requires i < |s.sleepP|
    ensures var t := s.(sleepP := Without(s.sleepP, i));
            Pushers(t) == Pushers(s) - multiset{s.sleepP[i]} && Poppers(t) == Poppers(s)
  {
    hide Without;
    WithoutOne(s.sleepP, i);
  }

  lemma {:induction false} PopperGone<T>(s: State<T>, i: nat)
    requires i < |s.wokenC|
    ensures var t := s.(wokenC := Without(s.wokenC, i));
            && Poppers(t) == Poppers(s) - multiset{s.wokenC[i]} && Pushers(t) == Pushers(s)
            && Poppers(t.(sleepC := s.sleepC + [s.wokenC[i]])) == Poppers(s)
            && Pushers(t.(sleepC := s.sleepC + [s.wokenC[i]])) == Pushers(s)
  {
    hide Without;
    WithoutOne(s.wokenC, i);
    MovesOver(s.wokenC, s.sleepC, i);
  }

  lemma {:induction false} PopperTimedOut<T>(s: State<T>, i: nat)
    requires i < |s.sleepC|
    ensures var t := s.(sleepC := Without(s.sleepC, i));
            Poppers(t) == Poppers(s) - multiset{s.sleepC[i]} && Pushers(t) == Pushers(s)
  {
    hide Without;
    WithoutOne(s.sleepC, i);
  }

  /** Every waiting call of the state is asleep or woken in the other one too. */
  predicate SameWaiting<T(==)>(s: State<T>, t: State<T>) {
    Pushers(t) == Pushers(s) && Poppers(t) == Poppers(s)
  }

  /** A push call leaves once the queue is closed or has room, or when its time is up; it leaves its item
      behind if the queue is open and not full then, and nothing otherwise. */
  lemma {:induction false} PushOutcome<T>(s: State<T>, act: Action<T>)
    requires Enabled(s, act) && (act.TryPush? || act.Push? || act.ProducerRuns? || act.ProducerTimesOut?)
    ensures var t := Apply(s, act);
            && Poppers(t) == Poppers(s)
            && match act
               case TryPush(item, _) => Pushers(t) == Pushers(s) && Puts(s, t, item)
               case Push(item, timed, _) =>
                 if ProducerReady(s.mon) then Pushers(t) == Pushers(s) && Puts(s, t, item)
                 else Pushers(t) == Pushers(s) + multiset{Producer(item, timed)} && t.mon == s.mon
               case ProducerRuns(i, expired, _) =>
                 if ProducerReady(s.mon) || expired
                 then Pushers(t) == Pushers(s) - multiset{s.wokenP[i]} && Puts(s, t, s.wokenP[i].item)
                 else Pushers(t) == Pushers(s) && t.mon == s.mon
               case ProducerTimesOut(i, _) =>
                 Pushers(t) == Pushers(s) - multiset{s.sleepP[i]} && Puts(s, t, s.sleepP[i].item)
               case _ => true
  {
    hide Without, PutOne, FinishPush, Pushers, Poppers;
    match act
    case TryPush(item, pick) => TriedPush(s, item, pick);
    case Push(item, timed, pick) =>
      FinishedPush(s, item, pick);
      PusherAdded(s, Producer(item, timed));
    case ProducerRuns(i, expired, pick) =>
      var t := s.(wokenP := Without(s.wokenP, i));
      PusherGone(s, i);
      FinishedPush(t, s.wokenP[i].item, pick);
    case ProducerTimesOut(i, pick) =>
      var t := s.(sleepP := Without(s.sleepP, i));
      PusherTimedOut(s, i);
      FinishedPush(t, s.sleepP[i].item, pick);
  }

  lemma {:induction false} TriedPush<T>(s: State<T>, item: T, pick: nat)
    requires Enabled(s, TryPush(item, pick))
    ensures var t := Apply(s, TryPush(item, pick));
            Poppers(t) == Poppers(s) && Pushers(t) == Pushers(s) && Puts(s, t, item)
  {
    hide PutOne, Pushers, Poppers;
    var t := s.(calls := s.calls + 1);
    SameCalls(s, t);
    PutLeavesCalls(t, item, s.calls, pick);
  }

  lemma PusherAdded<T>(s: State<T>, p: Producer<T>)
    ensures var t := s.(sleepP := s.sleepP + [p]); Pushers(t) == Pushers(s) + multiset{p} && Poppers(t) == Poppers(s)
  {
  }

  lemma PopperAdded<T>(s: State<T>, c: Consumer)
    ensures var t := s.(sleepC := s.sleepC + [c]); Poppers(t) == Poppers(s) + multiset{c} && Pushers(t) == Pushers(s)
  {
  }

  /** A pop call leaves once the queue is closed or has an item, or when its time is up, and takes from the
      front what there is, up to its maximum. */
  lemma {:induction false} PopOutcome<T>(s: State<T>, act: Action<T>)
    requires Enabled(s, act) && (act.TryPop? || act.Pop? || act.ConsumerRuns? || act.ConsumerTimesOut?)
    ensures var t := Apply(s, act);
            && Pushers(t) == Pushers(s)
            && match act
               case TryPop(_) => Poppers(t) == Poppers(s) && Gets(s, t, One(false))
               case Pop(c, _) =>
                 if ConsumerReady(s.mon) then Poppers(t) == Poppers(s) && Gets(s, t, c)
                 else Poppers(t) == Poppers(s) + multiset{c} && t.mon == s.mon
               case ConsumerRuns(i, expired, _) =>
                 if ConsumerReady(s.mon) || expired
                 then Poppers(t) == Poppers(s) - multiset{s.wokenC[i]} && Gets(s, t, s.wokenC[i])
                 else Poppers(t) == Poppers(s) && t.mon == s.mon
               case ConsumerTimesOut(i, _) => Poppers(t) == Poppers(s) - multiset{s.sleepC[i]} && Gets(s, t, s.sleepC[i])
               case _ => true
  {
    hide Without, FinishPop, Pushers, Poppers;
    match act
    case TryPop(pick) => FinishedPop(s, One(false), pick);
    case Pop(c, pick) =>
      FinishedPop(s, c, pick);
      PopperAdded(s, c);
    case ConsumerRuns(i, expired, pick) =>
      var t := s.(wokenC := Without(s.wokenC, i));
      PopperGone(s, i);
      FinishedPop(t, s.wokenC[i], pick);
    case ConsumerTimesOut(i, pick) =>
      var t := s.(sleepC := Without(s.sleepC, i));
      PopperTimedOut(s, i);
      FinishedPop(t, s.sleepC[i], pick);
  }

  /** No other step removes or adds a waiting call. */
  lemma {:induction false} OthersKeepWaiting<T>(s: State<T>, act: Action<T>)
    requires Enabled(s, act) && !(act.TryPush? || act.Push? || act.ProducerRuns? || act.ProducerTimesOut?)
    requires !(act.TryPop? || act.Pop? || act.ConsumerRuns? || act.ConsumerTimesOut?)
    ensures SameWaiting(s, Apply(s, act))
  {
    hide Without, Tagged, PutOne, Pushers, Poppers;
    var t := Apply(s, act);
    match act
    case ProducerStirs(i) =>
      WakingOne(s, i);
      SameConsumers(s, t);
    case ConsumerStirs(i) =>
      WakingOne(s, i);
      SameProducers(s, t);
    case Flush(i) =>
      WakingOne(s, i);
      SameProducers(s, t);
    case PushBatch(items) =>
      SameProducers(s, t);
      EitherWay(s, t);
    case BatchNext(i, pick) =>
      var b := s.batches[i];
      if b.pushed < |b.items| && !s.mon.closed && HasRoom(s.mon) {
        var u := s.(batches := s.batches[i := b.(pushed := b.pushed + 1)]);
        PutLeavesCalls(u, b.items[b.pushed], b.id, pick);
        SameCalls(s, u);
      } else {
        SameCalls(s, t);
      }
    case _ => EitherWay(s, t);
  }

  lemma SameConsumers<T>(s: State<T>, t: State<T>)
    requires s.sleepC == t.sleepC && s.wokenC == t.wokenC
    ensures Poppers(s) == Poppers(t)
  {
  }

  lemma SameProducers<T>(s: State<T>, t: State<T>)
    requires s.sleepP == t.sleepP && s.wokenP == t.wokenP
    ensures Pushers(s) == Pushers(t)
  {
  }

  lemma {:induction false} EitherWay<T>(s: State<T>, t: State<T>)
    requires (t.sleepP == s.sleepP && t.wokenP == s.wokenP) || (t.sleepP == [] && t.wokenP == s.wokenP + s.sleepP)
    requires (t.sleepC == s.sleepC && t.wokenC == s.wokenC) || (t.sleepC == [] && t.wokenC == s.wokenC + s.sleepC)
    ensures SameWaiting(s, t)
  {
    AllMoveOver(s.sleepP, s.wokenP);
    AllMoveOver(s.sleepC, s.wokenC);
  }

  /** Flush wakes one consumer if there is one asleep, NotifyAll wakes everybody. */
  lemma {:induction false} NotifyOutcome<T>(s: State<T>, pick: nat)
    requires PickOk(s.sleepC, pick)
    ensures |Apply(s, Flush(pick)).sleepC| == |s.sleepC| - Least(1, |s.sleepC|)
    ensures Apply(s, NotifyAll).sleepC == [] && Apply(s, NotifyAll).sleepP == []
  {
  }

  /** Spurious wakeups apart, a push is woken only where a slot may have become free, the queue was closed or
      NotifyAll was called, and a pop only where an item was put in, or likewise, or Flush was called. */
  lemma {:induction false} WokenForAReason<T>(s: State<T>, act: Action<T>)
    requires Enabled(s, act)
    ensures |Apply(s, act).wokenP| > |s.wokenP| ==>
              || act.ProducerStirs? || act.CloseNotifiesProducers? || act.NotifyAll? || act.Clear?
              || (act.SetCapacity? && |s.mon.queue| < act.capacity)
              || |Apply(s, act).mon.queue| < |s.mon.queue|
    ensures |Apply(s, act).wokenC| > |s.wokenC| ==>
              || act.ConsumerStirs? || act.CloseNotifiesConsumers? || act.NotifyAll? || act.Flush?
              || |Apply(s, act).accepted| > |s.accepted| || (act.PushBatch? && act.items == [])
  {
    hide Without, Tagged;
  }

  // ---------- every call returns in the end ----------

  /** The steps the queue takes by itself: no new call, no timeout, no spurious wakeup. */
  predicate Internal<T>(act: Action<T>) {
    || act.ProducerRuns? || act.ConsumerRuns? || act.BatchNext?
    || act.CloseNotifiesProducers? || act.CloseNotifiesConsumers?
  }

  function TurnsLeft<T>(b: Batch<T>): nat {
    if b.pushed <= |b.items| then |b.items| - b.pushed + 1 else 1
  }

  function BatchTurns<T>(bs: seq<Batch<T>>): (n: nat) {
    if bs == [] then 0 else BatchTurns(bs[..|bs| - 1]) + TurnsLeft(bs[|bs| - 1])
  }

  /** The calls inside, with the turns their loops may still take. */
  function CallsLeft<T>(s: State<T>): (n: nat) {
    |s.sleepP| + |s.wokenP| + |s.sleepC| + |s.wokenC| + BatchTurns(s.batches) + 2 * s.closeP + s.closeC
  }

  function Awake<T>(s: State<T>): (n: nat) {
    |s.wokenP| + |s.wokenC|
  }

  lemma {:induction false} BatchTurnsUpdate<T>(bs: seq<Batch<T>>, i: nat, b: Batch<T>)
    requires i < |bs|
    ensures BatchTurns(bs[i := b]) == BatchTurns(bs) - TurnsLeft(bs[i]) + TurnsLeft(b)
    ensures BatchTurns(Without(bs, i)) == BatchTurns(bs) - TurnsLeft(bs[i])
  {
    hide TurnsLeft;
    var front, last := bs[..|bs| - 1], bs[|bs| - 1];
    if i < |bs| - 1 {
      BatchTurnsUpdate(front, i, b);
      var rest := Without(bs, i);
      assert rest[..|rest| - 1] == Without(front, i) && rest[|rest| - 1] == last;
    } else {
      assert Without(bs, i) == front;
    }
  }

  /** Every internal step brings the queue closer to rest: left to itself, it stops after finitely many. */
  lemma {:induction false} InternalStepsEnd<T>(s: State<T>, act: Action<T>)
    requires Enabled(s, act) && Internal(act)
    ensures var t := Apply(s, act);
            CallsLeft(t) < CallsLeft(s) || (CallsLeft(t) == CallsLeft(s) && Awake(t) < Awake(s))
  {
    hide Without, BatchTurns;
    match act
    case BatchNext(i, pick) =>
      var b := s.batches[i];
      BatchTurnsUpdate(s.batches, i, b.(pushed := b.pushed + 1));
    case _ =>
  }

  /** No internal step can be taken. */
  ghost predicate AtRest<T(!new)>(s: State<T>) {
    forall act: Action<T> | Internal(act) :: !Enabled(s, act)
  }

  /** At rest, in runs whose waiting calls all take at least one item, no batch push and no Close is under
      way, a push waits only on an open and full queue, and a pop only on an open and empty one. */
  lemma {:induction false} RestMeansBlocked<T(!new)>(run: seq<State<T>>, i: nat)
    requires IsTakingRun(run) && i < |run| && AtRest(run[i])
    ensures var s := run[i];
            && s.wokenP == [] && s.wokenC == [] && s.batches == [] && s.closeP == 0 == s.closeC
            && (s.sleepP != [] ==> !s.mon.closed && |s.mon.queue| >= s.mon.capacity)
            && (s.sleepC != [] ==> !s.mon.closed && s.mon.queue == [])
  {
    hide IsTakingRun;
    NoWakeupIsLost(run, i);
    var s := run[i];
    assert !Enabled(s, ProducerRuns(0, false, 0)) && !Enabled(s, ConsumerRuns(0, false, 0)) && !Enabled(s, BatchNext(0, 0));
    assert !Enabled(s, CloseNotifiesProducers) && !Enabled(s, CloseNotifiesConsumers);
  }
}
