/** The bounded blocking queue. */
module BlockQueue {
  // A monitor with one condition variable for producers and one for consumers. Every critical
  // section is one atomic step; a notify outside the lock is a step of its own; a blocked call is
  // asleep until it is notified, wakes spuriously or times out, and then woken until it gets the
  // lock again.

  // ---------- the protected state ----------

  datatype Monitor<T> = Monitor(queue: seq<T>, capacity: nat, closed: bool)

  predicate HasRoom<T>(m: Monitor<T>) {
    |m.queue| < m.capacity
  }

  /** The predicate producers wait for. */
  predicate ProducerReady<T>(m: Monitor<T>) {
    m.closed || HasRoom(m)
  }

  /** The predicate consumers wait for. */
  predicate ConsumerReady<T>(m: Monitor<T>) {
    m.closed || m.queue != []
  }

  function Least(a: nat, b: nat): nat {
    if a < b then a else b
  }

  function FreeSlots<T>(m: Monitor<T>): nat {
    if HasRoom(m) then m.capacity - |m.queue| else 0
  }

  /** The queue object. Each method is the critical section of a call that does not wait, or has waited; the
      last clause of each says that it is the step of that call. */
  class BlockQueue<T> {
    var queue: seq<T>
    var capacity: nat
    var isClose: bool

    constructor (maxCapacity: nat)
      ensures Contents() == Monitor([], maxCapacity, false)
    {
      queue, capacity, isClose := [], maxCapacity, false;
    }

    ghost function Contents(): Monitor<T>
      reads this
    {
      Monitor(queue, capacity, isClose)
    }

    method TryPush(item: T) returns (ok: bool)
      modifies this
      ensures ok == (!old(isClose) && HasRoom(old(Contents())))
      ensures Contents() == if ok then old(Contents()).(queue := old(queue) + [item]) else old(Contents())
      ensures forall s: State<T>, pick | s.mon == old(Contents()) && PickOk(s.sleepC, pick) ::
                var t := Apply(s, Action.TryPush(item, pick));
                t.mon == Contents() && t.accepted == s.accepted + if ok then [Entry(item, s.calls)] else []
    {
      if isClose || |queue| >= capacity { return false; }
      queue := queue + [item];
      return true;
    }

    method TryPop() returns (r: seq<T>)
      modifies this
      ensures r == old(queue)[..Least(1, |old(queue)|)]
      ensures Contents() == old(Contents()).(queue := old(queue)[|r|..])
      ensures forall s: State<T>, pick | s.mon == old(Contents()) && PickOk(s.sleepP, pick) ::
                var t := Apply(s, Action.TryPop(pick)); t.mon == Contents() && t.removed == s.removed + r
    {
      if queue == [] { return []; }
      r := [queue[0]];
      queue := queue[1..];
    }

    /** The locked half of a batch push: everything at once, or nothing. */
    method PushAll(items: seq<T>) returns (pushed: nat)
      modifies this
      ensures if !old(isClose) && |old(queue)| + |items| <= old(capacity)
              then pushed == |items| && Contents() == old(Contents()).(queue := old(queue) + items)
              else pushed == 0 && Contents() == old(Contents())
      ensures forall s: State<T> | s.mon == old(Contents()) :: Apply(s, PushBatch(items)).mon == Contents()
    {
      pushed := 0;
      if !isClose && |queue| + |items| <= capacity {
        while pushed < |items|
          invariant pushed <= |items|
          invariant queue == old(queue) + items[..pushed] && capacity == old(capacity) && isClose == old(isClose)
        {
          queue := queue + [items[pushed]];
          pushed := pushed + 1;
        }
      }
    }

    /** A batch push that no other call disturbs: as much of the batch as there is room for. */
    method PushRange(items: seq<T>) returns (pushed: nat)
      modifies this
      ensures pushed == if old(isClose) then 0 else Least(|items|, FreeSlots(old(Contents())))
      ensures Contents() == old(Contents()).(queue := old(queue) + items[..pushed])
    {
      pushed := PushAll(items);
      if pushed == |items| { return; }
      while pushed < |items|
        invariant pushed <= |items| && capacity == old(capacity) && isClose == old(isClose)
        invariant queue == old(queue) + items[..pushed]
        invariant pushed > 0 ==> !isClose && |queue| <= capacity
      {
        var ok := TryPush(items[pushed]);
        if !ok { break; }
        pushed := pushed + 1;
      }
    }

    /** Push once its wait is over. */
    method Push(item: T) returns (ok: bool)
      requires ProducerReady(Contents())
      modifies this
      ensures ok == !old(isClose)
      ensures Contents() == if ok then old(Contents()).(queue := old(queue) + [item]) else old(Contents())
      ensures forall s: State<T>, pick | s.mon == old(Contents()) && PickOk(s.sleepC, pick) ::
                var t := Apply(s, Action.Push(item, false, pick));
                t.mon == Contents() && t.accepted == s.accepted + if ok then [Entry(item, s.calls)] else []
    {
      if isClose { return false; }
      queue := queue + [item];
      return true;
    }

    method Clear()
      modifies this
      ensures Contents() == old(Contents()).(queue := [])
      ensures forall s: State<T> | s.mon == old(Contents()) :: Apply(s, Action.Clear).mon == Contents()
    {
      queue := [];
    }

    method SetCapacity(newCapacity: nat)
      modifies this
      ensures Contents() == old(Contents()).(capacity := newCapacity)
      ensures forall s: State<T> | s.mon == old(Contents()) :: Apply(s, Action.SetCapacity(newCapacity)).mon == Contents()
    {
      capacity := newCapacity;
    }

    /** The locked half of Close. */
    method Close()
      modifies this
      ensures Contents() == old(Contents()).(closed := true)
      ensures forall s: State<T> | s.mon == old(Contents()) :: Apply(s, Action.Close).mon == Contents()
    {
      isClose := true;
    }

    /** The loop of a batch pop. */
    method PopUpTo(maxCount: nat) returns (taken: seq<T>)
      modifies this
      ensures taken == old(queue)[..Least(maxCount, |old(queue)|)]
      ensures Contents() == old(Contents()).(queue := old(queue)[|taken|..])
      ensures forall s: State<T>, pick | s.mon == old(Contents()) && ConsumerReady(s.mon) && PickOk(s.sleepP, pick) ::
                var t := Apply(s, Pop(Many(maxCount, false), pick));
                t.mon == Contents() && t.removed == s.removed + taken
    {
      taken := [];
      while queue != [] && |taken| < maxCount
        invariant |taken| <= Least(maxCount, |old(queue)|)
        invariant taken == old(queue)[..|taken|] && queue == old(queue)[|taken|..]
        invariant capacity == old(capacity) && isClose == old(isClose)
        decreases |queue|
      {
        taken := taken + [queue[0]];
        queue := queue[1..];
      }
    }
  }

  // ---------- calls and their steps ----------

  /** A blocked push. */
  datatype Producer<T> = Producer(item: T, timed: bool)

  /** A call that waits for items: a pop, a Peek, or a batch pop with its maximum. */
  datatype Consumer = One(timed: bool) | Look(timed: bool) | Many(limit: nat, timed: bool)

  /** The largest number of items the call removes. */
  function Most(c: Consumer): nat {
    match c
    case One(_) => 1
    case Look(_) => 0
    case Many(n, _) => n
  }

  /** A batch push in its one-by-one phase. */
  datatype Batch<T> = Batch(id: nat, items: seq<T>, pushed: nat)

  datatype Entry<T> = Entry(item: T, call: nat)

  datatype State<T> = State(
    mon: Monitor<T>,
    sleepP: seq<Producer<T>>, wokenP: seq<Producer<T>>,
    sleepC: seq<Consumer>, wokenC: seq<Consumer>,
    closeP: nat,                 // Close calls that have set the flag and not notified anyone yet
    closeC: nat,                 // Close calls that have notified the producers only
    batches: seq<Batch<T>>,
    // history
    calls: nat,                  // number of push calls so far
    accepted: seq<Entry<T>>,     // every item put into the queue, with the call that put it
    removed: seq<T>,             // every item taken out, by a pop or by Clear
    returned: seq<Batch<T>>      // batch pushes that have returned
  )

  datatype Action<T> =
    | TryPush(item: T, pick: nat)
    | Push(item: T, timed: bool, pick: nat)
    | ProducerRuns(who: nat, expired: bool, pick: nat)
    | ProducerTimesOut(who: nat, pick: nat)
    | ProducerStirs(who: nat)
    | TryPop(pick: nat)
    | Pop(consumer: Consumer, pick: nat)
    | ConsumerRuns(who: nat, expired: bool, pick: nat)
    | ConsumerTimesOut(who: nat, pick: nat)
    | ConsumerStirs(who: nat)
    | PushBatch(items: seq<T>)
    | BatchNext(which: nat, pick: nat)
    | Clear
    | SetCapacity(capacity: nat)
    | Close
    | CloseNotifiesProducers
    | CloseNotifiesConsumers
    | Flush(pick: nat)
    | NotifyAll

  function Without<A>(s: seq<A>, i: nat): (r: seq<A>)
    requires i < |s|
    ensures |r| == |s| - 1
    ensures forall x | x in r :: x in s
  {
    s[..i] + s[i + 1..]
  }

  /** notify_one: one sleeper, whichever, is woken; without sleepers nothing happens. */
  function WakeConsumer<T>(s: State<T>, pick: nat): (r: State<T>)
    requires s.sleepC != [] ==> pick < |s.sleepC|
  {
    if s.sleepC == [] then s
    else s.(sleepC := Without(s.sleepC, pick), wokenC := s.wokenC + [s.sleepC[pick]])
  }

  function WakeProducer<T>(s: State<T>, pick: nat): (r: State<T>)
    requires s.sleepP != [] ==> pick < |s.sleepP|
  {
    if s.sleepP == [] then s
    else s.(sleepP := Without(s.sleepP, pick), wokenP := s.wokenP + [s.sleepP[pick]])
  }

  function WakeAllConsumers<T>(s: State<T>): (r: State<T>) {
    s.(sleepC := [], wokenC := s.wokenC + s.sleepC)
  }

  function WakeAllProducers<T>(s: State<T>): (r: State<T>) {
    s.(sleepP := [], wokenP := s.wokenP + s.sleepP)
  }

  /** An item goes in on behalf of a call, and a consumer is notified. */
  function PutOne<T>(s: State<T>, item: T, call: nat, pick: nat): (r: State<T>)
    requires s.sleepC != [] ==> pick < |s.sleepC|
  {
    WakeConsumer(s.(mon := s.mon.(queue := s.mon.queue + [item]), accepted := s.accepted + [Entry(item, call)]), pick)
  }

  /** A push that has passed its wait: it fails on a closed queue. */
  function FinishPush<T>(s: State<T>, item: T, pick: nat): (r: State<T>)
    requires s.sleepC != [] ==> pick < |s.sleepC|
  {
    var t := s.(calls := s.calls + 1);
    if s.mon.closed then t else PutOne(t, item, s.calls, pick)
  }

  /** A pop that has passed its wait: it takes what there is, up to its maximum, and notifies. */
  function FinishPop<T>(s: State<T>, c: Consumer, pick: nat): (r: State<T>)
    requires s.sleepP != [] ==> pick < |s.sleepP|
  {
    var n := Least(Most(c), |s.mon.queue|);
    var t := s.(mon := s.mon.(queue := s.mon.queue[n..]), removed := s.removed + s.mon.queue[..n]);
    if n == 0 then t else if c.Many? then WakeAllProducers(t) else WakeProducer(t, pick)
  }

  predicate PickOk<A>(sleepers: seq<A>, pick: nat) {
    sleepers != [] ==> pick < |sleepers|
  }

  predicate Enabled<T>(s: State<T>, act: Action<T>) {
    match act
    case TryPush(_, pick) => PickOk(s.sleepC, pick)
    case Push(_, _, pick) => PickOk(s.sleepC, pick)
    case ProducerRuns(i, expired, pick) => i < |s.wokenP| && (expired ==> s.wokenP[i].timed) && PickOk(s.sleepC, pick)
    case ProducerTimesOut(i, pick) => i < |s.sleepP| && s.sleepP[i].timed && PickOk(s.sleepC, pick)
    case ProducerStirs(i) => i < |s.sleepP|
    case TryPop(pick) => PickOk(s.sleepP, pick)
    case Pop(c, pick) => PickOk(s.sleepP, pick)
    case ConsumerRuns(i, expired, pick) => i < |s.wokenC| && (expired ==> s.wokenC[i].timed) && PickOk(s.sleepP, pick)
    case ConsumerTimesOut(i, pick) => i < |s.sleepC| && s.sleepC[i].timed && PickOk(s.sleepP, pick)
    case ConsumerStirs(i) => i < |s.sleepC|
    case BatchNext(i, pick) => i < |s.batches| && PickOk(s.sleepC, pick)
    case CloseNotifiesProducers => s.closeP > 0
    case CloseNotifiesConsumers => s.closeC > 0
    case Flush(pick) => PickOk(s.sleepC, pick)
    case _ => true
  }

  function Apply<T>(s: State<T>, act: Action<T>): (r: State<T>)
    requires Enabled(s, act)
  {
    match act
    case TryPush(item, pick) =>
      var t := s.(calls := s.calls + 1);
      if s.mon.closed || !HasRoom(s.mon) then t else PutOne(t, item, s.calls, pick)
    case Push(item, timed, pick) =>
      if ProducerReady(s.mon) then FinishPush(s, item, pick)
      else s.(sleepP := s.sleepP + [Producer(item, timed)])
    case ProducerRuns(i, expired, pick) =>
      var t := s.(wokenP := Without(s.wokenP, i));
      if ProducerReady(s.mon) then FinishPush(t, s.wokenP[i].item, pick)
      else if expired then t
      else t.(sleepP := s.sleepP + [s.wokenP[i]])
    case ProducerTimesOut(i, pick) =>
      var t := s.(sleepP := Without(s.sleepP, i));
      if ProducerReady(s.mon) then FinishPush(t, s.sleepP[i].item, pick) else t
    case ProducerStirs(i) => WakeProducer(s, i)
    case TryPop(pick) => FinishPop(s, One(false), pick)
    case Pop(c, pick) =>
      if ConsumerReady(s.mon) then FinishPop(s, c, pick) else s.(sleepC := s.sleepC + [c])
    case ConsumerRuns(i, expired, pick) =>
      var t := s.(wokenC := Without(s.wokenC, i));
      if ConsumerReady(s.mon) then FinishPop(t, s.wokenC[i], pick)
      else if expired then t
      else t.(sleepC := s.sleepC + [s.wokenC[i]])
    case ConsumerTimesOut(i, pick) =>
      var t := s.(sleepC := Without(s.sleepC, i));
      if ConsumerReady(s.mon) then FinishPop(t, s.sleepC[i], pick) else t
    case ConsumerStirs(i) => WakeConsumer(s, i)
    case PushBatch(items) => StartBatch(s, items)
    case BatchNext(i, pick) => NextOfBatch(s, i, pick)
    case Clear => WakeAllProducers(s.(mon := s.mon.(queue := []), removed := s.removed + s.mon.queue))
    case SetCapacity(n) =>
      var t := s.(mon := s.mon.(capacity := n));
      if |s.mon.queue| < n then WakeAllProducers(t) else t
    case Close => s.(mon := s.mon.(closed := true), closeP := s.closeP + 1)
    case CloseNotifiesProducers => WakeAllProducers(s.(closeP := s.closeP - 1, closeC := s.closeC + 1))
    case CloseNotifiesConsumers => WakeAllConsumers(s.(closeC := s.closeC - 1))
    case Flush(pick) => WakeConsumer(s, pick)
    case NotifyAll => WakeAllProducers(WakeAllConsumers(s))
  }

  function Tagged<T>(items: seq<T>, call: nat): (r: seq<Entry<T>>)
    ensures |r| == |items|
  {
    seq(|items|, i requires 0 <= i < |items| => Entry(items[i], call))
  }

  /** The locked half of a batch push. */
  function StartBatch<T>(s: State<T>, items: seq<T>): (r: State<T>) {
    var t := s.(calls := s.calls + 1);
    if !s.mon.closed && |s.mon.queue| + |items| <= s.mon.capacity then
      WakeAllConsumers(t.(mon := s.mon.(queue := s.mon.queue + items), accepted := s.accepted + Tagged(items, s.calls),
                          returned := s.returned + [Batch(s.calls, items, |items|)]))
    else t.(batches := s.batches + [Batch(s.calls, items, 0)])
  }

  /** One turn of the one-by-one loop: another TryPush, or the return. */
  function NextOfBatch<T>(s: State<T>, i: nat, pick: nat): (r: State<T>)
    requires i < |s.batches| && PickOk(s.sleepC, pick)
  {
    var b := s.batches[i];
    if b.pushed < |b.items| && !s.mon.closed && HasRoom(s.mon) then
      PutOne(s.(batches := s.batches[i := b.(pushed := b.pushed + 1)]), b.items[b.pushed], b.id, pick)
    else s.(batches := Without(s.batches, i), returned := s.returned + [b])
  }

  function Initial<T>(capacity: nat): (s: State<T>) {
    State(Monitor([], capacity, false), [], [], [], [], 0, 0, [], 0, [], [], [])
  }

  ghost predicate Next<T(!new)>(s: State<T>, t: State<T>) {
    exists act :: Enabled(s, act) && t == Apply(s, act)
  }

  ghost predicate IsRun<T(!new)>(run: seq<State<T>>) {
    && run != []
    && run[0] == Initial(run[0].mon.capacity)
    && forall i | 0 < i < |run| :: Next(run[i - 1], run[i])
  }

  // ---------- no wakeup is lost ----------

  predicate Takes(cs: seq<Consumer>) {
    forall c | c in cs :: Most(c) >= 1
  }

  /** A sleeping consumer is backed by as many woken ones as there are items, give or take. */
  predicate ConsumersCovered<T>(s: State<T>, spare: nat) {
    s.sleepC != [] ==> |s.wokenC| + spare >= |s.mon.queue|
  }

  /** A sleeping producer is backed by as many woken ones as there are free slots, give or take. */
  predicate ProducersCovered<T>(s: State<T>, spare: nat) {
    !s.mon.closed && s.sleepP != [] ==> |s.wokenP| + spare >= FreeSlots(s.mon)
  }

  /** On a closed queue somebody sleeps only while the Close that will wake it is under way. */
  predicate CloseCovered<T>(s: State<T>) {
    && (s.mon.closed && s.sleepP != [] ==> s.closeP > 0)
    && (s.mon.closed && s.sleepC != [] ==> s.closeP + s.closeC > 0)
  }

  predicate NoLostWakeup<T>(s: State<T>) {
    ConsumersCovered(s, 0) && ProducersCovered(s, 0) && CloseCovered(s) && Takes(s.sleepC) && Takes(s.wokenC)
  }

  lemma TakesWithout(cs: seq<Consumer>, i: nat)
    requires i < |cs| && Takes(cs)
    ensures Takes(Without(cs, i)) && Most(cs[i]) >= 1
  {
  }

  lemma TakesAppend(a: seq<Consumer>, b: seq<Consumer>)
    requires Takes(a) && Takes(b)
    ensures Takes(a + b)
  {
  }

  lemma {:induction false} WakeConsumerKeeps<T>(s: State<T>, pick: nat)
    requires PickOk(s.sleepC, pick) && ConsumersCovered(s, 1) && CloseCovered(s) && Takes(s.sleepC) && Takes(s.wokenC)
    ensures var r := WakeConsumer(s, pick);
            && ConsumersCovered(r, 0) && CloseCovered(r) && Takes(r.sleepC) && Takes(r.wokenC)
            && r.mon == s.mon && r.sleepP == s.sleepP && r.wokenP == s.wokenP
  {
    hide Takes;
    if s.sleepC != [] {
      TakesWithout(s.sleepC, pick);
      TakesAppend(s.wokenC, [s.sleepC[pick]]) by { TakesOne(s.sleepC[pick]); }
    }
  }

  lemma TakesOne(c: Consumer)
    ensures Most(c) >= 1 <==> Takes([c])
  {
    assert c in [c];
  }

  lemma WakeProducerKeeps<T>(s: State<T>, pick: nat)
    requires PickOk(s.sleepP, pick) && ProducersCovered(s, 1) && CloseCovered(s)
    ensures var r := WakeProducer(s, pick);
            && ProducersCovered(r, 0) && CloseCovered(r)
            && r.mon == s.mon && r.sleepC == s.sleepC && r.wokenC == s.wokenC
  {
  }

  /** Pushing uses up a free slot, so it may follow the departure of one woken producer. */
  lemma {:induction false} FinishPushKeeps<T>(s: State<T>, item: T, pick: nat)
    requires PickOk(s.sleepC, pick) && ProducerReady(s.mon)
    requires ConsumersCovered(s, 0) && ProducersCovered(s, 1) && CloseCovered(s) && Takes(s.sleepC) && Takes(s.wokenC)
    ensures NoLostWakeup(FinishPush(s, item, pick))
  {
    hide Takes;
    if !s.mon.closed {
      PutOneKeeps(s.(calls := s.calls + 1), item, s.calls, pick);
    }
  }

  lemma {:induction false} PutOneKeeps<T>(s: State<T>, item: T, call: nat, pick: nat)
    requires PickOk(s.sleepC, pick) && HasRoom(s.mon)
    requires ConsumersCovered(s, 0) && ProducersCovered(s, 1) && CloseCovered(s) && Takes(s.sleepC) && Takes(s.wokenC)
    ensures NoLostWakeup(PutOne(s, item, call, pick))
  {
    hide Takes;
    var t := s.(mon := s.mon.(queue := s.mon.queue + [item]), accepted := s.accepted + [Entry(item, call)]);
    WakeConsumerKeeps(t, pick);
  }

  /** Popping uses up an item, so it may follow the departure of one woken consumer. */
  lemma {:induction false} FinishPopKeeps<T>(s: State<T>, c: Consumer, pick: nat)
    requires PickOk(s.sleepP, pick) && Most(c) >= 1
    requires ConsumersCovered(s, 1) && ProducersCovered(s, 0) && CloseCovered(s) && Takes(s.sleepC) && Takes(s.wokenC)
    requires ConsumerReady(s.mon) || ConsumersCovered(s, 0)
    ensures NoLostWakeup(FinishPop(s, c, pick))
  {
    hide Takes;
    var n := Least(Most(c), |s.mon.queue|);
    var t := s.(mon := s.mon.(queue := s.mon.queue[n..]), removed := s.removed + s.mon.queue[..n]);
    if n > 0 && !c.Many? { WakeProducerKeeps(t, pick); }
  }

  /** Every consumer call of the action takes at least one item: no Peek, no batch pop of zero. */
  predicate TakesSome<T>(act: Action<T>) {
    act.Pop? ==> Most(act.consumer) >= 1
  }

  lemma {:induction false} ProducerStepKeeps<T>(s: State<T>, act: Action<T>)
    requires NoLostWakeup(s) && Enabled(s, act)
    requires act.TryPush? || act.Push? || act.ProducerRuns? || act.ProducerTimesOut? || act.ProducerStirs?
    ensures NoLostWakeup(Apply(s, act))
  {
    hide Takes, FinishPush, PutOne;
    match act
    case TryPush(item, pick) =>
      if !s.mon.closed && HasRoom(s.mon) { PutOneKeeps(s.(calls := s.calls + 1), item, s.calls, pick); }
    case Push(item, timed, pick) =>
      if ProducerReady(s.mon) { FinishPushKeeps(s, item, pick); }
    case ProducerRuns(i, expired, pick) =>
      if ProducerReady(s.mon) { FinishPushKeeps(s.(wokenP := Without(s.wokenP, i)), s.wokenP[i].item, pick); }
    case ProducerTimesOut(i, pick) =>
      if ProducerReady(s.mon) { FinishPushKeeps(s.(sleepP := Without(s.sleepP, i)), s.sleepP[i].item, pick); }
    case ProducerStirs(i) =>
  }

  lemma {:induction false} ConsumerStepKeeps<T>(s: State<T>, act: Action<T>)
    requires NoLostWakeup(s) && Enabled(s, act) && TakesSome(act)
    requires act.TryPop? || act.Pop? || act.ConsumerRuns? || act.ConsumerTimesOut? || act.ConsumerStirs?
    ensures NoLostWakeup(Apply(s, act))
  {
    hide Takes, FinishPop;
    match act
    case TryPop(pick) => FinishPopKeeps(s, One(false), pick);
    case Pop(c, pick) =>
      if ConsumerReady(s.mon) { FinishPopKeeps(s, c, pick); }
      else { TakesOne(c); TakesAppend(s.sleepC, [c]); }
    case ConsumerRuns(i, expired, pick) =>
      TakesWithout(s.wokenC, i);
      var c := s.wokenC[i];
      if ConsumerReady(s.mon) { FinishPopKeeps(s.(wokenC := Without(s.wokenC, i)), c, pick); }
      else { TakesOne(c); TakesAppend(s.sleepC, [c]); }
    case ConsumerTimesOut(i, pick) =>
      TakesWithout(s.sleepC, i);
      var c := s.sleepC[i];
      if ConsumerReady(s.mon) { FinishPopKeeps(s.(sleepC := Without(s.sleepC, i)), c, pick); }
    case ConsumerStirs(i) => WakeConsumerKeeps(s, i);
  }

  lemma {:induction false} OtherStepKeeps<T>(s: State<T>, act: Action<T>)
    requires NoLostWakeup(s) && Enabled(s, act)
    requires act.PushBatch? || act.BatchNext? || act.Clear? || act.SetCapacity? || act.Close?
          || act.CloseNotifiesProducers? || act.CloseNotifiesConsumers? || act.Flush? || act.NotifyAll?
    ensures NoLostWakeup(Apply(s, act))
  {
    hide Takes, PutOne, Tagged;
    TakesAppend(s.wokenC, s.sleepC);
    TakesNone();
    match act
    case BatchNext(i, pick) =>
      var b := s.batches[i];
      if b.pushed < |b.items| && !s.mon.closed && HasRoom(s.mon) {
        PutOneKeeps(s.(batches := s.batches[i := b.(pushed := b.pushed + 1)]), b.items[b.pushed], b.id, pick);
      }
    case Flush(pick) => WakeConsumerKeeps(s, pick);
    case _ =>
  }

  lemma TakesNone()
    ensures Takes([])
  {
  }

  lemma {:induction false} StepKeepsWakeups<T>(s: State<T>, act: Action<T>)
    requires NoLostWakeup(s) && Enabled(s, act) && TakesSome(act)
    ensures NoLostWakeup(Apply(s, act))
  {
    hide NoLostWakeup, Enabled, Apply;
    if act.TryPush? || act.Push? || act.ProducerRuns? || act.ProducerTimesOut? || act.ProducerStirs? {
      ProducerStepKeeps(s, act);
    } else if act.TryPop? || act.Pop? || act.ConsumerRuns? || act.ConsumerTimesOut? || act.ConsumerStirs? {
      ConsumerStepKeeps(s, act);
    } else {
      OtherStepKeeps(s, act);
    }
  }

  // ---------- runs ----------

  /** A run in which every waiting call takes at least one item when it can. */
  ghost predicate IsTakingRun<T(!new)>(run: seq<State<T>>) {
    && IsRun(run)
    && forall i | 0 < i < |run| :: TakingNext(run[i - 1], run[i])
  }

  ghost predicate TakingNext<T(!new)>(s: State<T>, t: State<T>) {
    exists act :: Enabled(s, act) && TakesSome(act) && t == Apply(s, act)
  }

  lemma {:induction false} TakingRunKeeps<T(!new)>(run: seq<State<T>>, i: nat)
    requires IsTakingRun(run) && i < |run|
    ensures NoLostWakeup(run[i])
  {
    hide NoLostWakeup, Enabled, Apply, TakesSome;
    if i == 0 {
      InitialKeeps<T>(run[0].mon.capacity);
    } else {
      TakingRunKeeps(run, i - 1);
      assert TakingNext(run[i - 1], run[i]);
      var act :| Enabled(run[i - 1], act) && TakesSome(act) && run[i] == Apply(run[i - 1], act);
      StepKeepsWakeups(run[i - 1], act);
    }
  }

  lemma InitialKeeps<T>(capacity: nat)
    ensures NoLostWakeup(Initial<T>(capacity))
  {
  }

  /** In every reachable state of runs without Peek and without batch pops of zero: a consumer
      sleeps only if the woken consumers number at least the queued items; a producer sleeps on
      an open queue only if the woken producers number at least the free slots; and once every
      Close that set the flag has notified, nobody sleeps on a closed queue. */
  lemma {:induction false} NoWakeupIsLost<T(!new)>(run: seq<State<T>>, i: nat)
    requires IsTakingRun(run) && i < |run|
    ensures var s := run[i];
            && (s.sleepC != [] ==> |s.wokenC| >= |s.mon.queue|)
            && (s.sleepP != [] && !s.mon.closed ==> |s.wokenP| >= FreeSlots(s.mon))
            && (s.mon.closed && s.closeP == 0 ==> s.sleepP == [])
            && (s.mon.closed && s.closeP == 0 == s.closeC ==> s.sleepC == [])
  {
    TakingRunKeeps(run, i);
  }

  // ---------- what the conditions of that theorem exclude ----------

  lemma StepOf<T(!new)>(s: State<T>, act: Action<T>, t: State<T>)
    requires Enabled(s, act) && t == Apply(s, act)
    ensures Next(s, t) && (TakesSome(act) ==> TakingNext(s, t))
  {
  }

  lemma {:induction false} PeekAndPopSleep<T(!new)>() returns (s0: State<T>, s1: State<T>, s2: State<T>)
    ensures s0 == Initial(1) && s2 == s0.(sleepC := [One(false), Look(true)]) && Next(s0, s1) && Next(s1, s2)
  {
    s0 := Initial<T>(1);
    s1 := s0.(sleepC := [One(false)]);
    s2 := s0.(sleepC := [One(false), Look(true)]);
    StepOf(s0, Pop(One(false), 0), s1);
    StepOf(s1, Pop(Look(true), 0), s2);
  }

  lemma {:induction false} PeekIsNotified<T(!new)>(x: T, s2: State<T>) returns (s3: State<T>)
    requires s2 == Initial<T>(1).(sleepC := [One(false), Look(true)])
    ensures s3.mon.queue == [x] && s3.sleepC == [One(false)] && s3.wokenC == [Look(true)] && s3.sleepP == [] && Next(s2, s3)
  {
    s3 := Apply(s2, TryPush(x, 1));
    assert Without(s2.sleepC, 1) == [One(false)];
    StepOf(s2, TryPush(x, 1), s3);
  }

  lemma {:induction false} PeekLeaves<T(!new)>(x: T, s3: State<T>) returns (s4: State<T>)
    requires s3.mon.queue == [x] && s3.wokenC == [Look(true)] && s3.sleepP == []
    ensures Next(s3, s4) && s4 == s3.(wokenC := [])
  {
    s4 := s3.(wokenC := []);
    assert Without(s3.wokenC, 0) == [];
    assert s3.removed + s3.mon.queue[..0] == s3.removed && s3.mon.queue[0..] == s3.mon.queue;
    StepOf(s3, ConsumerRuns(0, false, 0), s4);
  }

  /** A Peek can use up the one notification: afterwards an item is queued, a pop sleeps, and
      nobody is woken. */
  lemma {:induction false} PeekLosesWakeup<T(!new)>(x: T) returns (run: seq<State<T>>)
    ensures IsRun(run)
    ensures var s := run[|run| - 1]; s.mon.queue == [x] && s.sleepC == [One(false)] && s.wokenC == []
  {
    hide Next, Apply, Enabled;
    var s0: State<T>, s1, s2 := PeekAndPopSleep();
    var s3 := PeekIsNotified(x, s2);
    var s4 := PeekLeaves(x, s3);
    run := [s0, s1, s2, s3, s4];
  }

  lemma {:induction false} TwoPushesSleep<T(!new)>(x: T) returns (s0: State<T>, s1: State<T>, s2: State<T>, s3: State<T>)
    ensures s0 == Initial(1) && s3.mon == Monitor([x], 1, false) && s3.sleepP == [Producer(x, false), Producer(x, false)]
    ensures s3.wokenP == [] && s3.sleepC == [] && s3.closeP == 0
    ensures TakingNext(s0, s1) && TakingNext(s1, s2) && TakingNext(s2, s3)
  {
    s0 := Initial<T>(1);
    s1 := s0.(mon := Monitor([x], 1, false), calls := 1, accepted := [Entry(x, 0)]);
    s2 := s1.(sleepP := [Producer(x, false)]);
    s3 := s1.(sleepP := [Producer(x, false), Producer(x, false)]);
    StepOf(s0, TryPush(x, 0), s1);
    StepOf(s1, Push(x, false, 0), s2);
    StepOf(s2, Push(x, false, 0), s3);
  }

  lemma {:induction false} OneIsWokenAndLeaves<T(!new)>(x: T, s3: State<T>) returns (s4: State<T>, s5: State<T>, s6: State<T>)
    requires s3.mon == Monitor([x], 1, false) && s3.sleepP == [Producer(x, false), Producer(x, false)]
    requires s3.wokenP == [] && s3.sleepC == [] && s3.closeP == 0
    ensures TakingNext(s3, s4) && TakingNext(s4, s5) && TakingNext(s5, s6)
    ensures s6.mon.closed && s6.closeP == 1 && |s6.sleepP| == 1 && s6.wokenP == [] && FreeSlots(s6.mon) == 1
  {
    var p := Producer(x, false);
    s4 := Apply(s3, TryPop(0));
    assert Without(s3.sleepP, 0) == [p] && s3.mon.queue[1..] == [];
    StepOf(s3, TryPop(0), s4);
    s5 := Apply(s4, Close);
    StepOf(s4, Close, s5);
    s6 := Apply(s5, ProducerRuns(0, false, 0));
    assert s5.wokenP == [p] && Without(s5.wokenP, 0) == [];
    StepOf(s5, ProducerRuns(0, false, 0), s6);
  }

  /** Between the flag and the notification of a Close the producers' count can fall short: a
      woken producer leaves without filling the free slot. The sleeper is then backed by the
      notification still to come. */
  lemma {:induction false} ClosingLeavesSlot<T(!new)>(x: T) returns (run: seq<State<T>>)
    ensures IsTakingRun(run)
    ensures var s := run[|run| - 1];
            s.mon.closed && s.closeP == 1 && |s.sleepP| == 1 && s.wokenP == [] && FreeSlots(s.mon) == 1
  {
    var s0, s1, s2, s3 := TwoPushesSleep(x);
    var s4, s5, s6 := OneIsWokenAndLeaves(x, s3);
    run := [s0];
    assert IsTakingRun(run);
    hide IsTakingRun, TakingNext, Initial;
    RunGrows(run, s1);
    run := run + [s1];
    RunGrows(run, s2);
    run := run + [s2];
    RunGrows(run, s3);
    run := run + [s3];
    RunGrows(run, s4);
    run := run + [s4];
    RunGrows(run, s5);
    run := run + [s5];
    RunGrows(run, s6);
    run := run + [s6];
  }

  lemma RunGrows<T(!new)>(run: seq<State<T>>, t: State<T>)
    requires run != [] && IsTakingRun(run) && TakingNext(run[|run| - 1], t)
    ensures IsTakingRun(run + [t])
  {
    hide TakingNext, Next;
    TakingIsNext(run[|run| - 1], t);
  }

  lemma TakingIsNext<T(!new)>(s: State<T>, t: State<T>)
    ensures TakingNext(s, t) ==> Next(s, t)
  {
    hide Enabled, Apply, TakesSome;
  }

  // ---------- conservation ----------

  function ItemsOf<T>(es: seq<Entry<T>>): (r: seq<T>)
    ensures |r| == |es|
  {
    seq(|es|, i requires 0 <= i < |es| => es[i].item)
  }

  lemma ItemsOfAppend<T>(a: seq<Entry<T>>, b: seq<Entry<T>>)
    ensures ItemsOf(a + b) == ItemsOf(a) + ItemsOf(b)
  {
  }

  /** What went in is what came out, in order, followed by what is still there. */
  predicate Conserved<T(==)>(s: State<T>) {
    ItemsOf(s.accepted) == s.removed + s.mon.queue
  }

  /** The step neither loses nor reorders items, accepts nothing on a closed queue, reopens
      nothing, and takes the size to the capacity at most when it accepts something. */
  predicate StepSafe<T(==)>(s: State<T>, t: State<T>) {
    && Conserved(t)
    && s.accepted <= t.accepted && s.removed <= t.removed
    && (s.mon.closed ==> t.mon.closed && t.accepted == s.accepted)
    && (t.accepted != s.accepted ==> t.mon.capacity == s.mon.capacity && |t.mon.queue| <= t.mon.capacity)
  }

  lemma {:induction false} PutOneSafe<T>(s: State<T>, item: T, call: nat, pick: nat)
    requires PickOk(s.sleepC, pick) && Conserved(s) && !s.mon.closed && HasRoom(s.mon)
    ensures StepSafe(s, PutOne(s, item, call, pick))
  {
    hide ItemsOf, Without;
    ItemsOfAppend(s.accepted, [Entry(item, call)]);
    ItemsOfOne(item, call);
    assert s.removed + s.mon.queue + [item] == s.removed + (s.mon.queue + [item]);
  }

  lemma ItemsOfOne<T>(item: T, call: nat)
    ensures ItemsOf([Entry(item, call)]) == [item]
  {
  }

  lemma {:induction false} FinishPushSafe<T>(s: State<T>, item: T, pick: nat)
    requires PickOk(s.sleepC, pick) && Conserved(s) && ProducerReady(s.mon)
    ensures StepSafe(s, FinishPush(s, item, pick))
  {
    hide ItemsOf, PutOne;
    if !s.mon.closed { PutOneSafe(s.(calls := s.calls + 1), item, s.calls, pick); }
  }

  lemma {:induction false} FinishPopSafe<T>(s: State<T>, c: Consumer, pick: nat)
    requires PickOk(s.sleepP, pick) && Conserved(s)
    ensures StepSafe(s, FinishPop(s, c, pick))
  {
    hide ItemsOf, Without, Most;
    var n := Least(Most(c), |s.mon.queue|);
    assert s.removed + s.mon.queue == (s.removed + s.mon.queue[..n]) + s.mon.queue[n..];
  }

  lemma {:induction false} BatchSafe<T>(s: State<T>, items: seq<T>)
    requires Conserved(s)
    ensures StepSafe(s, StartBatch(s, items))
  {
    hide ItemsOf;
    ItemsOfAppend(s.accepted, Tagged(items, s.calls));
    ItemsOfTagged(items, s.calls);
    assert s.removed + s.mon.queue + items == s.removed + (s.mon.queue + items);
  }

  lemma ItemsOfTagged<T>(items: seq<T>, call: nat)
    ensures ItemsOf(Tagged(items, call)) == items
  {
  }

  lemma {:induction false} PushStepSafe<T>(s: State<T>, act: Action<T>)
    requires Enabled(s, act) && Conserved(s)
    requires act.TryPush? || act.Push? || act.ProducerRuns? || act.ProducerTimesOut? || act.PushBatch? || act.BatchNext?
    ensures StepSafe(s, Apply(s, act))
  {
    hide ItemsOf, Without, FinishPush, FinishPop, PutOne, StartBatch;
    match act
    case TryPush(item, pick) =>
      if !s.mon.closed && HasRoom(s.mon) { PutOneSafe(s.(calls := s.calls + 1), item, s.calls, pick); }
    case Push(item, timed, pick) => if ProducerReady(s.mon) { FinishPushSafe(s, item, pick); }
    case ProducerRuns(i, expired, pick) =>
      if ProducerReady(s.mon) { FinishPushSafe(s.(wokenP := Without(s.wokenP, i)), s.wokenP[i].item, pick); }
    case ProducerTimesOut(i, pick) =>
      if ProducerReady(s.mon) { FinishPushSafe(s.(sleepP := Without(s.sleepP, i)), s.sleepP[i].item, pick); }
    case PushBatch(items) => BatchSafe(s, items);
    case BatchNext(i, pick) =>
      var b := s.batches[i];
      if b.pushed < |b.items| && !s.mon.closed && HasRoom(s.mon) {
        PutOneSafe(s.(batches := s.batches[i := b.(pushed := b.pushed + 1)]), b.items[b.pushed], b.id, pick);
      }
  }

  lemma {:induction false} PopStepSafe<T>(s: State<T>, act: Action<T>)
    requires Enabled(s, act) && Conserved(s) && (act.TryPop? || act.Pop? || act.ConsumerRuns? || act.ConsumerTimesOut?)
    ensures StepSafe(s, Apply(s, act))
  {
    hide ItemsOf, Without, FinishPush, FinishPop, PutOne, StartBatch;
    match act
    case TryPop(pick) => FinishPopSafe(s, One(false), pick);
    case Pop(c, pick) => if ConsumerReady(s.mon) { FinishPopSafe(s, c, pick); }
    case ConsumerRuns(i, expired, pick) =>
      if ConsumerReady(s.mon) { FinishPopSafe(s.(wokenC := Without(s.wokenC, i)), s.wokenC[i], pick); }
    case ConsumerTimesOut(i, pick) =>
      if ConsumerReady(s.mon) { FinishPopSafe(s.(sleepC := Without(s.sleepC, i)), s.sleepC[i], pick); }
  }

  lemma {:induction false} StepIsSafe<T>(s: State<T>, act: Action<T>)
    requires Enabled(s, act) && Conserved(s)
    ensures StepSafe(s, Apply(s, act))
  {
    hide ItemsOf, Without, FinishPush, FinishPop, PutOne, StartBatch, NextOfBatch;
    if act.TryPush? || act.Push? || act.ProducerRuns? || act.ProducerTimesOut? || act.PushBatch? || act.BatchNext? {
      PushStepSafe(s, act);
    } else if act.TryPop? || act.Pop? || act.ConsumerRuns? || act.ConsumerTimesOut? {
      PopStepSafe(s, act);
    } else if act.Clear? {
      assert s.removed + s.mon.queue + [] == s.removed + s.mon.queue;
    }
  }

  lemma {:induction false} RunConserves<T(!new)>(run: seq<State<T>>, i: nat)
    requires IsRun(run) && i < |run|
    ensures Conserved(run[i]) && (i > 0 ==> StepSafe(run[i - 1], run[i]))
  {
    hide Enabled, Apply, ItemsOf;
    if i == 0 {
      InitialConserved<T>(run[0].mon.capacity);
    } else {
      RunConserves(run, i - 1);
      assert Next(run[i - 1], run[i]);
      var act :| Enabled(run[i - 1], act) && run[i] == Apply(run[i - 1], act);
      StepIsSafe(run[i - 1], act);
    }
  }

  lemma InitialConserved<T>(capacity: nat)
    ensures Conserved(Initial<T>(capacity))
  {
  }

  /** In every run: accepted items are the removed ones in order followed by the queue, the logs
      only grow, and once the queue is closed nothing is accepted any more. */
  lemma {:induction false} RunIsSafe<T(!new)>(run: seq<State<T>>, i: nat, j: nat)
    requires IsRun(run) && i <= j < |run|
    ensures ItemsOf(run[j].accepted) == run[j].removed + run[j].mon.queue
    ensures run[i].accepted <= run[j].accepted && run[i].removed <= run[j].removed
    ensures run[i].mon.closed ==> run[j].mon.closed && run[j].accepted == run[i].accepted
    decreases j
  {
    hide IsRun, ItemsOf;
    RunConserves(run, j);
    if i < j { RunIsSafe(run, i, j - 1); }
  }

  /** A push never takes the size above the capacity of that moment. */
  lemma {:induction false} PushRespectsCapacity<T(!new)>(run: seq<State<T>>, i: nat)
    requires IsRun(run) && 0 < i < |run| && run[i].accepted != run[i - 1].accepted
    ensures |run[i].mon.queue| <= run[i].mon.capacity == run[i - 1].mon.capacity
  {
    hide IsRun, ItemsOf;
    RunConserves(run, i);
  }

  // ---------- batch pushes ----------

  /** The items a call has put in, in order. */
  function By<T>(es: seq<Entry<T>>, call: nat): (r: seq<T>) {
    if es == [] then []
    else
      var last := es[|es| - 1];
      By(es[..|es| - 1], call) + if last.call == call then [last.item] else []
  }

  lemma {:induction false} BySnoc<T>(es: seq<Entry<T>>, e: Entry<T>, call: nat)
    ensures By(es + [e], call) == By(es, call) + if e.call == call then [e.item] else []
  {
    assert (es + [e])[..|es|] == es;
  }

  lemma {:induction false} ByTagged<T>(es: seq<Entry<T>>, items: seq<T>, owner: nat, call: nat)
    ensures By(es + Tagged(items, owner), call) == By(es, call) + if owner == call then items else []
  {
    if items == [] {
      assert es + Tagged(items, owner) == es;
    } else {
      var front, last := items[..|items| - 1], items[|items| - 1];
      ByTagged(es, front, owner, call);
      assert Tagged(items, owner) == Tagged(front, owner) + [Entry(last, owner)];
      assert es + Tagged(items, owner) == (es + Tagged(front, owner)) + [Entry(last, owner)];
      BySnoc(es + Tagged(front, owner), Entry(last, owner), call);
      assert items == front + [last];
    }
  }

  predicate Numbered<T>(es: seq<Entry<T>>, calls: nat) {
    forall i | 0 <= i < |es| :: es[i].call < calls
  }

  lemma {:induction false} ByFresh<T>(es: seq<Entry<T>>, calls: nat)
    requires Numbered(es, calls)
    ensures By(es, calls) == []
  {
    if es != [] { ByFresh(es[..|es| - 1], calls); }
  }

  /** A batch's log entries are the elements it counts as pushed. */
  predicate Logged<T(==)>(es: seq<Entry<T>>, calls: nat, b: Batch<T>) {
    b.id < calls && b.pushed <= |b.items| && By(es, b.id) == b.items[..b.pushed]
  }

  predicate AllLogged<T(==)>(es: seq<Entry<T>>, calls: nat, bs: seq<Batch<T>>) {
    forall i | 0 <= i < |bs| :: Logged(es, calls, bs[i])
  }

  predicate NotAmong<T>(id: nat, bs: seq<Batch<T>>) {
    forall i | 0 <= i < |bs| :: bs[i].id != id
  }

  predicate Distinct<T>(bs: seq<Batch<T>>) {
    forall i, j | 0 <= i < j < |bs| :: bs[i].id != bs[j].id
  }

  predicate BatchInv<T(==)>(s: State<T>) {
    && Numbered(s.accepted, s.calls)
    && AllLogged(s.accepted, s.calls, s.batches) && AllLogged(s.accepted, s.calls, s.returned)
    && Distinct(s.batches)
    && forall i | 0 <= i < |s.batches| :: NotAmong(s.batches[i].id, s.returned)
  }

  /** Entries of another call do not disturb a batch. */
  lemma {:induction false} LoggedKeeps<T>(es: seq<Entry<T>>, calls: nat, e: Entry<T>, calls': nat, bs: seq<Batch<T>>)
    requires AllLogged(es, calls, bs) && NotAmong(e.call, bs) && calls <= calls'
    ensures AllLogged(es + [e], calls', bs)
  {
    hide By;
    forall i | 0 <= i < |bs| ensures Logged(es + [e], calls', bs[i]) {
      BySnoc(es, e, bs[i].id);
    }
  }

  lemma FreshNotAmong<T>(es: seq<Entry<T>>, calls: nat, bs: seq<Batch<T>>)
    requires AllLogged(es, calls, bs)
    ensures NotAmong(calls, bs)
  {
    hide By;
  }

  lemma {:induction false} FreshPutKeeps<T>(s: State<T>, item: T, pick: nat)
    requires BatchInv(s) && PickOk(s.sleepC, pick)
    ensures BatchInv(PutOne(s.(calls := s.calls + 1), item, s.calls, pick))
  {
    hide By, Logged, Without, AllLogged, NotAmong;
    var e := Entry(item, s.calls);
    FreshNotAmong(s.accepted, s.calls, s.batches);
    FreshNotAmong(s.accepted, s.calls, s.returned);
    LoggedKeeps(s.accepted, s.calls, e, s.calls + 1, s.batches);
    LoggedKeeps(s.accepted, s.calls, e, s.calls + 1, s.returned);
  }

  lemma MoreCalls<T>(es: seq<Entry<T>>, calls: nat, bs: seq<Batch<T>>)
    requires AllLogged(es, calls, bs)
    ensures AllLogged(es, calls + 1, bs)
  {
    hide By;
  }

  lemma {:induction false} StartBatchKeeps<T>(s: State<T>, items: seq<T>)
    requires BatchInv(s)
    ensures BatchInv(StartBatch(s, items))
  {
    hide By, Tagged;
    var t := StartBatch(s, items);
    FreshNotAmong(s.accepted, s.calls, s.batches);
    FreshNotAmong(s.accepted, s.calls, s.returned);
    ByFresh(s.accepted, s.calls);
    var whole := !s.mon.closed && |s.mon.queue| + |items| <= s.mon.capacity;
    forall b | b in s.batches || b in s.returned ensures Logged(t.accepted, t.calls, b) {
      assert b.id < s.calls;
      if whole { ByTagged(s.accepted, items, s.calls, b.id); assert By(s.accepted, b.id) + [] == By(s.accepted, b.id); }
    }
    if whole {
      ByTagged(s.accepted, items, s.calls, s.calls);
      TaggedCalls(items, s.calls);
      assert items[..|items|] == items && [] + items == items;
    } else {
      assert items[..0] == [];
    }
  }

  lemma TaggedCalls<T>(items: seq<T>, call: nat)
    ensures Numbered(Tagged(items, call), call + 1)
  {
  }

  lemma {:induction false} BatchReturns<T>(s: State<T>, i: nat)
    requires BatchInv(s) && i < |s.batches|
    ensures BatchInv(s.(batches := Without(s.batches, i), returned := s.returned + [s.batches[i]]))
  {
    hide By, Logged;
    var rest := Without(s.batches, i);
    forall k | 0 <= k < |rest| ensures exists j :: 0 <= j < |s.batches| && j != i && rest[k] == s.batches[j] {
      var j := if k < i then k else k + 1;
      assert rest[k] == s.batches[j];
    }
  }

  lemma {:induction false} BatchPushes<T>(s: State<T>, i: nat, pick: nat)
    requires BatchInv(s) && i < |s.batches| && s.batches[i].pushed < |s.batches[i].items| && PickOk(s.sleepC, pick)
    ensures var b := s.batches[i];
            BatchInv(PutOne(s.(batches := s.batches[i := b.(pushed := b.pushed + 1)]), b.items[b.pushed], b.id, pick))
  {
    hide By, Without;
    var b := s.batches[i];
    var e := Entry(b.items[b.pushed], b.id);
    var after := s.batches[i := b.(pushed := b.pushed + 1)];
    forall k | 0 <= k < |after| ensures Logged(s.accepted + [e], s.calls, after[k]) {
      assert Logged(s.accepted, s.calls, s.batches[k]);
      BySnoc(s.accepted, e, after[k].id);
      if k == i {
        assert b.items[..b.pushed + 1] == b.items[..b.pushed] + [b.items[b.pushed]];
      } else {
        assert By(s.accepted, after[k].id) + [] == By(s.accepted, after[k].id);
      }
    }
    LoggedKeeps(s.accepted, s.calls, e, s.calls, s.returned);
  }

  lemma {:induction false} PushKeepsBatches<T>(s: State<T>, item: T, pick: nat)
    requires BatchInv(s) && PickOk(s.sleepC, pick)
    ensures BatchInv(s.(calls := s.calls + 1)) && BatchInv(PutOne(s.(calls := s.calls + 1), item, s.calls, pick))
    ensures BatchInv(FinishPush(s, item, pick))
  {
    hide BatchInv, PutOne;
    MoreCallsKeep(s);
    FreshPutKeeps(s, item, pick);
  }

  /** Steps that push nothing leave the log and the batches alone. */
  predicate SameLog<T(==)>(s: State<T>, t: State<T>) {
    s.accepted == t.accepted && s.calls == t.calls && s.batches == t.batches && s.returned == t.returned
  }

  lemma SameLogKeeps<T>(s: State<T>, t: State<T>)
    requires BatchInv(s) && SameLog(s, t)
    ensures BatchInv(t)
  {
  }

  lemma {:induction false} StepKeepsBatches<T>(s: State<T>, act: Action<T>)
    requires BatchInv(s) && Enabled(s, act)
    ensures BatchInv(Apply(s, act))
  {
    hide BatchInv, Without, PutOne, StartBatch, FinishPush;
    match act
    case TryPush(item, pick) => PushKeepsBatches(s, item, pick);
    case Push(item, timed, pick) =>
      PushKeepsBatches(s, item, pick);
      SameLogKeeps(s, s.(sleepP := s.sleepP + [Producer(item, timed)]));
    case ProducerRuns(i, expired, pick) =>
      var t := s.(wokenP := Without(s.wokenP, i));
      SameLogKeeps(s, t);
      SameLogKeeps(s, t.(sleepP := s.sleepP + [s.wokenP[i]]));
      PushKeepsBatches(t, s.wokenP[i].item, pick);
    case ProducerTimesOut(i, pick) =>
      var t := s.(sleepP := Without(s.sleepP, i));
      SameLogKeeps(s, t);
      PushKeepsBatches(t, s.sleepP[i].item, pick);
    case PushBatch(items) => StartBatchKeeps(s, items);
    case BatchNext(i, pick) =>
      BatchReturns(s, i);
      if s.batches[i].pushed < |s.batches[i].items| { BatchPushes(s, i, pick); }
    case _ => SameLogKeeps(s, Apply(s, act));
  }

  lemma {:induction false} MoreCallsKeep<T>(s: State<T>)
    requires BatchInv(s)
    ensures BatchInv(s.(calls := s.calls + 1))
  {
    hide By, AllLogged;
    MoreCalls(s.accepted, s.calls, s.batches);
    MoreCalls(s.accepted, s.calls, s.returned);
  }

  lemma {:induction false} RunKeepsBatches<T(!new)>(run: seq<State<T>>, i: nat)
    requires IsRun(run) && i < |run|
    ensures BatchInv(run[i])
  {
    hide BatchInv, Enabled, Apply;
    if i == 0 {
      InitialBatches<T>(run[0].mon.capacity);
    } else {
      RunKeepsBatches(run, i - 1);
      assert Next(run[i - 1], run[i]);
      var act :| Enabled(run[i - 1], act) && run[i] == Apply(run[i - 1], act);
      StepKeepsBatches(run[i - 1], act);
    }
  }

  lemma InitialBatches<T>(capacity: nat)
    ensures BatchInv(Initial<T>(capacity))
  {
  }

  /** A batch push that has returned k put exactly its first k elements into the queue, in order,
      whatever other calls did in between. */
  lemma {:induction false} BatchPushAcceptsPrefix<T(!new)>(run: seq<State<T>>, i: nat, b: Batch<T>)
    requires IsRun(run) && i < |run| && b in run[i].returned
    ensures b.pushed <= |b.items| && By(run[i].accepted, b.id) == b.items[..b.pushed]
  {
    hide IsRun, By;
    RunKeepsBatches(run, i);
    var k :| 0 <= k < |run[i].returned| && run[i].returned[k] == b;
    assert Logged(run[i].accepted, run[i].calls, run[i].returned[k]);
  }
}
