/** Whole runs of two sessions: what a failure ends, and that what was sent arrives. */
module TcpRuns {
  // A session that fails or is stopped stays closed and says so once. Sessions left to themselves
  // come to rest, and then everything accepted has been delivered.

  import opened Wrappers
  import opened NetHeader
  import opened TcpSession

  // ---------- failures ----------

  /** The header that is read next does not begin with the letters B, R, E, Z. */
  predicate BadHeader(s: Session, incoming: Bytes)
    requires |Unread(s, incoming)| >= 4
  {
    Unread(s, incoming)[..4] != [66, 82, 69, 90]
  }

  /** An operation failed other than by being aborted, the peer broke the protocol, or Stop was called. */
  predicate IsFailure(s: Session, incoming: Bytes, act: Action)
    requires Enabled(s, incoming, act)
  {
    || act == ReadFailed(false)
    || act == WriteFailed(false)
    || act == StopBegin
    || (act == HeaderRead && BadHeader(s, incoming))
  }

  /** It closes the session, and ends its reading or writing. */
  lemma {:induction false} FailureCloses(s: Session, incoming: Bytes, act: Action)
    requires Enabled(s, incoming, act) && IsFailure(s, incoming, act)
    ensures Apply(s, incoming, act).closed
    ensures act.ReadFailed? || act.HeaderRead? ==> Apply(s, incoming, act).reader == Idle
    ensures act.WriteFailed? ==> !Apply(s, incoming, act).writing && Apply(s, incoming, act).inFlight.None?
  {
    hide FromLittleEndian;
    if act == HeaderRead {
      var u := Unread(s, incoming);
      assert u[..HEADER_SIZE][..4] == u[..4];
    }
  }

  /** Nothing else does; and an aborted operation is forgotten without further effect. */
  lemma {:induction false} OnlyFailuresClose(s: Session, incoming: Bytes, act: Action)
    requires Enabled(s, incoming, act) && !IsFailure(s, incoming, act)
    ensures Apply(s, incoming, act).closed == s.closed
    ensures act == ReadFailed(true) ==> Apply(s, incoming, act) == s.(reader := Idle)
    ensures act == WriteFailed(true) ==> Apply(s, incoming, act) == s.(inFlight := None)
  {
    hide FromLittleEndian, Frame;
    if act == HeaderRead {
      var u := Unread(s, incoming);
      assert u[..HEADER_SIZE][..4] == u[..4];
    }
  }

  /** Stop in one go is Stop in its two halves. */
  lemma StopInTwoHalves(s: Session, incoming: Bytes)
    requires !s.closed && !s.stopping
    ensures Apply(Apply(s, incoming, StopBegin), incoming, StopEnd) == AfterStop(s)
  {
  }

  /** A closed session stays closed, accepts nothing and is not started; a closed socket stays closed. */
  predicate StaysShut(s: Session, t: Session) {
    && (s.closed ==> t.closed && t.sent == s.sent && t.started == s.started)
    && (!s.socketOpen ==> !t.socketOpen)
  }

  lemma {:induction false} StepStaysShut(s: Session, incoming: Bytes, act: Action)
    requires Enabled(s, incoming, act)
    ensures StaysShut(s, Apply(s, incoming, act))
    ensures !s.socketOpen ==> Output(s, act) == []
  {
    hide Frame, Unread, AfterDoWrite, AfterEnqueue, AfterHeader;
    HeaderStaysShut(s, Unread(s, incoming));
  }

  lemma HeaderStaysShut(s: Session, unread: Bytes)
    ensures |unread| >= HEADER_SIZE ==> StaysShut(s, AfterHeader(s, unread[..HEADER_SIZE]))
    ensures |unread| >= HEADER_SIZE && SaidOnce(s) ==> SaidOnce(AfterHeader(s, unread[..HEADER_SIZE]))
  {
    hide SizeIn;
  }

  lemma {:induction false} NextStaysShut(n: Net, m: Net)
    requires Next(n, m)
    ensures StaysShut(n.a, m.a) && StaysShut(n.b, m.b)
    ensures (!n.a.socketOpen ==> m.ab == n.ab) && (!n.b.socketOpen ==> m.ba == n.ba)
  {
    hide Apply, Enabled, Output;
    if act :| NetEnabled(n, act) && m == NetApply(n, act) {
      StepStaysShut(n.a, n.ba, act);
      assert n.ab + [] == n.ab && m.ba == n.ba;
    } else {
      var act :| NetEnabled(Swap(n), act) && m == Swap(NetApply(Swap(n), act));
      StepStaysShut(n.b, n.ab, act);
      assert n.ba + [] == n.ba && m.ab == n.ab;
    }
  }

  /** In every later state, too; and no byte leaves a closed socket. */
  lemma {:induction false} ShutForever(run: seq<Net>, i: nat, j: nat)
    requires IsRun(run) && i <= j < |run|
    ensures StaysShut(run[i].a, run[j].a) && StaysShut(run[i].b, run[j].b)
    ensures (!run[i].a.socketOpen ==> run[j].ab == run[i].ab) && (!run[i].b.socketOpen ==> run[j].ba == run[i].ba)
    decreases j - i
  {
    hide Next;
    if i < j {
      ShutForever(run, i, j - 1);
      assert Next(run[j - 1], run[j]);
      NextStaysShut(run[j - 1], run[j]);
    }
  }

  /** From a failure on, the session is closed in every later state and accepts nothing. */
  lemma {:induction false} FailureEndsSession(run: seq<Net>, i: nat, j: nat, act: Action)
    requires IsRun(run) && i < j < |run|
    ensures var n := run[i];
            NetEnabled(n, act) && IsFailure(n.a, n.ba, act) && run[i + 1] == NetApply(n, act)
            ==> run[j].a.closed && run[j].a.sent == n.a.sent
    ensures var n := Swap(run[i]);
            NetEnabled(n, act) && IsFailure(n.a, n.ba, act) && Swap(run[i + 1]) == NetApply(n, act)
            ==> run[j].b.closed && run[j].b.sent == n.a.sent
  {
    hide IsFailure, Apply, Enabled, Output, IsRun;
    ShutForever(run, i + 1, j);
    var n, m := run[i], Swap(run[i]);
    if NetEnabled(n, act) && IsFailure(n.a, n.ba, act) && run[i + 1] == NetApply(n, act) {
      FailureCloses(n.a, n.ba, act);
      FailureAccepts(n.a, n.ba, act);
    }
    if NetEnabled(m, act) && IsFailure(m.a, m.ba, act) && Swap(run[i + 1]) == NetApply(m, act) {
      FailureCloses(m.a, m.ba, act);
      FailureAccepts(m.a, m.ba, act);
    }
  }

  lemma FailureAccepts(s: Session, incoming: Bytes, act: Action)
    requires Enabled(s, incoming, act) && IsFailure(s, incoming, act)
    ensures Apply(s, incoming, act).sent == s.sent
  {
    SentAfter(s, incoming, act);
  }

  // ---------- the disconnect callback ----------

  /** The callback has been called once if a Stop has run to its end, and not otherwise; from then on
      the socket is closed. */
  predicate SaidOnce(s: Session) {
    && (s.stopping ==> s.closed)
    && s.disconnects == (if s.closed && !s.stopping then 1 else 0)
    && (s.closed && !s.stopping ==> !s.socketOpen)
  }

  lemma {:induction false} StepSaysOnce(s: Session, incoming: Bytes, act: Action)
    requires SaidOnce(s) && Enabled(s, incoming, act)
    ensures SaidOnce(Apply(s, incoming, act))
  {
    hide Frame, Unread, AfterDoWrite, AfterEnqueue, AfterHeader;
    HeaderStaysShut(s, Unread(s, incoming));
  }

  /** In every reachable state the disconnect callback of a session has been called exactly once if the
      session is closed and no Stop is still under way, and never otherwise. */
  lemma {:induction false} DisconnectsOnce(run: seq<Net>, i: nat)
    requires IsRun(run) && i < |run|
    ensures SaidOnce(run[i].a) && SaidOnce(run[i].b)
  {
    hide SaidOnce, Apply, Enabled, Output;
    if i == 0 {
      FreshSaidNothing();
    } else {
      DisconnectsOnce(run, i - 1);
      var n, m := run[i - 1], run[i];
      assert Next(n, m);
      if act :| NetEnabled(n, act) && m == NetApply(n, act) {
        StepSaysOnce(n.a, n.ba, act);
      } else {
        var act :| NetEnabled(Swap(n), act) && m == Swap(NetApply(Swap(n), act));
        StepSaysOnce(n.b, n.ab, act);
      }
    }
  }

  lemma FreshSaidNothing()
    ensures SaidOnce(FRESH)
  {
  }

  // ---------- everything arrives in the end ----------

  /** The steps taken without a new call and without a failure. */
  predicate Internal(act: Action) {
    act.RunPost? || (act.Transfer? && act.count > 0) || act.WriteDone? || act.HeaderRead? || act.BodyRead?
  }

  function ToWrite(s: Session): nat {
    if s.inFlight.Some? && s.inFlight.value.written <= |s.inFlight.value.frame|
    then |s.inFlight.value.frame| - s.inFlight.value.written else 0
  }

  /** Posts run, frames leave the queue, bytes go out, bytes are read: each kind of step may make room for
      the later kinds only. */
  predicate Closer(n: Net, m: Net) {
    var posts := |m.a.posts| + |m.b.posts| - |n.a.posts| - |n.b.posts|;
    var queued := |m.a.queue| + |m.b.queue| - |n.a.queue| - |n.b.queue|;
    var bytes := ToWrite(m.a) + ToWrite(m.b) - ToWrite(n.a) - ToWrite(n.b);
    var unread := |Unread(m.a, m.ba)| + |Unread(m.b, m.ab)| - |Unread(n.a, n.ba)| - |Unread(n.b, n.ab)|;
    || posts < 0
    || (posts == 0 && queued < 0)
    || (posts == 0 && queued == 0 && bytes < 0)
    || (posts == 0 && queued == 0 && bytes == 0 && unread < 0)
  }

  lemma {:induction false} WriteStepsEnd(n: Net, act: Action)
    requires NetEnabled(n, act) && (act.RunPost? || (act.Transfer? && act.count > 0) || act.WriteDone?)
    requires n.a.inFlight.Some? ==> n.a.queue != []
    ensures Closer(n, NetApply(n, act))
  {
    hide Unread;
  }

  /** A read takes bytes that have arrived, and leaves the sending side alone. */
  predicate Consumes(s: Session, t: Session, incoming: Bytes) {
    && s.consumed < t.consumed <= |incoming|
    && t.posts == s.posts && t.queue == s.queue && t.inFlight == s.inFlight
  }

  lemma HeaderConsumes(s: Session, incoming: Bytes)
    requires Enabled(s, incoming, HeaderRead)
    ensures Consumes(s, Apply(s, incoming, HeaderRead), incoming)
  {
    hide AfterHeader;
  }

  lemma BodyConsumes(s: Session, incoming: Bytes)
    requires Enabled(s, incoming, BodyRead) && s.reader.length > 0
    ensures Consumes(s, Apply(s, incoming, BodyRead), incoming)
  {
  }

  lemma {:induction false} ReadStepsEnd(n: Net, act: Action)
    requires NetEnabled(n, act) && (act.HeaderRead? || act.BodyRead?) && SizesOk(n.a)
    ensures Closer(n, NetApply(n, act))
  {
    if act.HeaderRead? { HeaderConsumes(n.a, n.ba); } else { BodyConsumes(n.a, n.ba); }
    hide Apply, Enabled, SizesOk;
    assert n.ab + [] == n.ab;
  }

  /** Every internal step of a reachable state brings the sessions closer to rest: left to themselves, they
      stop after finitely many. */
  lemma {:induction false} InternalStepsEnd(run: seq<Net>, i: nat, act: Action)
    requires IsRun(run) && i < |run| && Internal(act)
    ensures NetEnabled(run[i], act) ==> Closer(run[i], NetApply(run[i], act))
    ensures NetEnabled(Swap(run[i]), act) ==> Closer(run[i], Swap(NetApply(Swap(run[i]), act)))
  {
    hide Closer, NetEnabled, NetApply, SizesOk, IsRun, Frames, Concat, RecvInv;
    RunKeeps(run, i);
    DeliveredSizes(run, i);
    StepEnds(run[i], act);
    StepEnds(Swap(run[i]), act);
    if NetEnabled(Swap(run[i]), act) { CloserSwapped(Swap(run[i]), NetApply(Swap(run[i]), act)); }
  }

  lemma {:induction false} StepEnds(n: Net, act: Action)
    requires Internal(act) && SizesOk(n.a) && (n.a.inFlight.Some? ==> n.a.queue != [])
    ensures NetEnabled(n, act) ==> Closer(n, NetApply(n, act))
  {
    hide Closer, NetApply, NetEnabled;
    if NetEnabled(n, act) {
      if act.HeaderRead? || act.BodyRead? { ReadStepsEnd(n, act); } else { WriteStepsEnd(n, act); }
    }
  }

  lemma CloserSwapped(n: Net, m: Net)
    requires Closer(n, m)
    ensures Closer(Swap(n), Swap(m))
  {
    hide Unread, ToWrite;
  }

  /** Neither session can take an internal step. */
  ghost predicate Resting(n: Net) {
    && (forall act | Internal(act) :: !NetEnabled(n, act))
    && (forall act | Internal(act) :: !NetEnabled(Swap(n), act))
  }

  /** An open sender at rest has run, queued and written everything. */
  lemma {:induction false} SenderIdle(n: Net)
    requires SendInv(n.a, n.ab) && !n.a.closed && forall act | Internal(act) :: !NetEnabled(n, act)
    ensures n.a.posts == [] && !n.a.writing && n.ab == Concat(Frames(n.a.sent))
  {
    hide Frames, Concat;
    var s := n.a;
    assert !NetEnabled(n, RunPost) && !NetEnabled(n, WriteDone);
    assert ToWrite(s) == 0 || !NetEnabled(n, Transfer(ToWrite(s)));
    var fs := Frames(s.sent);
    assert fs[..s.popped] == fs;
    var tail :| Partial(s, tail) && n.ab == Concat(fs[..s.popped]) + tail;
  }

  /** A reader at rest on a wire that holds all frames waits for a header with nothing unread. */
  lemma {:induction false} ReaderDone(n: Net, sent: seq<Bytes>)
    requires RecvInv(n.b, sent, n.ab) && n.ab == Concat(Frames(sent)) && !n.b.reader.Idle?
    requires forall act | Internal(act) :: !NetEnabled(Swap(n), act)
    ensures n.b.reader == Header && Unread(n.b, n.ab) == []
  {
    hide Frames, Concat, NonEmpty;
    var r := n.b;
    assert !NetEnabled(Swap(n), HeaderRead) && !NetEnabled(Swap(n), BodyRead);
    var fs := Frames(sent);
    assert fs[..|fs|] == fs && sent[..|sent|] == sent;
    if r.taken < |sent| {
      FrameTaken(sent, r.taken);
      FramesTake(sent, r.taken + 1);
      ConcatPrefix(fs, r.taken + 1, |fs|);
    }
  }

  /** When two sessions have come to rest, every non-empty payload that an open one accepted has been
      delivered to the other, if that one is reading. In both directions. */
  lemma {:induction false} RestMeansDelivered(run: seq<Net>, i: nat)
    requires IsRun(run) && i < |run| && Resting(run[i])
    ensures var n := run[i]; !n.a.closed && !n.b.reader.Idle? && AllSmall(n.a.sent) ==> n.b.delivered == NonEmpty(n.a.sent)
    ensures var n := run[i]; !n.b.closed && !n.a.reader.Idle? && AllSmall(n.b.sent) ==> n.a.delivered == NonEmpty(n.b.sent)
  {
    hide NonEmpty, IsRun, DirectionInv, AllSmall, NetEnabled, Internal;
    RunKeeps(run, i);
    var n := run[i];
    if !n.a.closed && !n.b.reader.Idle? && AllSmall(n.a.sent) { DirectionDelivered(n); }
    if !n.b.closed && !n.a.reader.Idle? && AllSmall(n.b.sent) { DirectionDelivered(Swap(n)); }
  }

  lemma {:induction false} DirectionDelivered(n: Net)
    requires DirectionInv(n.a, n.b, n.ab) && AllSmall(n.a.sent) && !n.a.closed && !n.b.reader.Idle?
    requires (forall act | Internal(act) :: !NetEnabled(n, act)) && forall act | Internal(act) :: !NetEnabled(Swap(n), act)
    ensures n.b.delivered == NonEmpty(n.a.sent)
  {
    hide NonEmpty, Concat, Frames, SendInv, RecvInv, AllSmall, NetEnabled, Internal, Unread;
    SenderIdle(n);
    ReaderDone(n, n.a.sent);
    QuietDirection(n.a, n.b, n.ab);
  }
}
