/** Framed TCP sessions, callback version. */
module TcpSession {
  // Each session has a strand that runs posted handlers in order, one outstanding write at most,
  // and a reader that alternates between header and body. Two sessions are joined by a byte stream
  // in each direction; what the network and the I/O library decide (how many bytes go out, which
  // operation completes, when one fails) is a nondeterministic choice of actions.

  import opened Wrappers
  import opened NetHeader

  type Bytes = seq<byte>

  /** An asynchronous write and the number of its bytes that are on the wire. */
  datatype Write = Write(frame: Bytes, written: nat)

  datatype Reader = Idle | Header | Body(length: nat)

  datatype Session = Session(
    closed: bool,            // _is_closed
    socketOpen: bool,        // the socket still takes bytes
    stopping: bool,          // a Stop has set the flag and not closed the socket yet
    started: bool,           // _is_started
    posts: seq<Bytes>,       // frames of enqueue_write handlers posted to the strand
    queue: seq<Bytes>,       // _write_queue
    writing: bool,           // _is_writing
    inFlight: Option<Write>, // the outstanding async_write
    reader: Reader,          // the outstanding async_read
    consumed: nat,           // bytes read from the incoming stream
    // history
    sent: seq<Bytes>,        // payloads Send accepted
    popped: nat,             // frames removed from the queue after their write completed
    taken: nat,              // whole frames read
    delivered: seq<Bytes>,   // payloads handed to the message callback
    disconnects: nat         // calls of the disconnect callback
  )

  const FRESH := Session(false, true, false, false, [], [], false, None, Idle, 0, [], 0, 0, [], 0)

  datatype Action =
    | Send(payload: Bytes)
    | RunPost
    | Transfer(count: nat)
    | WriteDone
    | WriteFailed(aborted: bool)
    | StopBegin
    | StopEnd
    | Start
    | HeaderRead
    | BodyRead
    | ReadFailed(aborted: bool)

  // ---------- handlers ----------

  function Frame(payload: Bytes): (f: Bytes)
    ensures |f| == HEADER_SIZE + |payload|
  {
    HeaderFor(|payload|) + payload
  }

  /** do_write: start writing the front of the queue, if there is one. */
  function AfterDoWrite(s: Session): (r: Session)
    ensures r == s.(writing := r.writing, inFlight := r.inFlight)
  {
    if s.queue == [] then s.(writing := false) else s.(inFlight := Some(Write(s.queue[0], 0)))
  }

  function AfterEnqueue(s: Session, frame: Bytes): (r: Session)
    ensures r == s.(queue := s.queue + [frame], writing := true, inFlight := r.inFlight)
  {
    var t := s.(queue := s.queue + [frame]);
    if s.writing then t else AfterDoWrite(t.(writing := true))
  }

  /** Stop, run to its end; it returns at once when the session is already closed. */
  function AfterStop(s: Session): (r: Session)
    ensures r == s.(closed := true, socketOpen := r.socketOpen, disconnects := r.disconnects)
  {
    if s.closed then s else s.(closed := true, socketOpen := false, disconnects := s.disconnects + 1)
  }

  /** async_read_data: a body of length zero is skipped. */
  function AfterReadData(s: Session, length: nat): (r: Session)
    ensures r == s.(reader := r.reader, taken := r.taken)
  {
    if length == 0 then s.(reader := Header, taken := s.taken + 1) else s.(reader := Body(length))
  }

  /** The handler of the header read: a header without the magic stops the session. */
  function AfterHeader(s: Session, header: Bytes): (r: Session)
    ensures r.consumed == s.consumed + HEADER_SIZE && r.delivered == s.delivered && r.sent == s.sent
    ensures r.posts == s.posts && r.queue == s.queue && r.inFlight == s.inFlight
  {
    var size := SizeIn(header);
    var t := s.(consumed := s.consumed + HEADER_SIZE);
    if size.None? then AfterStop(t.(reader := Idle)) else AfterReadData(t, size.value)
  }

  // ---------- steps ----------

  /** The bytes the reader has not taken yet. */
  function Unread(s: Session, incoming: Bytes): (b: Bytes) {
    if s.consumed <= |incoming| then incoming[s.consumed..] else []
  }

  /** When an action can happen. A write completes when all its bytes are out; bytes go out while
      the socket is open; an operation is reported aborted only after the socket was closed; a
      read completes when enough bytes have arrived. A socket whose write failed takes no more
      bytes. */
  predicate Enabled(s: Session, incoming: Bytes, act: Action) {
    match act
    case Send(_) => true
    case RunPost => s.posts != []
    case Transfer(n) => s.socketOpen && s.inFlight.Some? && s.inFlight.value.written + n <= |s.inFlight.value.frame|
    case WriteDone => s.inFlight.Some? && s.inFlight.value.written == |s.inFlight.value.frame|
    case WriteFailed(aborted) => s.inFlight.Some? && (aborted ==> !s.socketOpen)
    case StopBegin => !s.closed
    case StopEnd => s.closed && s.stopping
    case Start => true
    case HeaderRead => s.reader.Header? && |Unread(s, incoming)| >= HEADER_SIZE
    case BodyRead => s.reader.Body? && |Unread(s, incoming)| >= s.reader.length
    case ReadFailed(aborted) => !s.reader.Idle? && (aborted ==> !s.socketOpen)
  }

  /** The bytes an action puts on the outgoing wire. */
  function Output(s: Session, act: Action): (b: Bytes) {
    if act.Transfer? && s.inFlight.Some? && s.inFlight.value.written + act.count <= |s.inFlight.value.frame| then
      s.inFlight.value.frame[s.inFlight.value.written..s.inFlight.value.written + act.count]
    else []
  }

  function Apply(s: Session, incoming: Bytes, act: Action): (r: Session)
    requires Enabled(s, incoming, act)
  {
    match act
    case Send(payload) =>
      if s.closed then s else s.(posts := s.posts + [Frame(payload)], sent := s.sent + [payload])
    case RunPost => AfterEnqueue(s.(posts := s.posts[1..]), s.posts[0])
    case Transfer(n) => s.(inFlight := Some(Write(s.inFlight.value.frame, s.inFlight.value.written + n)))
    case WriteDone =>
      AfterDoWrite(s.(inFlight := None, popped := s.popped + 1, queue := if s.queue == [] then [] else s.queue[1..]))
    case WriteFailed(aborted) =>
      if aborted then s.(inFlight := None)
      else AfterStop(s.(inFlight := None, writing := false)).(socketOpen := false)
    case StopBegin => s.(closed := true, stopping := true)
    case StopEnd => s.(stopping := false, socketOpen := false, disconnects := s.disconnects + 1)
    case Start => if s.closed || s.started then s else s.(started := true, reader := Header)
    case HeaderRead => AfterHeader(s, Unread(s, incoming)[..HEADER_SIZE])
    case BodyRead =>
      var body := Unread(s, incoming)[..s.reader.length];
      s.(consumed := s.consumed + |body|, taken := s.taken + 1, delivered := s.delivered + [body], reader := Header)
    case ReadFailed(aborted) =>
      if aborted then s.(reader := Idle) else AfterStop(s.(reader := Idle))
  }

  /** Two sessions and the byte streams between them. */
  datatype Net = Net(a: Session, b: Session, ab: Bytes, ba: Bytes)

  const START := Net(FRESH, FRESH, [], [])

  function Swap(n: Net): (r: Net) {
    Net(n.b, n.a, n.ba, n.ab)
  }

  predicate NetEnabled(n: Net, act: Action) {
    Enabled(n.a, n.ba, act)
  }

  /** An action of session a. */
  function NetApply(n: Net, act: Action): (r: Net)
    requires NetEnabled(n, act)
  {
    Net(Apply(n.a, n.ba, act), n.b, n.ab + Output(n.a, act), n.ba)
  }

  ghost predicate Next(n: Net, m: Net) {
    || (exists act :: NetEnabled(n, act) && m == NetApply(n, act))
    || (exists act :: NetEnabled(Swap(n), act) && m == Swap(NetApply(Swap(n), act)))
  }

  ghost predicate IsRun(run: seq<Net>) {
    run != [] && run[0] == START && forall i | 0 < i < |run| :: Next(run[i - 1], run[i])
  }

  // ---------- the session object ----------

  /** The session class. The fields below the line are the I/O library's side of the session: the
      handlers posted to the strand, the outstanding operations and the socket. */
  class TCPSession {
    var isClosed: bool
    var isStarted: bool
    var isWriting: bool
    var writeQueue: seq<Bytes>
    // ----
    var strand: seq<Bytes>
    var socketOpen: bool
    ghost var stopping: bool
    var write: Option<Write>
    var read: Reader
    ghost var consumed: nat
    ghost var sent: seq<Bytes>
    ghost var popped: nat
    ghost var taken: nat
    ghost var delivered: seq<Bytes>
    ghost var disconnects: nat

    ghost function State(): Session
      reads this
    {
      Session(isClosed, socketOpen, stopping, isStarted, strand, writeQueue, isWriting, write, read, consumed,
              sent, popped, taken, delivered, disconnects)
    }

    constructor ()
      ensures State() == FRESH
    {
      isClosed, isStarted, isWriting, writeQueue := false, false, false, [];
      strand, socketOpen, write, read, consumed := [], true, None, Idle, 0;
      sent, popped, taken, delivered, stopping, disconnects := [], 0, 0, [], false, 0;
    }

    method Send(data: Bytes)
      modifies this
      ensures State() == Apply(old(State()), [], Action.Send(data))
    {
      if isClosed { return; }
      var header := new NetHeader.Header();
      var headerData := header.GetHeaderData(|data|);
      var buffer := headerData + data;
      strand := strand + [buffer];
      sent := sent + [data];
    }

    /** The strand runs its oldest handler. */
    method RunStrand()
      requires strand != []
      modifies this
      ensures State() == Apply(old(State()), [], RunPost)
    {
      var data := strand[0];
      strand := strand[1..];
      EnqueueWrite(data);
    }

    method EnqueueWrite(data: Bytes)
      modifies this
      ensures State() == AfterEnqueue(old(State()), data)
    {
      writeQueue := writeQueue + [data];
      if isWriting { return; }
      isWriting := true;
      DoWrite();
    }

    method DoWrite()
      modifies this
      ensures State() == AfterDoWrite(old(State()))
    {
      if writeQueue == [] {
        isWriting := false;
        return;
      }
      write := Some(Write(writeQueue[0], 0));
    }

    /** The completion handler of async_write. */
    method OnWritten(failed: bool, aborted: bool)
      requires Enabled(State(), [], if failed then WriteFailed(aborted) else WriteDone)
      modifies this
      ensures State() == Apply(old(State()), [], if failed then WriteFailed(aborted) else WriteDone)
    {
      hide AfterHeader, AfterEnqueue, Frame, Unread;
      if failed {
        OnWriteFailed(aborted);
        return;
      }
      write := None;
      writeQueue := if writeQueue == [] then [] else writeQueue[1..];
      popped := popped + 1;
      DoWrite();
    }

    method OnWriteFailed(aborted: bool)
      requires Enabled(State(), [], WriteFailed(aborted))
      modifies this
      ensures State() == Apply(old(State()), [], WriteFailed(aborted))
    {
      hide AfterHeader, AfterEnqueue, AfterDoWrite, Frame, Unread;
      write := None;
      if !aborted {
        isWriting := false;
        Stop();
        socketOpen := false;
      }
    }

    method Stop()
      modifies this
      ensures State() == AfterStop(old(State()))
    {
      if isClosed { return; }
      isClosed := true;
      socketOpen := false;
      disconnects := disconnects + 1;
    }

    method Start()
      modifies this
      ensures State() == Apply(old(State()), [], Action.Start)
    {
      if isClosed { return; }
      if isStarted { return; }
      isStarted := true;
      read := Header;
    }

    /** The completion handler of the header read; the bytes it got are the next unread ones. */
    method OnHeader(headerData: Bytes, ghost incoming: Bytes)
      requires Enabled(State(), incoming, HeaderRead) && headerData == Unread(State(), incoming)[..HEADER_SIZE]
      modifies this
      ensures State() == Apply(old(State()), incoming, HeaderRead)
    {
      hide AfterEnqueue, AfterDoWrite, Frame, FromLittleEndian;
      consumed := consumed + HEADER_SIZE;
      var reader := new NetHeader.Header();
      var ok := reader.Parse(headerData);
      if !ok {
        read := Idle;
        Stop();
        return;
      }
      AsyncReadData(reader.FileSize);
    }

    method AsyncReadData(length: nat)
      modifies this
      ensures State() == AfterReadData(old(State()), length)
    {
      if length == 0 {
        taken := taken + 1;
        read := Header;
        return;
      }
      read := Body(length);
    }

    /** The completion handler of the body read. */
    method OnBody(buffer: Bytes, ghost incoming: Bytes)
      requires Enabled(State(), incoming, BodyRead) && buffer == Unread(State(), incoming)[..read.length]
      modifies this
      ensures State() == Apply(old(State()), incoming, BodyRead)
    {
      consumed := consumed + |buffer|;
      taken := taken + 1;
      delivered := delivered + [buffer];
      read := Header;
    }

    method OnReadFailed(aborted: bool, ghost incoming: Bytes)
      requires Enabled(State(), incoming, ReadFailed(aborted))
      modifies this
      ensures State() == Apply(old(State()), incoming, ReadFailed(aborted))
    {
      read := Idle;
      if !aborted { Stop(); }
    }
  }

  // ---------- frames ----------

  function Frames(payloads: seq<Bytes>): (fs: seq<Bytes>)
    ensures |fs| == |payloads| && forall i | 0 <= i < |fs| :: fs[i] == Frame(payloads[i])
  {
    seq(|payloads|, i requires 0 <= i < |payloads| => Frame(payloads[i]))
  }

  function Concat(bs: seq<Bytes>): (b: Bytes) {
    if bs == [] then [] else Concat(bs[..|bs| - 1]) + bs[|bs| - 1]
  }

  function NonEmpty(payloads: seq<Bytes>): (r: seq<Bytes>) {
    if payloads == [] then []
    else
      var front := NonEmpty(payloads[..|payloads| - 1]);
      if payloads[|payloads| - 1] == [] then front else front + [payloads[|payloads| - 1]]
  }

  predicate AllSmall(payloads: seq<Bytes>) {
    forall i | 0 <= i < |payloads| :: |payloads[i]| < TWO_TO_THE_32
  }

  // ---------- sender invariant ----------

  /** The part of the current front frame that is on the wire. */
  ghost predicate Partial(s: Session, tail: Bytes) {
    && (s.queue == [] ==> tail == [])
    && (s.queue != [] ==> tail <= s.queue[0])
    && (s.inFlight.None? && s.socketOpen ==> tail == [])
    && (s.inFlight.Some? ==>
          var w := s.inFlight.value;
          && s.queue != [] && w.frame == s.queue[0] && w.written <= |w.frame|
          && (tail == w.frame[..w.written] || (!s.socketOpen && w.written < |w.frame|)))
  }

  /** What holds between a session and its outgoing wire: the accepted frames are, in order, the
      popped ones, the queue and the posts; the wire holds the popped ones and a part of the
      front; the writing flag says that a write is out. */
  ghost predicate SendInv(s: Session, wire: Bytes) {
    && s.popped <= |s.sent|
    && Frames(s.sent)[s.popped..] == s.queue + s.posts
    && (exists tail :: Partial(s, tail) && wire == Concat(Frames(s.sent)[..s.popped]) + tail)
    && (!s.socketOpen ==> s.closed)
    && (s.inFlight.Some? ==> s.writing)
    && (!s.closed ==> (s.writing <==> s.inFlight.Some?) && (!s.writing ==> s.queue == []))
  }

  // ---------- receiver invariant ----------

  /** What holds between the sender's payloads, the wire and the session reading it. */
  ghost predicate RecvInv(r: Session, sent: seq<Bytes>, wire: Bytes) {
    && r.taken <= |sent|
    && r.delivered == NonEmpty(sent[..r.taken])
    && (!r.started ==> r.reader.Idle? && r.consumed == 0 == r.taken)
    && (r.reader.Header? ==> r.consumed == |Concat(Frames(sent[..r.taken]))| <= |wire|)
    && (r.reader.Body? ==>
          && r.taken < |sent| && sent[r.taken] != [] && r.reader.length == |sent[r.taken]|
          && r.consumed == |Concat(Frames(sent[..r.taken]))| + HEADER_SIZE <= |wire|)
  }

  ghost predicate DirectionInv(s: Session, r: Session, wire: Bytes) {
    SendInv(s, wire) && (AllSmall(s.sent) ==> RecvInv(r, s.sent, wire))
  }

  ghost predicate Inv(n: Net) {
    DirectionInv(n.a, n.b, n.ab) && DirectionInv(n.b, n.a, n.ba)
  }

  // ---------- lemmas about frames ----------

  lemma FramesTake(ps: seq<Bytes>, n: nat)
    requires n <= |ps|
    ensures Frames(ps[..n]) == Frames(ps)[..n]
  {
    hide Frame;
  }

  lemma {:induction false} ConcatTake(bs: seq<Bytes>, i: nat)
    requires i < |bs|
    ensures Concat(bs[..i + 1]) == Concat(bs[..i]) + bs[i]
  {
    assert bs[..i + 1][..i] == bs[..i];
  }

  lemma {:induction false} ConcatPrefix(bs: seq<Bytes>, i: nat, j: nat)
    requires i <= j <= |bs|
    ensures Concat(bs[..i]) <= Concat(bs[..j])
    decreases j - i
  {
    if i < j {
      ConcatPrefix(bs, i, j - 1);
      ConcatTake(bs, j - 1);
    }
  }

  lemma {:induction false} NonEmptyTake(ps: seq<Bytes>, i: nat)
    requires i < |ps|
    ensures NonEmpty(ps[..i + 1]) == NonEmpty(ps[..i]) + if ps[i] == [] then [] else [ps[i]]
  {
    assert ps[..i + 1][..i] == ps[..i];
  }

  lemma {:induction false} NonEmptyPrefix(ps: seq<Bytes>, i: nat, j: nat)
    requires i <= j <= |ps|
    ensures NonEmpty(ps[..i]) <= NonEmpty(ps[..j])
    decreases j - i
  {
    if i < j {
      NonEmptyPrefix(ps, i, j - 1);
      NonEmptyTake(ps, j - 1);
    }
  }

  // ---------- every action keeps the sender invariant ----------

  /** The sender part of a session is untouched. */
  predicate SameSender(s: Session, t: Session) {
    && s.posts == t.posts && s.queue == t.queue && s.writing == t.writing && s.inFlight == t.inFlight
    && s.sent == t.sent && s.popped == t.popped
  }

  lemma {:induction false} ClosingKeepsSender(s: Session, t: Session, wire: Bytes)
    requires SendInv(s, wire) && SameSender(s, t)
    requires (s.closed ==> t.closed) && (!s.socketOpen ==> !t.socketOpen) && (!t.socketOpen ==> t.closed)
    ensures SendInv(t, wire)
  {
    hide Frames, Concat;
    var tail :| Partial(s, tail) && wire == Concat(Frames(s.sent)[..s.popped]) + tail;
    assert Partial(t, tail);
  }

  lemma {:induction false} SendKeepsSender(s: Session, wire: Bytes, payload: Bytes)
    requires SendInv(s, wire)
    ensures SendInv(Apply(s, [], Send(payload)), wire)
  {
    hide Concat, Frame;
    var t := Apply(s, [], Send(payload));
    if !s.closed {
      var tail :| Partial(s, tail) && wire == Concat(Frames(s.sent)[..s.popped]) + tail;
      assert Partial(t, tail);
      hide Frames;
      assert Frames(t.sent)[..t.popped] == Frames(s.sent)[..s.popped];
      assert Frames(t.sent)[t.popped..] == Frames(s.sent)[s.popped..] + [Frame(payload)];
      assert s.queue + s.posts + [Frame(payload)] == t.queue + t.posts;
    }
  }

  lemma {:induction false} PostKeepsSender(s: Session, wire: Bytes)
    requires SendInv(s, wire) && s.posts != []
    ensures SendInv(Apply(s, [], RunPost), wire)
  {
    hide Concat, Frames;
    var t := Apply(s, [], RunPost);
    var tail :| Partial(s, tail) && wire == Concat(Frames(s.sent)[..s.popped]) + tail;
    assert t.queue + t.posts == s.queue + s.posts;
    assert Partial(t, tail);
  }

  lemma {:induction false} TransferKeepsSender(s: Session, wire: Bytes, n: nat)
    requires SendInv(s, wire) && Enabled(s, [], Transfer(n))
    ensures SendInv(Apply(s, [], Transfer(n)), wire + Output(s, Transfer(n)))
  {
    hide Concat, Frames;
    var t := Apply(s, [], Transfer(n));
    var tail :| Partial(s, tail) && wire == Concat(Frames(s.sent)[..s.popped]) + tail;
    var w := s.inFlight.value;
    var more := w.frame[..w.written + n];
    assert Partial(t, more);
  }

  /** The front of the queue is the frame after those popped. */
  lemma PopFrame(fs: seq<Bytes>, popped: nat, queue: seq<Bytes>, posts: seq<Bytes>)
    requires popped <= |fs| && queue != [] && fs[popped..] == queue + posts
    ensures popped < |fs| && fs[popped] == queue[0] && fs[popped + 1..] == queue[1..] + posts
  {
    assert fs[popped] == fs[popped..][0];
    assert fs[popped + 1..] == fs[popped..][1..];
  }

  lemma {:induction false} DoneKeepsSender(s: Session, wire: Bytes)
    requires SendInv(s, wire) && Enabled(s, [], WriteDone)
    ensures SendInv(Apply(s, [], WriteDone), wire)
  {
    hide Frames, Concat;
    var t := Apply(s, [], WriteDone);
    var tail :| Partial(s, tail) && wire == Concat(Frames(s.sent)[..s.popped]) + tail;
    var f := s.inFlight.value.frame;
    assert f[..|f|] == f && tail == f;
    var fs := Frames(s.sent);
    PopFrame(fs, s.popped, s.queue, s.posts);
    ConcatTake(fs, s.popped);
    assert Partial(t, []);
    assert wire == Concat(fs[..t.popped]) + [];
  }

  lemma {:induction false} FailedKeepsSender(s: Session, wire: Bytes, aborted: bool)
    requires SendInv(s, wire) && Enabled(s, [], WriteFailed(aborted))
    ensures SendInv(Apply(s, [], WriteFailed(aborted)), wire)
  {
    hide Frames, Concat;
    var t := Apply(s, [], WriteFailed(aborted));
    var tail :| Partial(s, tail) && wire == Concat(Frames(s.sent)[..s.popped]) + tail;
    assert Partial(t, tail);
  }

  lemma {:induction false} StepKeepsSender(s: Session, wire: Bytes, incoming: Bytes, act: Action)
    requires SendInv(s, wire) && Enabled(s, incoming, act)
    ensures SendInv(Apply(s, incoming, act), wire + Output(s, act))
  {
    hide SendInv;
    assert !act.Transfer? ==> wire + Output(s, act) == wire;
    match act
    case Send(payload) => SendKeepsSender(s, wire, payload);
    case RunPost => PostKeepsSender(s, wire);
    case Transfer(n) => TransferKeepsSender(s, wire, n);
    case WriteDone => DoneKeepsSender(s, wire);
    case WriteFailed(aborted) => FailedKeepsSender(s, wire, aborted);
    case _ =>
      OpenSocketNotClosed(s, wire);
      ClosingKeepsSender(s, Apply(s, incoming, act), wire);
  }

  lemma OpenSocketNotClosed(s: Session, wire: Bytes)
    requires SendInv(s, wire)
    ensures !s.socketOpen ==> s.closed
  {
  }

  // ---------- every action keeps the receiver invariant ----------

  /** The wire is a prefix of the accepted frames. */
  lemma {:induction false} WireIsPrefix(s: Session, wire: Bytes)
    requires SendInv(s, wire)
    ensures wire <= Concat(Frames(s.sent))
  {
    hide Frames, Concat;
    var fs := Frames(s.sent);
    var tail :| Partial(s, tail) && wire == Concat(fs[..s.popped]) + tail;
    assert fs[..|fs|] == fs;
    if s.queue == [] {
      ConcatPrefix(fs, s.popped, |fs|);
    } else {
      assert fs[s.popped] == fs[s.popped..][0] == s.queue[0];
      ConcatTake(fs, s.popped);
      ConcatPrefix(fs, s.popped + 1, |fs|);
    }
  }

  /** The bytes of frame i, as far as they are on the wire. */
  lemma {:induction false} WireAtFrame(sent: seq<Bytes>, wire: Bytes, i: nat, m: nat, n: nat)
    requires wire <= Concat(Frames(sent)) && i < |sent| && m <= n <= HEADER_SIZE + |sent[i]|
    requires |Concat(Frames(sent[..i]))| + n <= |wire|
    ensures var c := |Concat(Frames(sent[..i]))|; wire[c + m..c + n] == Frame(sent[i])[m..n]
  {
    hide Concat, Frame;
    var fs := Frames(sent);
    FramesTake(sent, i);
    ConcatTake(fs, i);
    ConcatPrefix(fs, i + 1, |fs|);
    hide Frames;
    assert fs[..|fs|] == fs;
    var before, all := Concat(fs[..i]), Concat(fs);
  }

  /** A reader at a frame boundary with unread bytes has a frame ahead of it. */
  lemma {:induction false} FrameAhead(sent: seq<Bytes>, wire: Bytes, taken: nat)
    requires wire <= Concat(Frames(sent)) && taken <= |sent| && |Concat(Frames(sent[..taken]))| < |wire|
    ensures taken < |sent|
  {
    assert sent[..|sent|] == sent;
  }

  lemma {:induction false} HeaderReadKeeps(r: Session, sent: seq<Bytes>, wire: Bytes)
    requires RecvInv(r, sent, wire) && AllSmall(sent) && wire <= Concat(Frames(sent)) && Enabled(r, wire, HeaderRead)
    ensures RecvInv(Apply(r, wire, HeaderRead), sent, wire)
    ensures Apply(r, wire, HeaderRead).reader != Idle
  {
    hide Concat, Frames, NonEmpty;
    FrameAhead(sent, wire, r.taken);
    var p := sent[r.taken];
    var c := r.consumed;
    WireAtFrame(sent, wire, r.taken, 0, HEADER_SIZE);
    assert Unread(r, wire)[..HEADER_SIZE] == wire[c..c + HEADER_SIZE] == HeaderFor(|p|);
    HeaderRoundTrip(|p|);
    assert |p| < TWO_TO_THE_32;
    if p == [] { FrameTaken(sent, r.taken); }
  }

  /** Moving past a frame. */
  lemma {:induction false} FrameTaken(sent: seq<Bytes>, i: nat)
    requires i < |sent|
    ensures |Concat(Frames(sent[..i + 1]))| == |Concat(Frames(sent[..i]))| + HEADER_SIZE + |sent[i]|
    ensures NonEmpty(sent[..i + 1]) == NonEmpty(sent[..i]) + if sent[i] == [] then [] else [sent[i]]
  {
    hide Concat, Frame, NonEmpty;
    FramesTake(sent, i);
    FramesTake(sent, i + 1);
    ConcatTake(Frames(sent), i);
    NonEmptyTake(sent, i);
  }

  lemma {:induction false} BodyReadKeeps(r: Session, sent: seq<Bytes>, wire: Bytes)
    requires RecvInv(r, sent, wire) && wire <= Concat(Frames(sent)) && Enabled(r, wire, BodyRead)
    ensures RecvInv(Apply(r, wire, BodyRead), sent, wire)
  {
    hide Concat, Frames, NonEmpty;
    var p := sent[r.taken];
    var c := |Concat(Frames(sent[..r.taken]))|;
    WireAtFrame(sent, wire, r.taken, HEADER_SIZE, HEADER_SIZE + |p|);
    assert Frame(p)[HEADER_SIZE..HEADER_SIZE + |p|] == p;
    assert Unread(r, wire)[..|p|] == wire[c + HEADER_SIZE..c + HEADER_SIZE + |p|] == p;
    FrameTaken(sent, r.taken);
  }

  /** An action of the receiving session. */
  lemma {:induction false} ReceiverStepKeeps(r: Session, sent: seq<Bytes>, wire: Bytes, act: Action)
    requires RecvInv(r, sent, wire) && AllSmall(sent) && wire <= Concat(Frames(sent)) && Enabled(r, wire, act)
    ensures RecvInv(Apply(r, wire, act), sent, wire)
  {
    hide Concat, Frames, NonEmpty, Unread;
    match act
    case HeaderRead => HeaderReadKeeps(r, sent, wire);
    case BodyRead => BodyReadKeeps(r, sent, wire);
    case Start => if !r.closed && !r.started { StartKeeps(r, sent, wire); }
    case _ =>
  }

  lemma StartKeeps(r: Session, sent: seq<Bytes>, wire: Bytes)
    requires RecvInv(r, sent, wire) && !r.closed && !r.started
    ensures RecvInv(Apply(r, wire, Start), sent, wire)
  {
    assert sent[..0] == [] && Frames([]) == [];
  }

  /** An action of the sending session only adds payloads and bytes. */
  lemma {:induction false} SenderStepKeeps(r: Session, sent: seq<Bytes>, wire: Bytes, sent': seq<Bytes>, wire': Bytes)
    requires RecvInv(r, sent, wire) && sent <= sent' && wire <= wire'
    ensures RecvInv(r, sent', wire')
  {
    hide Concat, Frames, NonEmpty;
    assert sent'[..r.taken] == sent[..r.taken];
  }

  // ---------- runs ----------

  lemma {:induction false} StepKeepsDirections(n: Net, act: Action)
    requires Inv(n) && NetEnabled(n, act)
    ensures Inv(NetApply(n, act))
  {
    hide SendInv, RecvInv, Apply, Enabled;
    var m := NetApply(n, act);
    StepKeepsSender(n.a, n.ab, n.ba, act);
    SentGrows(n.a, n.ba, act);
    if AllSmall(m.a.sent) {
      SenderStepKeeps(n.b, n.a.sent, n.ab, m.a.sent, m.ab);
    }
    if AllSmall(n.b.sent) {
      WireIsPrefix(n.b, n.ba);
      ReceiverStepKeeps(n.a, n.b.sent, n.ba, act);
    }
  }

  lemma SentGrows(s: Session, incoming: Bytes, act: Action)
    requires Enabled(s, incoming, act)
    ensures s.sent <= Apply(s, incoming, act).sent
    ensures AllSmall(Apply(s, incoming, act).sent) ==> AllSmall(s.sent)
  {
    hide AllSmall, Apply, Enabled;
    SentAfter(s, incoming, act);
    SmallPrefix(s.sent, Apply(s, incoming, act).sent);
  }

  lemma SentAfter(s: Session, incoming: Bytes, act: Action)
    requires Enabled(s, incoming, act)
    ensures Apply(s, incoming, act).sent == if act.Send? && !s.closed then s.sent + [act.payload] else s.sent
  {
    hide Frame, Unread, AfterDoWrite, AfterEnqueue, AfterStop, AfterHeader;
  }

  lemma SmallPrefix(a: seq<Bytes>, b: seq<Bytes>)
    requires a <= b
    ensures AllSmall(b) ==> AllSmall(a)
  {
    assert forall i | 0 <= i < |a| :: a[i] == b[i];
  }

  lemma {:induction false} NextKeeps(n: Net, m: Net)
    requires Inv(n) && Next(n, m)
    ensures Inv(m)
  {
    hide DirectionInv, NetApply, NetEnabled;
    if act :| NetEnabled(n, act) && m == NetApply(n, act) {
      StepKeepsDirections(n, act);
    } else {
      var act :| NetEnabled(Swap(n), act) && m == Swap(NetApply(Swap(n), act));
      StepKeepsDirections(Swap(n), act);
    }
  }

  lemma StartHolds()
    ensures Inv(START)
  {
    assert Partial(FRESH, []) && Frames([]) == [];
    assert FRESH.sent[..0] == [];
  }

  lemma {:induction false} RunKeeps(run: seq<Net>, i: nat)
    requires IsRun(run) && i < |run|
    ensures Inv(run[i])
  {
    hide Inv, Next;
    if i == 0 {
      StartHolds();
    } else {
      RunKeeps(run, i - 1);
      assert Next(run[i - 1], run[i]);
      NextKeeps(run[i - 1], run[i]);
    }
  }

  /** In every reachable state, the messages given to a receiver's callback are a prefix, in
      order, of the non-empty payloads the other side accepted, as long as each is below 2^32
      bytes. In both directions. */
  lemma {:induction false} DeliveredIsPrefix(run: seq<Net>, i: nat)
    requires IsRun(run) && i < |run|
    ensures AllSmall(run[i].a.sent) ==> run[i].b.delivered <= NonEmpty(run[i].a.sent)
    ensures AllSmall(run[i].b.sent) ==> run[i].a.delivered <= NonEmpty(run[i].b.sent)
  {
    hide NonEmpty, SendInv, IsRun;
    RunKeeps(run, i);
    var n := run[i];
    if AllSmall(n.a.sent) {
      NonEmptyPrefix(n.a.sent, n.b.taken, |n.a.sent|);
      assert n.a.sent[..|n.a.sent|] == n.a.sent;
    }
    if AllSmall(n.b.sent) {
      NonEmptyPrefix(n.b.sent, n.a.taken, |n.b.sent|);
      assert n.b.sent[..|n.b.sent|] == n.b.sent;
    }
  }

  /** The writing flag holds exactly when a write is out, and that write is the front of the queue. */
  predicate OneWrite(s: Session) {
    && (s.writing <==> s.inFlight.Some?)
    && (s.writing ==> s.queue != [] && s.inFlight.value.frame == s.queue[0])
    && (!s.writing ==> s.queue == [])
  }

  /** In every reachable state this is so of each session that is open. */
  lemma {:induction false} OneWriteInFlight(run: seq<Net>, i: nat)
    requires IsRun(run) && i < |run|
    ensures !run[i].a.closed ==> OneWrite(run[i].a)
    ensures !run[i].b.closed ==> OneWrite(run[i].b)
  {
    hide RecvInv, IsRun, Frames, Concat;
    RunKeeps(run, i);
  }

  /** The sender is open and has nothing left to run, queue or write; the reader waits for a header with
      nothing unread. */
  predicate Quiescent(s: Session, r: Session, wire: Bytes) {
    !s.closed && s.posts == [] && !s.writing && r.reader == Header && Unread(r, wire) == []
  }

  lemma {:induction false} QuietDirection(s: Session, r: Session, wire: Bytes)
    requires DirectionInv(s, r, wire) && Quiescent(s, r, wire) && AllSmall(s.sent)
    ensures r.delivered == NonEmpty(s.sent)
  {
    hide NonEmpty, Frames, Concat;
    var fs := Frames(s.sent);
    assert fs[s.popped..] == [];
    assert fs[..s.popped] == fs;
    var tail :| Partial(s, tail) && wire == Concat(fs[..s.popped]) + tail;
    assert |wire| == r.consumed == |Concat(fs)|;
    assert fs[..|fs|] == fs;
    if r.taken < |s.sent| {
      FrameTaken(s.sent, r.taken);
      FramesTake(s.sent, r.taken + 1);
      ConcatPrefix(fs, r.taken + 1, |fs|);
    }
    assert s.sent[..r.taken] == s.sent;
  }

  /** Nothing is lost: when a direction is quiescent, every non-empty payload was delivered. In both
      directions. */
  lemma {:induction false} QuietMeansDelivered(run: seq<Net>, i: nat)
    requires IsRun(run) && i < |run|
    ensures var n := run[i]; Quiescent(n.a, n.b, n.ab) && AllSmall(n.a.sent) ==> n.b.delivered == NonEmpty(n.a.sent)
    ensures var n := run[i]; Quiescent(n.b, n.a, n.ba) && AllSmall(n.b.sent) ==> n.a.delivered == NonEmpty(n.b.sent)
  {
    hide NonEmpty, IsRun, DirectionInv, Quiescent, AllSmall;
    RunKeeps(run, i);
    var n := run[i];
    if Quiescent(n.a, n.b, n.ab) && AllSmall(n.a.sent) { QuietDirection(n.a, n.b, n.ab); }
    if Quiescent(n.b, n.a, n.ba) && AllSmall(n.b.sent) { QuietDirection(n.b, n.a, n.ba); }
  }

  // ---------- payloads of 2^32 bytes and more ----------

  lemma {:induction false} OneSend(p: Bytes) returns (run: seq<Net>, s: Session)
    ensures IsRun(run) && s.sent == [p]
    ensures run[|run| - 1] == Net(s, FRESH, Frame(p), [])
  {
    hide HeaderFor;
    var f := Frame(p);
    var a1 := FRESH.(posts := [f], sent := [p]);
    var a2 := FRESH.(queue := [f], sent := [p], writing := true, inFlight := Some(Write(f, 0)));
    s := a2.(inFlight := Some(Write(f, |f|)));
    assert Apply(FRESH, [], Send(p)) == a1;
    assert Apply(a1, [], RunPost) == a2 by { assert a1.posts[1..] == []; }
    assert Apply(a2, [], Transfer(|f|)) == s && Output(a2, Transfer(|f|)) == f by { assert f[0..|f|] == f; }
    hide Frame;
    var n1, n2, n3 := Net(a1, FRESH, [], []), Net(a2, FRESH, [], []), Net(s, FRESH, f, []);
    StepOfA(START, Send(p), n1);
    StepOfA(n1, RunPost, n2);
    StepOfA(n2, Transfer(|f|), n3);
    hide Next;
    run := [START, n1, n2, n3];
  }

  lemma {:induction false} OneReceive(p: Bytes) returns (b1: Session, b2: Session, b3: Session)
    requires |p| % TWO_TO_THE_32 != 0
    ensures Enabled(FRESH, Frame(p), Start) && b1 == Apply(FRESH, Frame(p), Start)
    ensures Enabled(b1, Frame(p), HeaderRead) && b2 == Apply(b1, Frame(p), HeaderRead)
    ensures Enabled(b2, Frame(p), BodyRead) && b3 == Apply(b2, Frame(p), BodyRead)
    ensures b3.delivered == [p[..|p| % TWO_TO_THE_32]]
  {
    hide HeaderFor, SizeIn;
    var f, k := Frame(p), |p| % TWO_TO_THE_32;
    b1 := FRESH.(started := true, reader := Header);
    b2 := b1.(consumed := HEADER_SIZE, reader := Body(k));
    b3 := b1.(consumed := HEADER_SIZE + k, taken := 1, delivered := [p[..k]]);
    assert Apply(b1, f, HeaderRead) == b2 by {
      assert Unread(b1, f)[..HEADER_SIZE] == HeaderFor(|p|);
      HeaderRoundTrip(|p|);
    }
    assert Apply(b2, f, BodyRead) == b3 by { assert Unread(b2, f) == p; }
  }

  /** The size field holds 32 bits only. For every larger size that is not a multiple of 2^32
      some run delivers a piece of the payload as if it were a message. */
  lemma {:induction false} OversizedPayloadIsCut(p: Bytes) returns (run: seq<Net>)
    requires |p| >= TWO_TO_THE_32 && |p| % TWO_TO_THE_32 != 0
    ensures IsRun(run) && run[|run| - 1].a.sent == [p]
    ensures run[|run| - 1].b.delivered == [p[..|p| % TWO_TO_THE_32]]
    ensures !(run[|run| - 1].b.delivered <= NonEmpty(run[|run| - 1].a.sent))
  {
    hide Apply, Enabled, Frame;
    var s: Session;
    run, s := OneSend(p);
    var b1, b2, b3 := OneReceive(p);
    var f := Frame(p);
    StepOfB(Net(s, FRESH, f, []), Start, Net(s, b1, f, []));
    StepOfB(Net(s, b1, f, []), HeaderRead, Net(s, b2, f, []));
    StepOfB(Net(s, b2, f, []), BodyRead, Net(s, b3, f, []));
    hide Next;
    run := run + [Net(s, b1, f, []), Net(s, b2, f, []), Net(s, b3, f, [])];
    var ps: seq<Bytes> := [p];
    assert ps[..0] == [];
    assert NonEmpty(ps) == ps;
    assert b3.delivered[0] != p;
  }

  lemma StepOfA(n: Net, act: Action, m: Net)
    requires Enabled(n.a, n.ba, act) && m == Net(Apply(n.a, n.ba, act), n.b, n.ab + Output(n.a, act), n.ba)
    ensures Next(n, m)
  {
    hide Apply, Output, Enabled;
    assert NetEnabled(n, act) && m == NetApply(n, act);
  }

  lemma StepOfB(n: Net, act: Action, m: Net)
    requires Enabled(n.b, n.ab, act) && m == Net(n.a, Apply(n.b, n.ab, act), n.ab, n.ba + Output(n.b, act))
    ensures Next(n, m)
  {
    hide Apply, Output, Enabled;
    assert NetEnabled(Swap(n), act) && m == Swap(NetApply(Swap(n), act));
  }

  // ---------- which payloads can arrive ----------

  predicate SizesOk(s: Session) {
    && (s.reader.Body? ==> 0 < s.reader.length < TWO_TO_THE_32)
    && forall i | 0 <= i < |s.delivered| :: 0 < |s.delivered[i]| < TWO_TO_THE_32
  }

  lemma {:induction false} StepKeepsSizes(s: Session, incoming: Bytes, act: Action)
    requires SizesOk(s) && Enabled(s, incoming, act)
    ensures SizesOk(Apply(s, incoming, act))
  {
    hide Frame, Unread, AfterDoWrite, AfterEnqueue, AfterStop, AfterHeader, SizesOk;
    var t := Apply(s, incoming, act);
    if act.HeaderRead? || act.BodyRead? {
      ReadKeepsSizes(s, incoming, act);
    } else {
      assert t.delivered == s.delivered && (t.reader == s.reader || !t.reader.Body?);
      hide Apply, Enabled;
      SameSizes(s, t);
    }
  }

  lemma SameSizes(s: Session, t: Session)
    requires SizesOk(s) && t.delivered == s.delivered && (t.reader == s.reader || !t.reader.Body?)
    ensures SizesOk(t)
  {
  }

  lemma {:induction false} ReadKeepsSizes(s: Session, incoming: Bytes, act: Action)
    requires SizesOk(s) && Enabled(s, incoming, act) && (act.HeaderRead? || act.BodyRead?)
    ensures SizesOk(Apply(s, incoming, act))
  {
    hide Unread, AfterHeader;
    if act.HeaderRead? { HeaderKeepsSizes(s, Unread(s, incoming)[..HEADER_SIZE]); }
  }

  lemma HeaderKeepsSizes(s: Session, header: Bytes)
    requires SizesOk(s)
    ensures SizesOk(AfterHeader(s, header))
  {
  }

  /** No run ever delivers an empty message or one of 2^32 bytes or more. */
  lemma {:induction false} DeliveredSizes(run: seq<Net>, i: nat)
    requires IsRun(run) && i < |run|
    ensures SizesOk(run[i].a) && SizesOk(run[i].b)
  {
    hide SizesOk, Apply, Enabled, Output;
    if i == 0 {
      FreshSizes();
    } else {
      DeliveredSizes(run, i - 1);
      var n, m := run[i - 1], run[i];
      assert Next(n, m);
      if act :| NetEnabled(n, act) && m == NetApply(n, act) {
        StepKeepsSizes(n.a, n.ba, act);
      } else {
        var act :| NetEnabled(Swap(n), act) && m == Swap(NetApply(Swap(n), act));
        StepKeepsSizes(n.b, n.ab, act);
      }
    }
  }

  lemma FreshSizes()
    ensures SizesOk(FRESH)
  {
  }

  /** The sender is idle, and the reader waits for a header with nothing unread. */
  predicate AtRest(n: Net) {
    && !n.a.closed && n.a.socketOpen && n.a.posts == [] && n.a.queue == [] && !n.a.writing && n.a.inFlight.None?
    && n.b.reader == Header && n.b.consumed == |n.ab|
  }

  lemma {:induction false} SendOne(n: Net, p: Bytes) returns (n1: Net, n2: Net, n3: Net, n4: Net)
    requires AtRest(n)
    ensures Next(n, n1) && Next(n1, n2) && Next(n2, n3) && Next(n3, n4)
    ensures n4 == Net(n.a.(sent := n.a.sent + [p], popped := n.a.popped + 1), n.b, n.ab + Frame(p), n.ba)
  {
    var f := Frame(p);
    hide Frame;
    var a0 := n.a;
    var a1 := a0.(posts := [f], sent := a0.sent + [p]);
    var a2 := a0.(queue := [f], sent := a0.sent + [p], writing := true, inFlight := Some(Write(f, 0)));
    var a3 := a2.(inFlight := Some(Write(f, |f|)));
    var a4 := a0.(sent := a0.sent + [p], popped := a0.popped + 1);
    assert Apply(a0, n.ba, Send(p)) == a1 by { assert [] + [f] == [f]; }
    assert Apply(a1, n.ba, RunPost) == a2 by { assert a1.posts[1..] == [] && [] + [f] == [f]; }
    assert Apply(a2, n.ba, Transfer(|f|)) == a3 && Output(a2, Transfer(|f|)) == f by { assert f[0..|f|] == f; }
    assert Apply(a3, n.ba, WriteDone) == a4 by { assert a3.queue[1..] == []; }
    n1, n2, n3, n4 := Net(a1, n.b, n.ab, n.ba), Net(a2, n.b, n.ab, n.ba), Net(a3, n.b, n.ab + f, n.ba), Net(a4, n.b, n.ab + f, n.ba);
    assert n.ab + [] == n.ab && n.ab + f + [] == n.ab + f;
    StepOfA(n, Send(p), n1);
    StepOfA(n1, RunPost, n2);
    StepOfA(n2, Transfer(|f|), n3);
    StepOfA(n3, WriteDone, n4);
  }

  lemma {:induction false} HeaderArrives(n: Net, before: Bytes, p: Bytes) returns (m: Net)
    requires n.b.reader == Header && n.b.consumed == |before| && n.ab == before + Frame(p) && |p| < TWO_TO_THE_32
    ensures Next(n, m)
    ensures m == n.(b := AfterReadData(n.b.(consumed := |before| + HEADER_SIZE), |p|))
  {
    hide HeaderFor, SizeIn;
    assert Unread(n.b, n.ab) == Frame(p);
    assert Frame(p)[..HEADER_SIZE] == HeaderFor(|p|);
    HeaderRoundTrip(|p|);
    m := n.(b := AfterReadData(n.b.(consumed := |before| + HEADER_SIZE), |p|));
    assert Enabled(n.b, n.ab, HeaderRead) && Apply(n.b, n.ab, HeaderRead) == m.b;
    hide Apply, Enabled;
    assert n.ba + [] == n.ba;
    StepOfB(n, HeaderRead, m);
  }

  lemma {:induction false} BodyArrives(n: Net, before: Bytes, p: Bytes) returns (m: Net)
    requires n.b.reader == Body(|p|) && n.b.consumed == |before| + HEADER_SIZE && n.ab == before + Frame(p)
    ensures Next(n, m)
    ensures m.a == n.a && m.ab == n.ab && m.b.reader == Header && m.b.consumed == |n.ab|
  {
    assert Unread(n.b, n.ab) == p;
    m := n.(b := Apply(n.b, n.ab, BodyRead));
    assert p[..|p|] == p;
    assert m.b.consumed == |n.ab| && m.b.reader == Header;
    hide Apply;
    assert n.ba + [] == n.ba;
    StepOfB(n, BodyRead, m);
  }

  /** A run that sends the payloads one after the other and lets each arrive. */
  lemma {:induction false} DeliveryRun(ps: seq<Bytes>) returns (run: seq<Net>)
    requires AllSmall(ps)
    ensures IsRun(run) && AtRest(run[|run| - 1]) && run[|run| - 1].a.sent == ps
    decreases |ps|
  {
    hide Next, Frame;
    if ps == [] {
      var n := START.(b := FRESH.(started := true, reader := Header));
      StepOfB(START, Start, n);
      run := [START, n];
    } else {
      var front, p := ps[..|ps| - 1], ps[|ps| - 1];
      run := DeliveryRun(front);
      var n := run[|run| - 1];
      var n1, n2, n3, n4 := SendOne(n, p);
      var n5 := HeaderArrives(n4, n.ab, p);
      run := run + [n1, n2, n3, n4, n5];
      if p != [] {
        var n6 := BodyArrives(n5, n.ab, p);
        run := run + [n6];
      }
      assert front + [p] == ps;
    }
  }

  lemma {:induction false} InNonEmpty(ps: seq<Bytes>, i: nat)
    requires i < |ps| && ps[i] != []
    ensures ps[i] in NonEmpty(ps)
  {
    if i < |ps| - 1 { InNonEmpty(ps[..|ps| - 1], i); }
  }

  ghost predicate AllArrive(run: seq<Net>, ps: seq<Bytes>) {
    IsRun(run) && run[|run| - 1].a.sent == ps && run[|run| - 1].b.delivered == NonEmpty(ps)
  }

  /** Payloads sent one after the other can all arrive if and only if each is below 2^32 bytes. */
  lemma {:induction false} ArriveExactly(ps: seq<Bytes>)
    ensures (exists run :: AllArrive(run, ps)) <==> AllSmall(ps)
  {
    hide IsRun, NonEmpty;
    if run :| AllArrive(run, ps) {
      DeliveredSizes(run, |run| - 1) by { RunNonEmpty(run); }
      forall i | 0 <= i < |ps| ensures |ps[i]| < TWO_TO_THE_32 {
        if ps[i] != [] { InNonEmpty(ps, i); }
      }
    }
    if AllSmall(ps) {
      var run := DeliveryRun(ps);
      RunNonEmpty(run);
      QuietMeansDelivered(run, |run| - 1);
      assert AllArrive(run, ps);
    }
  }

  lemma RunNonEmpty(run: seq<Net>)
    requires IsRun(run)
    ensures |run| > 0
  {
  }

  ghost predicate ArrivesWhole(run: seq<Net>, p: Bytes) {
    IsRun(run) && run[|run| - 1].a.sent == [p] && run[|run| - 1].b.delivered == [p]
  }

  /** A single payload can arrive as one message if and only if it has 1 to 2^32 - 1 bytes. */
  lemma {:induction false} OneArrivesExactly(p: Bytes)
    ensures (exists run :: ArrivesWhole(run, p)) <==> 0 < |p| < TWO_TO_THE_32
  {
    hide IsRun, AllArrive;
    var ps := [p];
    if run: seq<Net> :| ArrivesWhole(run, p) {
      RunNonEmpty(run);
      DeliveredSizes(run, |run| - 1);
      assert run[|run| - 1].b.delivered[0] == p;
    }
    if 0 < |p| < TWO_TO_THE_32 {
      ArriveExactly(ps);
      var run :| AllArrive(run, ps);
      OneArrives(run, p);
    }
  }

  lemma OneArrives(run: seq<Net>, p: Bytes)
    requires p != [] && AllArrive(run, [p])
    ensures ArrivesWhole(run, p)
  {
    hide IsRun;
    OneNonEmpty(p);
  }

  lemma OneNonEmpty(p: Bytes)
    requires p != []
    ensures NonEmpty([p]) == [p]
  {
    var ps: seq<Bytes> := [p];
    assert ps[..0] == [];
  }
}
