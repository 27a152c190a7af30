/** The two queueing goroutines behind websocket notifications: the manager's unbounded queue
    between a producer and a consumer channel, and each client's notification queue with its
    hand-over to the socket writer. */
module NotifyQueue {
  import opened Options

  // ------------------------------------------------- the manager's queue loop

  /** What the select loop of the manager's queue can do: receive an item, handing it straight
      on when that is enabled and the reader is ready, or deliver the head of the queue. */
  datatype QueueEvent<T> = Receive(item: T, readerReady: bool) | Deliver

  /** The loop's variables. A nil channel is a disabled one. */
  datatype Queue<T> = Queue(q: seq<T>, dequeueOn: bool, skipOn: bool, next: Option<T>)

  /** The loop with the histories of its two channels. */
  datatype QueueRun<T> = QueueRun(queue: Queue<T>, received: seq<T>, sent: seq<T>)

  function Start<T>(): QueueRun<T> {
    QueueRun(Queue([], false, true, None), [], [])
  }

  predicate CanHappen<T>(r: QueueRun<T>, e: QueueEvent<T>) {
    e.Deliver? ==> r.queue.dequeueOn && r.queue.next.Some?
  }

  ghost predicate FifoInv<T>(r: QueueRun<T>) {
    && r.received == r.sent + r.queue.q
    && r.queue.skipOn == (r.queue.q == []) && r.queue.dequeueOn == (r.queue.q != [])
    && (r.queue.q != [] ==> r.queue.next == Some(r.queue.q[0]))
  }

  class QueueHandler<T> {
    var q: seq<T>
    var dequeueOn: bool
    var skipOn: bool
    var next: Option<T>
    ghost var received: seq<T>
    ghost var sent: seq<T>

    ghost function View(): QueueRun<T>
      reads this
    {
      QueueRun(Queue(q, dequeueOn, skipOn, next), received, sent)
    }

    constructor ()
      ensures View() == Start() && FifoInv(View())
    {
      q, dequeueOn, skipOn, next := [], false, true, None;
      received, sent := [], [];
    }

    /** An item arrives; it goes straight to the reader or to the back of the queue. */
    method OnReceive(n: T, readerReady: bool) returns (out: Option<T>)
      requires FifoInv(View())
      modifies this
      ensures FifoInv(View())
      ensures received == old(received) + [n]
      ensures sent == old(sent) + (if out.Some? then [out.value] else [])
      ensures out.Some? <==> readerReady && old(q) == []
      ensures View() == QueueStep(old(View()), Receive(n, readerReady))
    {
      received := received + [n];
      if skipOn && readerReady {
        out := Some(n);
        sent := sent + [n];
      } else {
        out := None;
        q := q + [n];
        dequeueOn := true;
        skipOn := false;
        next := Some(q[0]);
      }
    }

    /** The reader takes the next item. */
    method OnDeliver() returns (out: T)
      requires FifoInv(View()) && dequeueOn && next.Some?
      modifies this
      ensures FifoInv(View())
      ensures out == old(q)[0] && sent == old(sent) + [out] && received == old(received)
      ensures View() == QueueStep(old(View()), Deliver)
    {
      out := next.value;
      sent := sent + [out];
      q := q[1..];
      if q == [] {
        dequeueOn := false;
        skipOn := true;
      } else {
        next := Some(q[0]);
      }
    }
  }

  function QueueStep<T>(r: QueueRun<T>, e: QueueEvent<T>): QueueRun<T>
    requires CanHappen(r, e) && (e.Deliver? ==> r.queue.q != [])
  {
    match e
    case Receive(n, ready) =>
      if r.queue.skipOn && ready then r.(received := r.received + [n], sent := r.sent + [n])
      else
        var q := r.queue.q + [n];
        QueueRun(Queue(q, true, false, Some(q[0])), r.received + [n], r.sent)
    case Deliver =>
      var q := r.queue.q[1..];
      var queue := if q == [] then r.queue.(q := q, dequeueOn := false, skipOn := true)
                   else r.queue.(q := q, next := Some(q[0]));
      QueueRun(queue, r.received, r.sent + [r.queue.next.value])
  }

  ghost predicate IsQueueRun<T>(trace: seq<QueueRun<T>>, es: seq<QueueEvent<T>>) {
    && |trace| == |es| + 1 && trace[0] == Start()
    && forall i :: 0 <= i < |es| ==> QueueFollows(trace[i], es[i], trace[i + 1])
  }

  ghost predicate QueueFollows<T>(r: QueueRun<T>, e: QueueEvent<T>, r': QueueRun<T>) {
    CanHappen(r, e) && (r.queue.q == [] ==> e.Receive?) && r' == QueueStep(r, e)
  }

  /** Over every run the queue loses, repeats and reorders nothing: what was received is what
      was sent followed by what is queued. */
  lemma {:induction false} QueueIsFifo<T>(trace: seq<QueueRun<T>>, es: seq<QueueEvent<T>>, n: nat)
    requires IsQueueRun(trace, es) && n < |trace|
    ensures FifoInv(trace[n]) && trace[n].sent <= trace[n].received
  {
    if n > 0 {
      QueueIsFifo(trace, es, n - 1);
      assert QueueFollows(trace[n - 1], es[n - 1], trace[n]);
      FifoStep(trace[n - 1], es[n - 1]);
    }
  }

  lemma FifoStep<T>(r: QueueRun<T>, e: QueueEvent<T>)
    requires FifoInv(r) && CanHappen(r, e) && (e.Deliver? ==> r.queue.q != [])
    ensures FifoInv(QueueStep(r, e))
  {
    if e.Deliver? {
      assert r.queue.q == [r.queue.q[0]] + r.queue.q[1..];
    }
  }

  // ----------------------------------------------- a client's notification queue

  const SEND_BUFFER := 50

  /** A message handed to the writer; `done` says whether the writer must answer on the done channel. */
  datatype Response<M> = Response(msg: M, done: bool)

  /** Where the queue goroutine is: waiting in its select, or inside SendMessage for the first
      notification or for a queued one. */
  datatype Handler<M> = Idle | SendingFirst(msg: M) | SendingNext(msg: M)

  /** One client's goroutines. `queued` and `written` are the notifications accepted so far
      and those written to the socket so far, `replied` and `answered` the same for replies. */
  datatype Client<M> = Client(
    ntfnChan: seq<M>,             // capacity 1
    pending: seq<M>,
    waiting: bool,
    handler: Handler<M>,
    sendChan: seq<Response<M>>,   // capacity SEND_BUFFER
    signalling: bool,             // the writer wrote a notification and has not signalled yet
    doneChan: nat,                // tokens in the done channel, capacity 1
    queued: seq<M>,
    written: seq<M>,
    replied: seq<M>,
    answered: seq<M>)

  datatype Move<M> =
    | QueueNotification(msg: M)   // another goroutine queues a notification
    | Reply(msg: M)               // another goroutine sends a reply
    | TakeNotification            // the queue goroutine reads ntfnChan
    | Push                        // its SendMessage completes
    | TakeDone                    // it reads the done channel
    | Write                       // the writer takes and writes a message
    | SignalDone                  // the writer answers on the done channel

  function Begin<M>(): Client<M> {
    Client([], [], false, Idle, [], false, 0, [], [], [], [])
  }

  predicate Enabled<M>(c: Client<M>, m: Move<M>) {
    match m
    case QueueNotification(_) => |c.ntfnChan| < 1
    case Reply(_) => |c.sendChan| < SEND_BUFFER
    case TakeNotification => c.handler.Idle? && |c.ntfnChan| > 0
    case Push => !c.handler.Idle? && |c.sendChan| < SEND_BUFFER
    case TakeDone => c.handler.Idle? && c.doneChan > 0
    case Write => !c.signalling && |c.sendChan| > 0
    case SignalDone => c.signalling && c.doneChan < 1
  }

  function Moved<M>(c: Client<M>, m: Move<M>): Client<M>
    requires Enabled(c, m)
  {
    match m
    case QueueNotification(msg) => c.(ntfnChan := c.ntfnChan + [msg], queued := c.queued + [msg])
    case Reply(msg) => c.(sendChan := c.sendChan + [Response(msg, false)], replied := c.replied + [msg])
    case TakeNotification =>
      var msg := c.ntfnChan[0];
      var c' := c.(ntfnChan := c.ntfnChan[1..]);
      if !c.waiting then c'.(handler := SendingFirst(msg))
      else c'.(pending := c.pending + [msg], waiting := true)
    case Push =>
      c.(sendChan := c.sendChan + [Response(c.handler.msg, true)], handler := Idle, waiting := true)
    case TakeDone =>
      var c' := c.(doneChan := c.doneChan - 1);
      if c.pending == [] then c'.(waiting := false)
      else c'.(handler := SendingNext(c.pending[0]), pending := c.pending[1..])
    case Write =>
      var r := c.sendChan[0];
      var c' := c.(sendChan := c.sendChan[1..]);
      if r.done then c'.(written := c.written + [r.msg], signalling := true)
      else c'.(answered := c.answered + [r.msg])
    case SignalDone => c.(signalling := false, doneChan := c.doneChan + 1)
  }

  /** The notifications, or the replies, among the messages waiting for the writer. */
  function Marked<M>(rs: seq<Response<M>>, done: bool): seq<M> {
    if rs == [] then []
    else (if rs[0].done == done then [rs[0].msg] else []) + Marked(rs[1..], done)
  }

  /** Notifications handed over but not written. */
  function Unwritten<M>(c: Client<M>): seq<M> {
    Marked(c.sendChan, true) + (if c.handler.Idle? then [] else [c.handler.msg])
  }

  /** Notifications and tokens on their way around the loop. */
  function InTransit<M>(c: Client<M>): nat {
    |Unwritten(c)| + (if c.signalling then 1 else 0) + c.doneChan
  }

  ghost predicate ClientInv<M>(c: Client<M>) {
    && |c.ntfnChan| <= 1 && |c.sendChan| <= SEND_BUFFER && c.doneChan <= 1
    // exactly one notification or token is under way when the loop is waiting or handing over
    && InTransit(c) == (if c.waiting || !c.handler.Idle? then 1 else 0)
    && (c.handler.SendingFirst? ==> !c.waiting) && (c.handler.SendingNext? ==> c.waiting)
    // nothing is held back while the loop is not waiting
    && (!c.waiting ==> c.pending == [])
    // nothing is lost, repeated or reordered
    && c.queued == c.written + Unwritten(c) + c.pending + c.ntfnChan
    && c.replied == c.answered + Marked(c.sendChan, false)
  }

  lemma {:induction false} MarkedLast<M>(rs: seq<Response<M>>, r: Response<M>, done: bool)
    ensures Marked(rs + [r], done) == Marked(rs, done) + if r.done == done then [r.msg] else []
  {
    if rs == [] {
      assert rs + [r] == [r] && [r][1..] == [];
    } else {
      var first := if rs[0].done == done then [rs[0].msg] else [];
      var last := if r.done == done then [r.msg] else [];
      MarkedLast(rs[1..], r, done);
      assert (rs + [r])[1..] == rs[1..] + [r];
      Joins(first, Marked(rs[1..], done), last);
    }
  }

  lemma Joins<M>(a: seq<M>, b: seq<M>, c: seq<M>)
    ensures a + (b + c) == (a + b) + c
  {
  }

  lemma PushKeeps<M>(c: Client<M>)
    requires ClientInv(c) && Enabled(c, Push)
    ensures ClientInv(Moved(c, Push)) && Unwritten(Moved(c, Push)) == Unwritten(c)
  {
    MarkedLast(c.sendChan, Response(c.handler.msg, true), true);
    MarkedLast(c.sendChan, Response(c.handler.msg, true), false);
  }

  lemma WriteKeeps<M>(c: Client<M>)
    requires ClientInv(c) && Enabled(c, Write)
    ensures ClientInv(Moved(c, Write))
  {
    var c' := Moved(c, Write);
    var r := c.sendChan[0];
    assert Unwritten(c) == (if r.done then [r.msg] else []) + Unwritten(c');
    if r.done {
      assert c.written + Unwritten(c) == c'.written + Unwritten(c');
    }
    WriteAnswers(c);
  }

  lemma WriteAnswers<M>(c: Client<M>)
    requires c.sendChan != [] && Enabled(c, Write)
    ensures var c' := Moved(c, Write);
            c.answered + Marked(c.sendChan, false) == c'.answered + Marked(c'.sendChan, false)
  {
    var r := c.sendChan[0];
    Joins(c.answered, if r.done then [] else [r.msg], Marked(c.sendChan[1..], false));
  }

  lemma TakeDoneKeeps<M>(c: Client<M>)
    requires ClientInv(c) && Enabled(c, TakeDone)
    ensures ClientInv(Moved(c, TakeDone))
  {
    var c' := Moved(c, TakeDone);
    if c.pending != [] {
      assert Unwritten(c') == Unwritten(c) + [c.pending[0]];
      assert c.pending == [c.pending[0]] + c.pending[1..];
      assert c.queued == c.written + Unwritten(c') + c'.pending + c.ntfnChan;
    }
  }

  lemma TakeNotificationKeeps<M>(c: Client<M>)
    requires ClientInv(c) && Enabled(c, TakeNotification)
    ensures ClientInv(Moved(c, TakeNotification))
  {
    hide Marked;
    var c' := Moved(c, TakeNotification);
    assert c.ntfnChan == [c.ntfnChan[0]] && c'.ntfnChan == [];
    if !c.waiting {
      assert |Unwritten(c)| == 0 && Marked(c.sendChan, true) == [];
      assert Unwritten(c') == [c.ntfnChan[0]];
      Shifted(c.written, c.ntfnChan);
    } else {
      assert Unwritten(c') == Unwritten(c);
      Regrouped(c.written + Unwritten(c), c.pending, c.ntfnChan);
    }
  }

  lemma Shifted<M>(written: seq<M>, s: seq<M>)
    ensures written + [] + [] + s == written + s + [] + []
  {
  }

  lemma Regrouped<M>(a: seq<M>, b: seq<M>, c: seq<M>)
    ensures a + b + c == a + (b + c) + []
  {
  }

  lemma ReplyKeeps<M>(c: Client<M>, msg: M)
    requires ClientInv(c) && Enabled(c, Reply(msg))
    ensures ClientInv(Moved(c, Reply(msg)))
  {
    MarkedLast(c.sendChan, Response(msg, false), true);
    MarkedLast(c.sendChan, Response(msg, false), false);
    assert Unwritten(Moved(c, Reply(msg))) == Unwritten(c);
  }

  lemma MovedKeeps<M>(c: Client<M>, m: Move<M>)
    requires ClientInv(c) && Enabled(c, m)
    ensures ClientInv(Moved(c, m))
  {
    match m
    case QueueNotification(msg) =>
      assert Unwritten(Moved(c, m)) == Unwritten(c);
      assert c.queued + [msg] == c.written + Unwritten(c) + c.pending + (c.ntfnChan + [msg]);
    case Reply(msg) => ReplyKeeps(c, msg);
    case TakeNotification => TakeNotificationKeeps(c);
    case Push => PushKeeps(c);
    case TakeDone => TakeDoneKeeps(c);
    case Write => WriteKeeps(c);
    case SignalDone =>
  }

  ghost predicate IsClientRun<M>(trace: seq<Client<M>>, ms: seq<Move<M>>) {
    && |trace| == |ms| + 1 && trace[0] == Begin()
    && forall i :: 0 <= i < |ms| ==> Follows(trace[i], ms[i], trace[i + 1])
  }

  ghost predicate Follows<M>(c: Client<M>, m: Move<M>, c': Client<M>) {
    Enabled(c, m) && c' == Moved(c, m)
  }

  /** In every interleaving: what was written is a prefix of what was queued, and the replies written are a prefix
      of those sent; when the writer
      must signal, the done channel has room, so it never blocks; and while the loop is not
      waiting nothing is pending. */
  lemma {:induction false} ClientRunInv<M>(trace: seq<Client<M>>, ms: seq<Move<M>>, n: nat)
    requires IsClientRun(trace, ms) && n < |trace|
    ensures ClientInv(trace[n]) && trace[n].written <= trace[n].queued && trace[n].answered <= trace[n].replied
    ensures trace[n].signalling ==> trace[n].doneChan == 0 && Enabled(trace[n], SignalDone)
  {
    if n == 0 {
      assert Unwritten(trace[0]) == [];
    } else {
      ClientRunInv(trace, ms, n - 1);
      assert Follows(trace[n - 1], ms[n - 1], trace[n]);
      MovedKeeps(trace[n - 1], ms[n - 1]);
    }
    WrittenIsPrefix(trace[n]);
  }

  lemma WrittenIsPrefix<M>(c: Client<M>)
    requires ClientInv(c)
    ensures c.written <= c.queued && c.answered <= c.replied
  {
    assert c.queued == c.written + (Unwritten(c) + c.pending + c.ntfnChan);
  }

  // ---------------------------------------------------------------- progress

  predicate Internal<M>(m: Move<M>) { !m.QueueNotification? && !m.Reply? }

  /** Whether one of the two goroutines can make a move of its own. */
  predicate Live<M>(c: Client<M>) {
    || Enabled(c, TakeNotification) || Enabled(c, Push) || Enabled(c, TakeDone)
    || Enabled(c, Write) || Enabled(c, SignalDone)
  }

  /** The loop never deadlocks: when neither goroutine can move, every queued notification has
      been written, in order, and every reply as well. */
  lemma QuietMeansDelivered<M>(c: Client<M>)
    requires ClientInv(c) && !Live(c)
    ensures c.written == c.queued && c.answered == c.replied && c.sendChan == [] && !c.waiting && c.handler.Idle?
  {
    assert !c.signalling;
    assert c.sendChan == [];
    assert Unwritten(c) == [];
  }

  /** Work left to do. */
  function Work<M>(c: Client<M>): nat {
    6 * |c.ntfnChan| + 5 * |c.pending| + (if c.handler.Idle? then 0 else 4) + 3 * |c.sendChan|
    + (if c.signalling then 2 else 0) + c.doneChan
  }

  /** Every move of the two goroutines reduces the work left: without new input they come to rest. */
  lemma InternalMovesEnd<M>(c: Client<M>, m: Move<M>)
    requires ClientInv(c) && Enabled(c, m) && Internal(m)
    ensures Work(Moved(c, m)) < Work(c)
  {
  }

  /** trace runs from any state by moves of the two goroutines alone. */
  ghost predicate IsDrain<M>(trace: seq<Client<M>>, ms: seq<Move<M>>) {
    && |trace| == |ms| + 1
    && forall i :: 0 <= i < |ms| ==> Internal(ms[i]) && Follows(trace[i], ms[i], trace[i + 1])
  }

  /** From any reachable state, moves of the two goroutines alone number at most the work left,
      and once they can move no more, everything queued or sent before has been written in order. */
  lemma {:induction false} DrainDelivers<M>(trace: seq<Client<M>>, ms: seq<Move<M>>, n: nat)
    requires IsDrain(trace, ms) && n < |trace| && ClientInv(trace[0])
    ensures ClientInv(trace[n]) && trace[n].queued == trace[0].queued && trace[n].replied == trace[0].replied
    ensures n + Work(trace[n]) <= Work(trace[0])
    ensures !Live(trace[n]) ==> trace[n].written == trace[0].queued && trace[n].answered == trace[0].replied
  {
    hide ClientInv, Work, Live;
    if n > 0 {
      DrainDelivers(trace, ms, n - 1);
      assert Internal(ms[n - 1]) && Follows(trace[n - 1], ms[n - 1], trace[n]);
      MovedKeeps(trace[n - 1], ms[n - 1]);
      InternalMovesEnd(trace[n - 1], ms[n - 1]);
    }
    if !Live(trace[n]) {
      QuietMeansDelivered(trace[n]);
    }
  }
}
