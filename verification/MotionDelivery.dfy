/**
 * `motion_delivery`: START and STOP for the recorder over a message queue that
 * may be missing, full, broken or replaced, without ever blocking the detector.
 */
module MotionDelivery {
  import opened Options

  /** What the kernel answers to one send. */
  datatype Reply = Accepted | Full | Lost

  /**
   * What one tick meets.  A queue is told from others by its device and inode,
   * here a number.  `seen` is the queue file found behind the name (none if
   * either `stat` fails), `opens` the queue that `mq_open` gives if it also
   * takes 16-byte messages; the two replies answer the sends.
   */
  datatype Surroundings = Surroundings(seen: Option<nat>, opens: Option<nat>, first: Reply, second: Reply)

  /** A message the kernel accepted, with the queue it went to. */
  datatype Message = Message(queue: nat, start: bool)

  /**
   * The delivery as a value; `queue` is the one held open.  The last two are
   * bookkeeping: every message accepted so far, and how many of them came
   * before the connection that is open now.
   */
  datatype Delivery = Delivery(
    enabled: bool,
    queue: Option<nat>,
    wanted: bool,
    sent: bool,
    startPending: bool,
    resetPending: bool,
    retryAfter: int,
    checkAfter: int,
    sends: seq<Message>,
    since: nat)
  {
    predicate Pending() {
      enabled && (queue.None? || resetPending || startPending || sent != wanted)
    }

    /** `motion_delivery_want`. */
    function Want(active: bool): Delivery {
      if !enabled then this
      else this.(wanted := active, startPending := startPending || (active && !sent))
    }

    /** Drop a connection whose queue is no longer the one behind the name. */
    function Checked(now: int, seen: Option<nat>): Delivery {
      if queue.Some? && now >= checkAfter
      then this.(queue := if seen == queue then queue else None, checkAfter := now + 1000)
      else this
    }

    function Dropped(now: int): Delivery {
      this.(queue := None, retryAfter := now + 1000)
    }

    function Opened(now: int, q: nat): Delivery {
      this.(queue := Some(q), resetPending := true, startPending := startPending || wanted,
            checkAfter := now + 1000, since := |sends|)
    }

    /** The part of a tick before the sends. */
    function Ready(now: int, e: Surroundings): Delivery {
      var c := Checked(now, e.seen);
      if c.queue.Some? || now < c.retryAfter then c
      else if e.opens.None? then c.Dropped(now)
      else c.Opened(now, e.opens.value)
    }

    /** The message that goes out next. */
    function Next(): bool {
      if resetPending then false else if startPending then true else wanted
    }

    /** The queue took the next message. */
    function Delivered(): Delivery
      requires queue.Some?
    {
      var active := Next();
      this.(sent := active,
            resetPending := false,
            startPending := if !resetPending && active then false else startPending,
            sends := sends + [Message(queue.value, active)])
    }

    function SendOne(now: int, reply: Reply): Delivery
      requires queue.Some?
    {
      match reply
      case Accepted => Delivered()
      case Full => this
      case Lost => Dropped(now)
    }

    /** At most two sends; the second only after the first was accepted. */
    function Sent(now: int, e: Surroundings): Delivery
      requires queue.Some?
    {
      if !Pending() then this
      else if !e.first.Accepted? then SendOne(now, e.first)
      else if !Delivered().Pending() then Delivered()
      else Delivered().SendOne(now, e.second)
    }

    /** `motion_delivery_tick`. */
    function Tick(now: int, e: Surroundings): Delivery {
      if !enabled then this
      else
        var ready := Ready(now, e);
        if ready.queue.Some? then ready.Sent(now, e) else ready
    }
  }

  /** `motion_delivery_init`. */
  function Fresh(enabled: bool): Delivery {
    Delivery(enabled, None, false, false, false, enabled, 0, 0, [], 0)
  }

  /** The open connection heard STOP, START, STOP and so on, and the fields say how far it got. */
  ghost predicate Inv(d: Delivery) {
    && d.since <= |d.sends|
    && (d.queue.Some? ==>
        && d.enabled
        && (forall i :: d.since <= i < |d.sends| ==> d.sends[i] == Message(d.queue.value, (i - d.since) % 2 == 1))
        && (d.resetPending ==> |d.sends| == d.since)
        && (!d.resetPending ==>
            |d.sends| > d.since && d.sent == d.sends[|d.sends| - 1].start && (d.startPending ==> !d.sent)))
  }

  datatype Op = Want(active: bool) | Tick(now: int, e: Surroundings)

  function Step(d: Delivery, op: Op): Delivery {
    match op
    case Want(active) => d.Want(active)
    case Tick(now, e) => d.Tick(now, e)
  }

  function Run(d: Delivery, ops: seq<Op>): Delivery {
    if ops == [] then d else Step(Run(d, ops[..|ops| - 1]), ops[|ops| - 1])
  }

  lemma DeliveredKeepsInv(d: Delivery)
    requires Inv(d) && d.queue.Some? && d.Pending()
    ensures Inv(d.Delivered())
  {
  }

  lemma SentKeepsInv(d: Delivery, now: int, e: Surroundings)
    requires Inv(d) && d.queue.Some?
    ensures Inv(d.Sent(now, e))
  {
    hide Delivery.Delivered;
    DeliveredStays(d);
    if d.Pending() {
      DeliveredKeepsInv(d);
      if d.Delivered().Pending() { DeliveredKeepsInv(d.Delivered()); }
    }
  }

  lemma DeliveredStays(d: Delivery)
    requires d.queue.Some?
    ensures var s := d.Delivered();
            && s.queue == d.queue && s.enabled == d.enabled && s.wanted == d.wanted
            && s.retryAfter == d.retryAfter && s.checkAfter == d.checkAfter && s.since == d.since
            && s.sends == d.sends + [Message(d.queue.value, d.Next())]
  {
  }

  lemma CheckedStays(d: Delivery, now: int, seen: Option<nat>)
    ensures var c := d.Checked(now, seen);
            && c.enabled == d.enabled && c.wanted == d.wanted && c.sent == d.sent && c.startPending == d.startPending
            && c.resetPending == d.resetPending && c.retryAfter == d.retryAfter && c.sends == d.sends && c.since == d.since
            && (c.queue.Some? ==> c.queue == d.queue)
  {
  }

  lemma CheckedQueue(d: Delivery, now: int, seen: Option<nat>)
    ensures d.Checked(now, seen).queue == if d.queue.Some? && now >= d.checkAfter && seen != d.queue then None else d.queue
  {
  }

  lemma StepKeepsInv(d: Delivery, op: Op)
    requires Inv(d)
    ensures Inv(Step(d, op))
  {
    hide Delivery.Sent;
    if op.Tick? && d.enabled {
      var r := d.Ready(op.now, op.e);
      assert Inv(r);
      if r.queue.Some? { SentKeepsInv(r, op.now, op.e); }
    }
  }

  lemma {:induction false} RunKeepsInv(d: Delivery, ops: seq<Op>)
    requires Inv(d)
    ensures Inv(Run(d, ops))
  {
    hide Step;
    if ops != [] {
      RunKeepsInv(d, ops[..|ops| - 1]);
      StepKeepsInv(Run(d, ops[..|ops| - 1]), ops[|ops| - 1]);
    }
  }

  /** On every run, the connection that is open accepted STOP, START, STOP and so on, all on its own queue. */
  lemma EachConnectionHearsStopStartStop(enabled: bool, ops: seq<Op>)
    ensures var d := Run(Fresh(enabled), ops);
            d.queue.Some? ==>
              && d.since <= |d.sends|
              && forall i :: d.since <= i < |d.sends| ==> d.sends[i] == Message(d.queue.value, (i - d.since) % 2 == 1)
  {
    RunKeepsInv(Fresh(enabled), ops);
  }

  // ----- the queue written to is the one behind the name -----

  /** The queue this tick would find behind the name, whether it looks or opens. */
  predicate Finds(op: Op, q: nat) {
    op.Tick? && (op.e.seen == Some(q) || op.e.opens == Some(q))
  }

  /** Operation `i` found the queue, and no tick since came 1000 ms after it. */
  ghost predicate FoundBy(ops: seq<Op>, i: int, q: nat) {
    && 0 <= i < |ops| && Finds(ops[i], q)
    && forall j :: i <= j < |ops| && ops[j].Tick? ==> ops[j].now < ops[i].now + 1000
  }

  /** The queue was found behind the name less than a second before the last tick. */
  ghost predicate BehindTheName(ops: seq<Op>, q: nat) {
    exists i :: FoundBy(ops, i, q)
  }

  /** Where the queue of a tick comes from: kept, since no check was due, or found now. */
  ghost predicate Comes(d: Delivery, now: int, e: Surroundings, q: nat, checkAfter: int) {
    || (d.queue == Some(q) && now < d.checkAfter && checkAfter == d.checkAfter)
    || (Finds(Op.Tick(now, e), q) && checkAfter == now + 1000)
  }

  lemma CheckedComes(d: Delivery, now: int, e: Surroundings)
    ensures var c := d.Checked(now, e.seen);
            c.queue.Some? ==> Comes(d, now, e, c.queue.value, c.checkAfter)
  {
  }

  lemma ReadyComes(d: Delivery, now: int, e: Surroundings)
    ensures var r := d.Ready(now, e);
            && r.sends == d.sends
            && (r.queue.Some? ==> Comes(d, now, e, r.queue.value, r.checkAfter))
  {
    hide Delivery.Checked;
    CheckedStays(d, now, e.seen);
    CheckedComes(d, now, e);
  }

  lemma SendOneGoesToTheQueue(d: Delivery, now: int, reply: Reply)
    requires d.queue.Some?
    ensures var s := d.SendOne(now, reply);
            && (s.sends == d.sends || s.sends == d.sends + [Message(d.queue.value, d.Next())])
            && (s.queue == d.queue || s.queue.None?) && s.checkAfter == d.checkAfter && s.since == d.since
            && s.enabled == d.enabled && s.wanted == d.wanted
  {
    hide Delivery.Delivered;
    DeliveredStays(d);
  }

  /** The messages of one burst all go to the open queue. */
  lemma SentGoesToTheQueue(d: Delivery, now: int, e: Surroundings)
    requires d.queue.Some?
    ensures var s := d.Sent(now, e);
            && d.sends <= s.sends && |s.sends| <= |d.sends| + 2
            && (forall i :: |d.sends| <= i < |s.sends| ==> s.sends[i].queue == d.queue.value)
            && (|s.sends| > |d.sends| ==> s.sends[|d.sends|].start == d.Next())
            && (s.queue == d.queue || s.queue.None?) && s.checkAfter == d.checkAfter && s.since == d.since
            && s.enabled == d.enabled && s.wanted == d.wanted
  {
    hide Delivery.Delivered, Delivery.Pending, Delivery.SendOne;
    DeliveredStays(d);
    SendOneGoesToTheQueue(d, now, e.first);
    SendOneGoesToTheQueue(d.Delivered(), now, e.second);
  }

  lemma TickGoesToTheQueue(d: Delivery, now: int, e: Surroundings) returns (q: nat, checkAfter: int)
    requires d.enabled
    ensures var s := d.Tick(now, e);
            && d.sends <= s.sends && |s.sends| <= |d.sends| + 2
            && (forall i :: |d.sends| <= i < |s.sends| ==> s.sends[i].queue == q)
            && (s.queue.Some? ==> s.queue.value == q && s.checkAfter == checkAfter)
            && (s.queue.Some? || |s.sends| > |d.sends| ==> Comes(d, now, e, q, checkAfter))
  {
    hide Delivery.Sent, Delivery.Ready;
    var r := d.Ready(now, e);
    ReadyComes(d, now, e);
    q, checkAfter := 0, 0;
    if r.queue.Some? {
      q, checkAfter := r.queue.value, r.checkAfter;
      SentGoesToTheQueue(r, now, e);
    }
  }

  /** An operation more: a queue that was found stays found until a tick comes 1000 ms later. */
  lemma FoundStill(ops: seq<Op>, i: int, q: nat, op: Op)
    requires FoundBy(ops, i, q) && (op.Tick? ==> op.now < ops[i].now + 1000)
    ensures FoundBy(ops + [op], i, q)
  {
    var all := ops + [op];
    forall j | i <= j < |all| && all[j].Tick? ensures all[j].now < all[i].now + 1000 {
    }
  }

  lemma FoundNow(ops: seq<Op>, q: nat, op: Op)
    requires Finds(op, q)
    ensures FoundBy(ops + [op], |ops|, q)
  {
  }

  lemma FoundIsThere(ops: seq<Op>, i: int, q: nat)
    requires FoundBy(ops, i, q)
    ensures 0 <= i < |ops|
  {
  }

  lemma FoundAfterTick(d: Delivery, ops: seq<Op>, i: int, now: int, e: Surroundings, q: nat, checkAfter: int) returns (k: int)
    requires d.queue.Some? ==> FoundBy(ops, i, d.queue.value) && d.checkAfter == ops[i].now + 1000
    requires Comes(d, now, e, q, checkAfter)
    ensures FoundBy(ops + [Op.Tick(now, e)], k, q) && checkAfter == (ops + [Op.Tick(now, e)])[k].now + 1000
  {
    hide FoundBy;
    var op := Op.Tick(now, e);
    if Finds(op, q) && checkAfter == now + 1000 {
      FoundNow(ops, q, op);
      k := |ops|;
    } else {
      FoundIsThere(ops, i, q);
      FoundStill(ops, i, q, op);
      k := i;
    }
  }

  lemma {:induction false} OpenQueueIsFound(on: bool, ops: seq<Op>) returns (i: int)
    ensures var d := Run(Fresh(on), ops);
            d.queue.Some? ==> FoundBy(ops, i, d.queue.value) && d.checkAfter == ops[i].now + 1000
  {
    hide FoundBy, Delivery.Tick, Comes;
    i := 0;
    if ops != [] {
      var before, op := ops[..|ops| - 1], ops[|ops| - 1];
      assert before + [op] == ops;
      i := OpenQueueIsFound(on, before);
      var d := Run(Fresh(on), before);
      if op.Tick? {
        if d.enabled {
          var q, checkAfter := TickGoesToTheQueue(d, op.now, op.e);
          if d.Tick(op.now, op.e).queue.Some? {
            i := FoundAfterTick(d, before, i, op.now, op.e, q, checkAfter);
          }
        } else {
          DisabledStays(d, op);
          RunKeepsInv(Fresh(on), before);
        }
      } else if d.queue.Some? {
        FoundStill(before, i, d.queue.value, op);
        FoundIsThere(before, i, d.queue.value);
      }
    }
  }

  lemma DisabledStays(d: Delivery, op: Op)
    requires !d.enabled
    ensures Step(d, op) == d
  {
  }

  /**
   * On every run: the messages of a tick all go to one queue, found behind the
   * name less than a second before, and the connection a tick leaves open is to
   * such a queue.  None goes to a queue that a check has seen replaced.
   */
  lemma MessagesGoToTheQueueBehindTheName(on: bool, ops: seq<Op>, now: int, e: Surroundings)
    ensures var d := Run(Fresh(on), ops);
            var s := d.Tick(now, e);
            var all := ops + [Op.Tick(now, e)];
            && d.sends <= s.sends
            && (forall i :: |d.sends| <= i < |s.sends| ==>
                  s.sends[i].queue == s.sends[|d.sends|].queue && BehindTheName(all, s.sends[i].queue))
            && (s.queue.Some? ==> BehindTheName(all, s.queue.value))
  {
    hide Delivery.Tick, FoundBy, Comes;
    var d := Run(Fresh(on), ops);
    var i := OpenQueueIsFound(on, ops);
    if d.enabled {
      var q, checkAfter := TickGoesToTheQueue(d, now, e);
      if d.Tick(now, e).queue.Some? || |d.Tick(now, e).sends| > |d.sends| {
        var k := FoundAfterTick(d, ops, i, now, e, q, checkAfter);
      }
    } else {
      DisabledStays(d, Op.Tick(now, e));
      RunKeepsInv(Fresh(on), ops);
    }
  }

  /**
   * When nothing is pending, the last message accepted was the wanted state, on
   * the queue found behind the name less than a second before the last tick.
   */
  lemma NotPendingMeansTold(on: bool, ops: seq<Op>)
    ensures var d := Run(Fresh(on), ops);
            d.enabled && !d.Pending() ==>
              && d.queue.Some? && BehindTheName(ops, d.queue.value)
              && d.sends != [] && d.sends[|d.sends| - 1] == Message(d.queue.value, d.wanted)
  {
    hide FoundBy, Run;
    RunKeepsInv(Fresh(on), ops);
    var i := OpenQueueIsFound(on, ops);
  }

  /**
   * A queue that is no longer behind the name, a second after it last was: the
   * tick sends nothing more to it.  What it sends goes to the queue it opens,
   * STOP first; with no connection at the end everything is still pending.
   */
  lemma AReplacedQueueIsLeft(on: bool, ops: seq<Op>, now: int, e: Surroundings)
    requires var d := Run(Fresh(on), ops);
             && d.queue.Some? && e.seen != d.queue
             && forall j :: 0 <= j < |ops| && Finds(ops[j], d.queue.value) ==> now >= ops[j].now + 1000
    ensures var d := Run(Fresh(on), ops);
            var s := d.Tick(now, e);
            && d.sends <= s.sends
            && (forall i :: |d.sends| <= i < |s.sends| ==> e.opens == Some(s.sends[i].queue))
            && (|s.sends| > |d.sends| ==> !s.sends[|d.sends|].start)
            && (s.queue.Some? ==> s.queue == e.opens && s.since == |d.sends|)
            && (s.queue.None? ==> s.Pending())
  {
    hide Delivery.Sent, Run;
    var d := Run(Fresh(on), ops);
    var i := OpenQueueIsFound(on, ops);
    RunKeepsInv(Fresh(on), ops);
    assert d.Checked(now, e.seen).queue.None?;
    var r := d.Ready(now, e);
    if r.queue.Some? { SentGoesToTheQueue(r, now, e); }
  }

  /** A queue that is still behind the name is kept, as long as it does not fail. */
  lemma AQueueStillThereIsKept(d: Delivery, now: int, e: Surroundings)
    requires d.queue.Some? && e.seen == d.queue && !e.first.Lost? && !e.second.Lost?
    ensures var s := d.Tick(now, e);
            s.queue == d.queue && s.since == d.since && s.retryAfter == d.retryAfter
  {
    hide Delivery.Delivered, Delivery.Pending;
    var r := d.Ready(now, e);
    DeliveredStays(r);
    DeliveredStays(r.Delivered());
  }

  // ----- reconnecting -----

  /** Nothing fails: a queue can be opened, and it is at worst full. */
  predicate Good(op: Op) {
    op.Tick? ==> op.e.opens.Some? && !op.e.first.Lost? && !op.e.second.Lost?
  }

  ghost predicate NoTickAfter(ops: seq<Op>, t: int) {
    forall i :: 0 <= i < |ops| && ops[i].Tick? ==> ops[i].now <= t
  }

  lemma SentTimes(d: Delivery, now: int, e: Surroundings)
    requires d.queue.Some?
    ensures var s := d.Sent(now, e);
            && s.checkAfter == d.checkAfter && (s.retryAfter == d.retryAfter || s.retryAfter == now + 1000)
            && (!e.first.Lost? && !e.second.Lost? ==> s.queue == d.queue && s.retryAfter == d.retryAfter)
  {
    hide Delivery.Delivered, Delivery.Pending;
    DeliveredStays(d);
    DeliveredStays(d.Delivered());
  }

  lemma ReadyTimes(d: Delivery, now: int, e: Surroundings, t: int)
    requires now <= t && d.retryAfter <= t + 1000 && d.checkAfter <= t + 1000
    ensures var r := d.Ready(now, e);
            r.enabled == d.enabled && r.checkAfter <= t + 1000 && r.retryAfter <= t + 1000
  {
    hide Delivery.Checked;
    CheckedStays(d, now, e.seen);
    CheckedTimes(d, now, e.seen, t);
  }

  lemma CheckedTimes(d: Delivery, now: int, seen: Option<nat>, t: int)
    requires now <= t && d.checkAfter <= t + 1000
    ensures d.Checked(now, seen).checkAfter <= t + 1000
  {
  }

  lemma {:induction false} TimesAreBounded(on: bool, ops: seq<Op>, t: int)
    requires NoTickAfter(ops, t) && t >= -1000
    ensures var d := Run(Fresh(on), ops);
            d.retryAfter <= t + 1000 && d.checkAfter <= t + 1000 && d.enabled == on
  {
    hide Delivery.Sent, Delivery.Ready;
    if ops != [] {
      var before, op := ops[..|ops| - 1], ops[|ops| - 1];
      TimesAreBounded(on, before, t);
      var d := Run(Fresh(on), before);
      if op.Tick? {
        assert op.now <= t;
        var r := d.Ready(op.now, op.e);
        ReadyTimes(d, op.now, op.e, t);
        if r.queue.Some? {
          SentTimes(r, op.now, op.e);
          SentGoesToTheQueue(r, op.now, op.e);
        }
      }
    }
  }

  lemma GoodKeepsRetry(d: Delivery, op: Op)
    requires Good(op)
    ensures Step(d, op).retryAfter == d.retryAfter && Step(d, op).enabled == d.enabled
    ensures op.Tick? && d.enabled && op.now >= d.retryAfter ==> Step(d, op).queue.Some?
  {
    hide Delivery.Sent;
    if op.Tick? {
      var r := d.Ready(op.now, op.e);
      if r.queue.Some? {
        SentTimes(r, op.now, op.e);
        SentGoesToTheQueue(r, op.now, op.e);
      }
    }
  }

  lemma {:induction false} GoodRunKeepsRetry(d: Delivery, ops: seq<Op>, later: seq<Op>)
    requires forall i :: 0 <= i < |later| ==> Good(later[i])
    ensures var before, after := Run(d, ops), Run(d, ops + later);
            after.retryAfter == before.retryAfter && after.enabled == before.enabled
  {
    hide Step, Good;
    if later == [] {
      assert ops + later == ops;
    } else {
      var n := |later| - 1;
      GoodRunKeepsRetry(d, ops, later[..n]);
      assert (ops + later)[..|ops| + n] == ops + later[..n];
      GoodKeepsRetry(Run(d, ops + later[..n]), later[n]);
    }
  }

  lemma RunOneMore(d: Delivery, ops: seq<Op>, op: Op)
    ensures Run(d, ops + [op]) == Step(Run(d, ops), op)
  {
    hide Step;
    assert (ops + [op])[..|ops|] == ops;
  }

  /**
   * Whatever happened up to `t`: if nothing fails from then on, the delivery is
   * connected after every tick from `t + 1000` on.
   */
  lemma ReconnectsWithinASecond(ops: seq<Op>, t: int, later: seq<Op>, now: int, e: Surroundings)
    requires NoTickAfter(ops, t) && t >= -1000
    requires forall i :: 0 <= i < |later| ==> Good(later[i])
    requires Good(Op.Tick(now, e)) && now >= t + 1000
    ensures Run(Fresh(true), ops + later + [Op.Tick(now, e)]).queue.Some?
  {
    hide Delivery.Tick, Run, Good;
    RunOneMore(Fresh(true), ops + later, Op.Tick(now, e));
    TimesAreBounded(true, ops, t);
    GoodRunKeepsRetry(Fresh(true), ops, later);
    GoodKeepsRetry(Run(Fresh(true), ops + later), Op.Tick(now, e));
  }

  /** A send that fails ends the connection: with the first nothing was sent, with the second one message. */
  lemma AFailedSendClosesTheQueue(d: Delivery, now: int, e: Surroundings)
    requires d.Pending() && d.queue.Some? && e.seen == d.queue
    ensures var s := d.Tick(now, e);
            && (e.first.Lost? ==> s.queue.None? && s.sends == d.sends)
            && (e.first.Accepted? && e.second.Lost? && d.Delivered().Pending() ==>
                  s.queue.None? && s.sends == d.sends + [Message(d.queue.value, d.Next())])
            && (s.queue.None? ==> s.Pending())
  {
    hide Delivery.Delivered;
    var r := d.Ready(now, e);
    DeliveredStays(d);
    DeliveredStays(r);
    DeliveredStays(r.Delivered());
    DeliveredAlike(d, r);
  }

  lemma DeliveredAlike(d: Delivery, r: Delivery)
    requires d.queue.Some? && (r == d || r == d.(checkAfter := r.checkAfter))
    ensures r.Delivered().Pending() == d.Delivered().Pending() && r.Next() == d.Next()
  {
  }

  /** After a tick that failed, or found no queue, none before a second has gone by opens or sends anything. */
  lemma {:induction false} NoReopeningWithinASecond(d: Delivery, now: int, e: Surroundings, later: seq<Op>)
    requires d.enabled && d.Tick(now, e).queue.None? && now >= d.retryAfter
    requires forall i :: 0 <= i < |later| && later[i].Tick? ==> later[i].now < now + 1000
    ensures var s, t := d.Tick(now, e), Run(d.Tick(now, e), later);
            t.queue.None? && t.sends == s.sends && t.retryAfter == now + 1000 && t.enabled
  {
    hide Delivery.Tick, Delivery.Sent;
    FailureIsRemembered(d, now, e);
    if later != [] {
      var n := |later| - 1;
      NoReopeningWithinASecond(d, now, e, later[..n]);
      StaysClosed(Run(d.Tick(now, e), later[..n]), later[n]);
    }
  }

  lemma FailureIsRemembered(d: Delivery, now: int, e: Surroundings)
    requires d.enabled && d.Tick(now, e).queue.None? && now >= d.retryAfter
    ensures d.Tick(now, e).retryAfter == now + 1000 && d.Tick(now, e).enabled
  {
    hide Delivery.Delivered, Delivery.Checked;
    CheckedStays(d, now, e.seen);
    var r := d.Ready(now, e);
    if r.queue.Some? {
      DeliveredStays(r);
      DeliveredStays(r.Delivered());
    }
  }

  lemma StaysClosed(t: Delivery, op: Op)
    requires t.queue.None? && t.enabled && (op.Tick? ==> op.now < t.retryAfter)
    ensures var u := Step(t, op);
            u.queue.None? && u.sends == t.sends && u.retryAfter == t.retryAfter && u.enabled
  {
  }

  // ----- a requested START is never dropped -----

  /** The STARTs among the messages. */
  function Starts(sends: seq<Message>): nat {
    if sends == [] then 0
    else Starts(sends[..|sends| - 1]) + if sends[|sends| - 1].start then 1 else 0
  }

  lemma StartsOfMore(sends: seq<Message>, m: Message)
    ensures Starts(sends + [m]) == Starts(sends) + if m.start then 1 else 0
  {
    assert (sends + [m])[..|sends|] == sends;
  }

  /** Sending never loses a pending START and never takes one back. */
  ghost predicate KeepsStart(d: Delivery, e: Delivery) {
    && Starts(e.sends) >= Starts(d.sends)
    && (d.startPending ==> e.startPending || Starts(e.sends) > Starts(d.sends))
  }

  lemma DeliveredKeepsStart(d: Delivery)
    requires d.queue.Some?
    ensures KeepsStart(d, d.Delivered())
  {
    hide Starts;
    StartsOfMore(d.sends, Message(d.queue.value, d.Next()));
  }

  lemma SentKeepsStart(d: Delivery, now: int, e: Surroundings)
    requires d.queue.Some?
    ensures KeepsStart(d, d.Sent(now, e))
  {
    hide Starts, Delivery.Delivered;
    DeliveredStays(d);
    DeliveredKeepsStart(d);
    DeliveredKeepsStart(d.Delivered());
  }

  lemma ReadyKeepsStart(d: Delivery, now: int, e: Surroundings)
    ensures var r := d.Ready(now, e);
            r.sends == d.sends && (d.startPending ==> r.startPending)
  {
    hide Delivery.Checked;
    CheckedStays(d, now, e.seen);
  }

  lemma StepKeepsStart(d: Delivery, op: Op)
    ensures KeepsStart(d, Step(d, op))
  {
    if op.Tick? {
      hide Delivery.Sent, Delivery.Ready, Starts;
      var r := d.Ready(op.now, op.e);
      ReadyKeepsStart(d, op.now, op.e);
      if r.queue.Some? { SentKeepsStart(r, op.now, op.e); }
    }
  }

  lemma {:induction false} PendingStartSurvives(d: Delivery, ops: seq<Op>)
    ensures KeepsStart(d, Run(d, ops))
  {
    hide Step, Starts;
    if ops != [] {
      PendingStartSurvives(d, ops[..|ops| - 1]);
      StepKeepsStart(Run(d, ops[..|ops| - 1]), ops[|ops| - 1]);
    }
  }

  /**
   * A START asked for while the recorder has not heard one is delivered or
   * still waiting after anything that follows: failures, reconnections, STOPs.
   */
  lemma RequestedStartIsNeverDropped(d: Delivery, ops: seq<Op>)
    requires d.enabled && !d.sent
    ensures var e := Run(d.Want(true), ops);
            e.startPending || Starts(e.sends) > Starts(d.sends)
  {
    PendingStartSurvives(d.Want(true), ops);
  }

  /**
   * A connection opened while motion lasts owes the recorder a START, which is
   * delivered or still waiting after anything that follows, the end of the
   * motion included.
   */
  lemma AReconnectionAnnouncesTheMotion(d: Delivery, now: int, e: Surroundings, later: seq<Op>)
    requires d.enabled && d.wanted && now >= d.retryAfter && e.opens.Some?
    requires d.queue.None? || (now >= d.checkAfter && e.seen != d.queue)
    ensures var t := Run(d.Tick(now, e), later);
            t.startPending || Starts(t.sends) > Starts(d.sends)
  {
    hide Starts, Delivery.Sent, Run;
    var r := d.Ready(now, e);
    assert r.queue.Some? && r.startPending && r.sends == d.sends;
    SentKeepsStart(r, now, e);
    PendingStartSurvives(d.Tick(now, e), later);
  }

  // ----- a willing queue hears everything -----

  predicate Willing(e: Surroundings) {
    e.opens.Some? && e.first.Accepted? && e.second.Accepted?
  }

  /** Messages still owed on a connection: STOP to clear, START, STOP. */
  function Owed(d: Delivery): nat {
    if d.resetPending then (if d.startPending then (if d.wanted then 2 else 3) else if d.wanted then 2 else 1)
    else if d.startPending then (if d.wanted then 1 else 2)
    else if d.sent != d.wanted then 1 else 0
  }

  lemma DeliveredOwesOneLess(d: Delivery)
    requires Inv(d) && d.queue.Some? && d.Pending()
    ensures Owed(d) == Owed(d.Delivered()) + 1
    ensures d.Delivered().Pending() <==> Owed(d.Delivered()) > 0
  {
  }

  lemma WillingSent(d: Delivery, now: int, e: Surroundings)
    requires Inv(d) && d.queue.Some? && Willing(e)
    ensures var s := d.Sent(now, e);
            && Inv(s) && s.queue == d.queue && s.wanted == d.wanted && s.enabled
            && Owed(s) == (if Owed(d) <= 2 then 0 else Owed(d) - 2)
            && |s.sends| == |d.sends| + Owed(d) - Owed(s)
            && (s.Pending() <==> Owed(s) > 0)
  {
    hide Delivery.Delivered;
    SentKeepsInv(d, now, e);
    DeliveredStays(d);
    DeliveredStays(d.Delivered());
    if d.Pending() {
      DeliveredKeepsInv(d);
      DeliveredOwesOneLess(d);
      if d.Delivered().Pending() { DeliveredOwesOneLess(d.Delivered()); }
    }
  }

  lemma WillingTick(d: Delivery, now: int, e: Surroundings)
    requires Inv(d) && d.enabled && Willing(e) && ((d.queue.Some? && e.seen == d.queue) || now >= d.retryAfter)
    ensures var s := d.Tick(now, e);
            var kept := d.queue.Some? && (now < d.checkAfter || e.seen == d.queue);
            && Inv(s) && s.enabled && s.wanted == d.wanted
            && s.queue == (if kept then d.queue else e.opens)
            && Owed(s) <= 1 && |s.sends| + Owed(s) <= |d.sends| + 3
            && (kept ==> |s.sends| + Owed(s) == |d.sends| + Owed(d))
            && (kept && Owed(d) <= 1 ==> Owed(s) == 0)
            && (s.Pending() <==> Owed(s) > 0)
  {
    hide Delivery.Sent, Delivery.Checked;
    CheckedStays(d, now, e.seen);
    CheckedQueue(d, now, e.seen);
    var r := d.Ready(now, e);
    assert Inv(r);
    WillingSent(r, now, e);
  }

  lemma RunTwoMore(d: Delivery, ops: seq<Op>, a: Op, b: Op)
    ensures Run(d, ops + [a, b]) == Step(Step(Run(d, ops), a), b)
  {
    hide Step, Run;
    RunOneMore(d, ops, a);
    RunOneMore(d, ops + [a], b);
    assert ops + [a] + [b] == ops + [a, b];
  }

  /**
   * After any run: with queue `q` behind the name, willing, and either already
   * open or a second gone by, two ticks and at most three messages tell it
   * everything, last the wanted state.
   */
  lemma TwoWillingTicksSettle(ops: seq<Op>, t: int, t1: int, e1: Surroundings, t2: int, e2: Surroundings, q: nat)
    requires NoTickAfter(ops, t) && t >= -1000
    requires Willing(e1) && Willing(e2) && e1.seen == e1.opens == e2.seen == Some(q)
    requires Run(Fresh(true), ops).queue == Some(q) || t1 >= t + 1000
    ensures var d := Run(Fresh(true), ops);
            var s := Run(Fresh(true), ops + [Op.Tick(t1, e1), Op.Tick(t2, e2)]);
            && !s.Pending()
            && s.sends != [] && s.sends[|s.sends| - 1] == Message(q, d.wanted)
            && |s.sends| <= |d.sends| + 3
  {
    hide Delivery.Tick, Run;
    var d := Run(Fresh(true), ops);
    RunTwoMore(Fresh(true), ops, Op.Tick(t1, e1), Op.Tick(t2, e2));
    RunKeepsInv(Fresh(true), ops);
    TimesAreBounded(true, ops, t);
    WillingTick(d, t1, e1);
    WillingTick(d.Tick(t1, e1), t2, e2);
  }

  /** `struct motion_delivery`, updated in place. */
  class MotionDelivery {
    const enabled: bool
    var queue: Option<nat>
    var wanted: bool
    var sent: bool
    var startPending: bool
    var resetPending: bool
    var retryAfter: int
    var checkAfter: int
    ghost var sends: seq<Message>
    ghost var since: nat

    ghost function Value(): Delivery
      reads this
    {
      Delivery(enabled, queue, wanted, sent, startPending, resetPending, retryAfter, checkAfter, sends, since)
    }

    constructor (on: bool)
      ensures Value() == Fresh(on)
    {
      enabled := on;
      queue, wanted, sent, startPending, resetPending := None, false, false, false, on;
      retryAfter, checkAfter := 0, 0;
      sends, since := [], 0;
    }

    method IsPending() returns (pending: bool)
      ensures pending == Value().Pending()
    {
      pending := enabled && (queue.None? || resetPending || startPending || sent != wanted);
    }

    method Want(active: bool)
      modifies this
      ensures Value() == old(Value()).Want(active)
    {
      if !enabled { return; }
      wanted := active;
      if active && !sent { startPending := true; }
    }

    method Drop(now: int)
      modifies this
      ensures Value() == old(Value()).Dropped(now)
    {
      queue := None;
      retryAfter := now + 1000;
    }

    method Deliver(active: bool)
      requires queue.Some? && active == Value().Next()
      modifies this
      ensures Value() == old(Value()).Delivered()
    {
      sent := active;
      if resetPending { resetPending := false; } else if active { startPending := false; }
      sends := sends + [Message(queue.value, active)];
    }

    /** The part before the sends; whether there is a connection to send on. */
    method Connect(now: int, e: Surroundings) returns (ok: bool)
      requires enabled
      modifies this
      ensures Value() == old(Value()).Ready(now, e)
      ensures ok == queue.Some?
    {
      if queue.Some? && now >= checkAfter {
        if e.seen != queue { queue := None; }
        checkAfter := now + 1000;
      }
      if queue.None? {
        if now < retryAfter { return false; }
        queue := e.opens;
        if queue.None? {
          Drop(now);
          return false;
        }
        resetPending := true;
        if wanted { startPending := true; }
        checkAfter := now + 1000;
        since := |sends|;
      }
      ok := true;
    }

    /** Whether everything that had to go out now went out. */
    method Tick(now: int, e: Surroundings) returns (ok: bool)
      modifies this
      ensures Value() == old(Value()).Tick(now, e)
      ensures ok && enabled ==> queue.Some?
    {
      hide Delivery.Ready, Delivery.Delivered;
      if !enabled { return true; }
      var online := Connect(now, e);
      if !online { return false; }
      ghost var ready := Value();
      DeliveredStays(ready);
      var attempt := 0;
      var pending := IsPending();
      while attempt < 2 && pending
        invariant 0 <= attempt <= 2 && queue.Some? && pending == Value().Pending()
        invariant attempt == 0 ==> Value() == ready
        invariant attempt >= 1 ==> ready.Pending() && e.first.Accepted?
        invariant attempt == 1 ==> Value() == ready.Delivered()
        invariant attempt == 2 ==> ready.Delivered().Pending() && e.second.Accepted? && Value() == ready.Delivered().Delivered()
      {
        var reply := if attempt == 0 then e.first else e.second;
        var active := if resetPending then false else if startPending then true else wanted;
        if reply.Full? { return false; }
        if reply.Lost? {
          Drop(now);
          return false;
        }
        DeliveredStays(Value());
        Deliver(active);
        attempt := attempt + 1;
        pending := IsPending();
      }
      ok := true;
    }
  }
}
