/**
 Webhook delivery with retries. Deliveries run concurrently and are interrupted only while they
 wait for the network, so a run is an interleaving of the atomic segments between those waits.
 */
module Webhooks {
  import opened Prelude

  type Delivery = nat

  /** A delivery waiting for its attempt number `attempt` (0 is the first). */
  datatype Entry = Entry(delivery: Delivery, attempt: nat, nextRetryAt: int)

  /** One running call: the first delivery of an event, or one pass over the retry queue. */
  datatype Worker = Worker(sending: Option<Entry>, rest: seq<Entry>, processor: bool, finished: bool)

  datatype Finished = Finished(delivery: Delivery, ok: bool, sends: nat)

  datatype State = State(
    issued: set<Delivery>, queue: seq<Entry>, workers: seq<Worker>, done: seq<Finished>,
    sends: seq<Delivery>, timer: bool)

  const IDLE := State({}, [], [], [], [], false)

  const MAX_RETRIES := 3
  const RETRY_DELAYS_MS := [1000, 5000, 25000]

  function Delay(attempt: nat): int {
    if attempt < |RETRY_DELAYS_MS| then RETRY_DELAYS_MS[attempt] else RETRY_DELAYS_MS[|RETRY_DELAYS_MS| - 1]
  }

  lemma DelaysExactly(attempt: nat)
    ensures Delay(attempt) == if attempt == 0 then 1000 else if attempt == 1 then 5000 else 25000
  {
  }

  function Ready(q: seq<Entry>, now: int): seq<Entry> {
    if q == [] then []
    else Ready(q[..|q| - 1], now) + if q[|q| - 1].nextRetryAt <= now then [q[|q| - 1]] else []
  }

  function Later(q: seq<Entry>, now: int): seq<Entry> {
    if q == [] then []
    else Later(q[..|q| - 1], now) + if q[|q| - 1].nextRetryAt <= now then [] else [q[|q| - 1]]
  }

  ghost function DueSet(q: seq<Entry>, now: int): set<Entry> {
    set e | e in q && e.nextRetryAt <= now
  }

  ghost function LaterSet(q: seq<Entry>, now: int): set<Entry> {
    set e | e in q && now < e.nextRetryAt
  }

  /** What is due, and what is later, are the queue without the other, in its order. */
  lemma {:induction false} SplitKeepsOrder(q: seq<Entry>, now: int, due: set<Entry>, later: set<Entry>)
    requires forall e <- q :: (e in due <==> e.nextRetryAt <= now) && (e in later <==> now < e.nextRetryAt)
    ensures IsFilter(Ready(q, now), q, due) && IsFilter(Later(q, now), q, later)
  {
    hide IsFilter;
    if q == [] {
      FilterNothing(due);
      FilterNothing(later);
    } else {
      var init, e := q[..|q| - 1], q[|q| - 1];
      assert q == init + [e] && e in q && forall x <- init :: x in q;
      SplitKeepsOrder(init, now, due, later);
      FilterSnoc(Ready(init, now), init, due, e);
      FilterSnoc(Later(init, now), init, later, e);
      assert Ready(init, now) + [] == Ready(init, now) && Later(init, now) + [] == Later(init, now);
    }
  }

  // ---- Segments

  datatype Event = Fire(d: Delivery) | Settle(worker: nat, ok: bool, at: int) | Next(worker: nat) | Tick(at: int)

  function FireStep(s: State, d: Delivery): State {
    if d in s.issued then s
    else s.(issued := s.issued + {d}, workers := s.workers + [Worker(Some(Entry(d, 0, 0)), [], false, false)],
            sends := s.sends + [d])
  }

  /** The network answered worker `i`: finish the delivery or queue its next attempt and arm the timer. */
  function SettleStep(s: State, i: nat, ok: bool, now: int): State {
    if i >= |s.workers| || s.workers[i].sending.None? then s
    else
      var e := s.workers[i].sending.value;
      var t := s.(workers := s.workers[i := s.workers[i].(sending := None)]);
      if !ok && e.attempt < MAX_RETRIES
      then t.(queue := s.queue + [Entry(e.delivery, e.attempt + 1, now + Delay(e.attempt))], timer := true)
      else t.(done := s.done + [Finished(e.delivery, ok, e.attempt + 1)])
  }

  /** Worker `i` starts its next delivery, or ends; a queue pass that ends stops the timer if nothing waits. */
  function NextStep(s: State, i: nat): State {
    if i >= |s.workers| || s.workers[i].sending.Some? || s.workers[i].finished then s
    else
      var w := s.workers[i];
      if w.rest == [] then
        s.(workers := s.workers[i := w.(finished := true)], timer := if w.processor && s.queue == [] then false else s.timer)
      else
        s.(workers := s.workers[i := w.(sending := Some(w.rest[0]), rest := w.rest[1..])],
           sends := s.sends + [w.rest[0].delivery])
  }

  /** The interval fires: take what is due and leave the rest queued. */
  function TickStep(s: State, now: int): State {
    if !s.timer then s
    else s.(queue := Later(s.queue, now), workers := s.workers + [Worker(None, Ready(s.queue, now), true, false)])
  }

  function Step(s: State, e: Event): State {
    match e
    case Fire(d) => FireStep(s, d)
    case Settle(i, ok, now) => SettleStep(s, i, ok, now)
    case Next(i) => NextStep(s, i)
    case Tick(now) => TickStep(s, now)
  }

  function Run(events: seq<Event>): State {
    if events == [] then IDLE else Step(Run(events[..|events| - 1]), events[|events| - 1])
  }

  // ---- Where a delivery is, and how often it was sent

  /** How many entries of the list belong to `d`, and how many sends they have behind them. */
  function CountQ(q: seq<Entry>, d: Delivery): nat {
    if q == [] then 0 else CountQ(q[..|q| - 1], d) + if q[|q| - 1].delivery == d then 1 else 0
  }

  function WeightQ(q: seq<Entry>, d: Delivery): nat {
    if q == [] then 0 else WeightQ(q[..|q| - 1], d) + if q[|q| - 1].delivery == d then q[|q| - 1].attempt else 0
  }

  function CountOne(w: Worker, d: Delivery): nat {
    CountQ(w.rest, d) + if w.sending.Some? && w.sending.value.delivery == d then 1 else 0
  }

  function WeightOne(w: Worker, d: Delivery): nat {
    WeightQ(w.rest, d) + if w.sending.Some? && w.sending.value.delivery == d then w.sending.value.attempt + 1 else 0
  }

  function CountW(ws: seq<Worker>, d: Delivery): nat {
    if ws == [] then 0 else CountW(ws[..|ws| - 1], d) + CountOne(ws[|ws| - 1], d)
  }

  function WeightW(ws: seq<Worker>, d: Delivery): nat {
    if ws == [] then 0 else WeightW(ws[..|ws| - 1], d) + WeightOne(ws[|ws| - 1], d)
  }

  function CountF(fs: seq<Finished>, d: Delivery): nat {
    if fs == [] then 0 else CountF(fs[..|fs| - 1], d) + if fs[|fs| - 1].delivery == d then 1 else 0
  }

  function WeightF(fs: seq<Finished>, d: Delivery): nat {
    if fs == [] then 0 else WeightF(fs[..|fs| - 1], d) + if fs[|fs| - 1].delivery == d then fs[|fs| - 1].sends else 0
  }

  /** Queue, some worker's batch, in flight, or finished: the number of places that hold `d`. */
  function Places(s: State, d: Delivery): nat {
    CountQ(s.queue, d) + CountW(s.workers, d) + CountF(s.done, d)
  }

  function SendsBehind(s: State, d: Delivery): nat {
    WeightQ(s.queue, d) + WeightW(s.workers, d) + WeightF(s.done, d)
  }

  function SendCount(sends: seq<Delivery>, d: Delivery): nat {
    if sends == [] then 0 else SendCount(sends[..|sends| - 1], d) + if sends[|sends| - 1] == d then 1 else 0
  }

  predicate EntriesOk(q: seq<Entry>) {
    forall e <- q :: e.attempt <= MAX_RETRIES
  }

  predicate WorkerOk(w: Worker) {
    EntriesOk(w.rest) && (w.sending.Some? ==> w.sending.value.attempt <= MAX_RETRIES)
  }

  predicate FinishedOk(f: Finished) {
    1 <= f.sends <= MAX_RETRIES + 1 && (!f.ok ==> f.sends == MAX_RETRIES + 1)
  }

  ghost predicate Inv(s: State) {
    && EntriesOk(s.queue) && (forall w <- s.workers :: WorkerOk(w)) && (forall f <- s.done :: FinishedOk(f))
    && (s.queue != [] ==> s.timer)
    && (forall d :: Places(s, d) == if d in s.issued then 1 else 0)
    && (forall d :: SendCount(s.sends, d) == SendsBehind(s, d))
  }

  // ---- Sums over lists

  lemma SnocQ(q: seq<Entry>, e: Entry, d: Delivery)
    ensures CountQ(q + [e], d) == CountQ(q, d) + if e.delivery == d then 1 else 0
    ensures WeightQ(q + [e], d) == WeightQ(q, d) + if e.delivery == d then e.attempt else 0
  {
    assert (q + [e])[..|q|] == q;
  }

  lemma SnocW(ws: seq<Worker>, w: Worker, d: Delivery)
    ensures CountW(ws + [w], d) == CountW(ws, d) + CountOne(w, d)
    ensures WeightW(ws + [w], d) == WeightW(ws, d) + WeightOne(w, d)
  {
    assert (ws + [w])[..|ws|] == ws;
  }

  lemma SnocF(fs: seq<Finished>, f: Finished, d: Delivery)
    ensures CountF(fs + [f], d) == CountF(fs, d) + if f.delivery == d then 1 else 0
    ensures WeightF(fs + [f], d) == WeightF(fs, d) + if f.delivery == d then f.sends else 0
  {
    assert (fs + [f])[..|fs|] == fs;
  }

  lemma SnocS(sends: seq<Delivery>, x: Delivery, d: Delivery)
    ensures SendCount(sends + [x], d) == SendCount(sends, d) + if x == d then 1 else 0
  {
    assert (sends + [x])[..|sends|] == sends;
  }

  lemma {:induction false} ConsQ(q: seq<Entry>, d: Delivery)
    requires q != []
    ensures CountQ(q, d) == CountQ(q[1..], d) + if q[0].delivery == d then 1 else 0
    ensures WeightQ(q, d) == WeightQ(q[1..], d) + if q[0].delivery == d then q[0].attempt else 0
  {
    var init := q[..|q| - 1];
    if init == [] {
      assert q[1..] == [];
    } else {
      ConsQ(init, d);
      assert q[1..][..|q| - 2] == init[1..];
    }
  }

  lemma {:induction false} UpdateW(ws: seq<Worker>, i: nat, w: Worker, d: Delivery)
    requires i < |ws|
    ensures CountW(ws[i := w], d) + CountOne(ws[i], d) == CountW(ws, d) + CountOne(w, d)
    ensures WeightW(ws[i := w], d) + WeightOne(ws[i], d) == WeightW(ws, d) + WeightOne(w, d)
  {
    hide CountOne, WeightOne;
    var init, n := ws[..|ws| - 1], |ws| - 1;
    if i < n {
      UpdateW(init, i, w, d);
      assert ws[i := w][..n] == init[i := w];
    } else {
      assert ws[i := w][..n] == init;
    }
  }

  lemma {:induction false} SplitQ(q: seq<Entry>, now: int, d: Delivery)
    ensures CountQ(q, d) == CountQ(Ready(q, now), d) + CountQ(Later(q, now), d)
    ensures WeightQ(q, d) == WeightQ(Ready(q, now), d) + WeightQ(Later(q, now), d)
    ensures forall e :: e in q <==> e in Ready(q, now) || e in Later(q, now)
  {
    if q != [] {
      var init, e := q[..|q| - 1], q[|q| - 1];
      SplitQ(init, now, d);
      SnocQ(Ready(init, now), e, d);
      SnocQ(Later(init, now), e, d);
      assert q == init + [e];
      if e.nextRetryAt <= now {
        assert Ready(q, now) == Ready(init, now) + [e] && Later(q, now) == Later(init, now);
      } else {
        assert Ready(q, now) == Ready(init, now) && Later(q, now) == Later(init, now) + [e];
      }
    }
  }

  /** Sends behind a place never exceed four. */
  lemma {:induction false} WeightBoundQ(q: seq<Entry>, d: Delivery)
    requires EntriesOk(q)
    ensures WeightQ(q, d) <= 4 * CountQ(q, d)
  {
    if q != [] {
      WeightBoundQ(q[..|q| - 1], d);
      assert q[|q| - 1] in q;
    }
  }

  lemma {:induction false} WeightBoundW(ws: seq<Worker>, d: Delivery)
    requires forall w <- ws :: WorkerOk(w)
    ensures WeightW(ws, d) <= 4 * CountW(ws, d)
  {
    if ws != [] {
      WeightBoundW(ws[..|ws| - 1], d);
      assert ws[|ws| - 1] in ws;
      WeightBoundQ(ws[|ws| - 1].rest, d);
    }
  }

  lemma {:induction false} WeightBoundF(fs: seq<Finished>, d: Delivery)
    requires forall f <- fs :: FinishedOk(f)
    ensures CountF(fs, d) <= WeightF(fs, d) <= 4 * CountF(fs, d)
  {
    if fs != [] {
      WeightBoundF(fs[..|fs| - 1], d);
      assert fs[|fs| - 1] in fs;
    }
  }

  // ---- Every segment keeps the invariant

  lemma FireMoves(s: State, f: Delivery, d: Delivery)
    requires f !in s.issued
    ensures var s' := FireStep(s, f);
            && Places(s', d) == Places(s, d) + (if d == f then 1 else 0)
            && SendsBehind(s', d) - SendsBehind(s, d) == SendCount(s'.sends, d) - SendCount(s.sends, d)
  {
    hide CountW, WeightW, CountF, WeightF, SendCount;
    SnocW(s.workers, Worker(Some(Entry(f, 0, 0)), [], false, false), d);
    SnocS(s.sends, f, d);
  }

  lemma FireKeepsInv(s: State, f: Delivery)
    requires Inv(s)
    ensures Inv(FireStep(s, f))
  {
    hide Places, SendsBehind, SendCount;
    if f !in s.issued {
      var s' := FireStep(s, f);
      forall d ensures Places(s', d) == (if d in s'.issued then 1 else 0)
               ensures SendCount(s'.sends, d) == SendsBehind(s', d) {
        FireMoves(s, f, d);
      }
    }
  }

  lemma SettleMoves(s: State, i: nat, ok: bool, now: int, d: Delivery)
    requires i < |s.workers| && s.workers[i].sending.Some?
    ensures Places(SettleStep(s, i, ok, now), d) == Places(s, d)
    ensures SendsBehind(SettleStep(s, i, ok, now), d) == SendsBehind(s, d)
  {
    hide CountQ, WeightQ, CountW, WeightW, CountF, WeightF, Delay;
    var w, e := s.workers[i], s.workers[i].sending.value;
    UpdateW(s.workers, i, w.(sending := None), d);
    if !ok && e.attempt < MAX_RETRIES {
      SnocQ(s.queue, Entry(e.delivery, e.attempt + 1, now + Delay(e.attempt)), d);
    } else {
      SnocF(s.done, Finished(e.delivery, ok, e.attempt + 1), d);
    }
  }

  lemma SettleKeepsInv(s: State, i: nat, ok: bool, now: int)
    requires Inv(s)
    ensures Inv(SettleStep(s, i, ok, now))
  {
    hide Places, SendsBehind, SendCount, Delay;
    if i < |s.workers| && s.workers[i].sending.Some? {
      var s' := SettleStep(s, i, ok, now);
      assert s.workers[i] in s.workers && WorkerOk(s.workers[i]);
      forall d ensures Places(s', d) == (if d in s'.issued then 1 else 0)
               ensures SendCount(s'.sends, d) == SendsBehind(s', d) {
        SettleMoves(s, i, ok, now, d);
      }
    }
  }

  /** Starting a delivery leaves it in the same worker, with one send more behind it. */
  lemma NextMoves(s: State, i: nat, d: Delivery)
    requires i < |s.workers| && s.workers[i].sending.None? && !s.workers[i].finished
    ensures var s' := NextStep(s, i);
            && Places(s', d) == Places(s, d)
            && SendsBehind(s', d) - SendsBehind(s, d) == SendCount(s'.sends, d) - SendCount(s.sends, d)
  {
    hide CountQ, WeightQ, CountW, WeightW, CountF, WeightF, SendCount;
    var w, w' := s.workers[i], NextStep(s, i).workers[i];
    UpdateW(s.workers, i, w', d);
    if w.rest != [] {
      ConsQ(w.rest, d);
      SnocS(s.sends, w.rest[0].delivery, d);
    }
  }

  lemma NextKeepsInv(s: State, i: nat)
    requires Inv(s)
    ensures Inv(NextStep(s, i))
  {
    hide Places, SendsBehind, SendCount;
    if i < |s.workers| && s.workers[i].sending.None? && !s.workers[i].finished {
      var s' := NextStep(s, i);
      var w := s.workers[i];
      assert w in s.workers && WorkerOk(w);
      if w.rest != [] { assert w.rest[0] in w.rest && forall e <- w.rest[1..] :: e in w.rest; }
      forall d ensures Places(s', d) == (if d in s'.issued then 1 else 0)
               ensures SendCount(s'.sends, d) == SendsBehind(s', d) {
        NextMoves(s, i, d);
      }
    }
  }

  /** What is due moves from the queue into a new worker's batch. */
  lemma TickMoves(s: State, now: int, d: Delivery)
    requires s.timer
    ensures Places(TickStep(s, now), d) == Places(s, d) && SendsBehind(TickStep(s, now), d) == SendsBehind(s, d)
  {
    hide CountQ, WeightQ, CountW, WeightW, CountF, WeightF, Ready, Later;
    SnocW(s.workers, Worker(None, Ready(s.queue, now), true, false), d);
    SplitQ(s.queue, now, d);
  }

  lemma TickKeepsInv(s: State, now: int)
    requires Inv(s)
    ensures Inv(TickStep(s, now))
  {
    hide Places, SendsBehind, SendCount, Ready, Later;
    if s.timer {
      var s' := TickStep(s, now);
      SplitQ(s.queue, now, 0);
      forall d ensures Places(s', d) == (if d in s'.issued then 1 else 0)
               ensures SendCount(s'.sends, d) == SendsBehind(s', d) {
        TickMoves(s, now, d);
      }
    }
  }

  lemma {:induction false} RunKeepsInv(events: seq<Event>)
    ensures Inv(Run(events))
  {
    if events != [] {
      var s, e := Run(events[..|events| - 1]), events[|events| - 1];
      RunKeepsInv(events[..|events| - 1]);
      match e
      case Fire(d) => FireKeepsInv(s, d);
      case Settle(i, ok, now) => SettleKeepsInv(s, i, ok, now);
      case Next(i) => NextKeepsInv(s, i);
      case Tick(now) => TickKeepsInv(s, now);
    }
  }

  /** Under every interleaving each delivery is in exactly one place, has been sent at most four times, is
      given up only after the fourth, and nothing waits without an armed timer. */
  lemma NothingLostOrDuplicated(events: seq<Event>, d: Delivery)
    ensures var s := Run(events);
            && Places(s, d) == (if d in s.issued then 1 else 0)
            && SendCount(s.sends, d) <= MAX_RETRIES + 1
            && (d in s.issued && CountF(s.done, d) == 1 ==> SendCount(s.sends, d) >= 1)
            && (s.queue != [] ==> s.timer)
            && forall f <- s.done :: f.delivery == d && !f.ok ==> SendCount(s.sends, d) == MAX_RETRIES + 1
  {
    RunKeepsInv(events);
    var s := Run(events);
    WeightBoundQ(s.queue, d);
    WeightBoundW(s.workers, d);
    WeightBoundF(s.done, d);
    assert Places(s, d) <= 1 && SendCount(s.sends, d) == SendsBehind(s, d);
    forall f | f in s.done && f.delivery == d ensures SendCount(s.sends, d) >= f.sends {
      FinishedWeighs(s.done, f);
    }
  }

  predicate Resting(w: Worker) {
    w.sending.None? && w.rest == []
  }

  /** When nothing is queued and every call has ended, everything asked for has been finished, once. */
  lemma QuietMeansFinished(events: seq<Event>, d: Delivery)
    requires var s := Run(events); s.queue == [] && forall w <- s.workers :: Resting(w)
    ensures CountF(Run(events).done, d) == if d in Run(events).issued then 1 else 0
  {
    RunKeepsInv(events);
    var s := Run(events);
    RestingHoldNothing(s.workers, d);
    assert Places(s, d) == (if d in s.issued then 1 else 0);
  }

  lemma {:induction false} RestingHoldNothing(ws: seq<Worker>, d: Delivery)
    requires forall w <- ws :: Resting(w)
    ensures CountW(ws, d) == 0
  {
    if ws != [] {
      RestingHoldNothing(ws[..|ws| - 1], d);
      assert ws[|ws| - 1] in ws;
    }
  }

  lemma {:induction false} FinishedWeighs(fs: seq<Finished>, f: Finished)
    requires f in fs
    ensures WeightF(fs, f.delivery) >= f.sends
  {
    if f != fs[|fs| - 1] {
      FinishedWeighs(fs[..|fs| - 1], f);
    }
  }

  // ---- The service itself

  class WebhookService {
    var retryQueue: seq<Entry>
    var retryTimer: bool
    var workers: seq<Worker>
    /** Bookkeeping of what was asked for, sent and finished. */
    ghost var issued: set<Delivery>
    ghost var done: seq<Finished>
    ghost var sends: seq<Delivery>

    ghost function Now(): State
      reads this
    {
      State(issued, retryQueue, workers, done, sends, retryTimer)
    }

    ghost predicate Valid()
      reads this
    {
      Inv(Now())
    }

    constructor ()
      ensures Valid() && Now() == IDLE
    {
      retryQueue, retryTimer, workers, issued, done, sends := [], false, [], {}, [], [];
      new;
      RunKeepsInv([]);
    }

    /** `deliverWithRetry` up to its first wait. */
    method Fire(d: Delivery)
      requires Valid() && d !in issued
      modifies this
      ensures Valid() && Now() == Step(old(Now()), Event.Fire(d))
      ensures workers == old(workers) + [Worker(Some(Entry(d, 0, 0)), [], false, false)] && sends == old(sends) + [d]
      ensures retryQueue == old(retryQueue) && retryTimer == old(retryTimer) && done == old(done)
    {
      FireKeepsInv(Now(), d);
      hide Inv;
      workers := workers + [Worker(Some(Entry(d, 0, 0)), [], false, false)];
      issued, sends := issued + {d}, sends + [d];
    }

    /** `deliverWithRetry` after the network has answered. */
    method Settle(i: nat, success: bool, now: int)
      requires Valid() && i < |workers| && workers[i].sending.Some?
      modifies this
      ensures Valid() && Now() == Step(old(Now()), Event.Settle(i, success, now))
      ensures workers == old(workers)[i := old(workers)[i].(sending := None)] && sends == old(sends)
      ensures var e := old(workers)[i].sending.value;
              && (success || e.attempt >= 3 ==>
                    && retryQueue == old(retryQueue) && retryTimer == old(retryTimer)
                    && done == old(done) + [Finished(e.delivery, success, e.attempt + 1)])
              && (!success && e.attempt < 3 ==>
                    && retryTimer && done == old(done)
                    && var delay := if e.attempt == 0 then 1000 else if e.attempt == 1 then 5000 else 25000;
                       retryQueue == old(retryQueue) + [Entry(e.delivery, e.attempt + 1, now + delay)])
    {
      SettleKeepsInv(Now(), i, success, now);
      DelaysExactly(workers[i].sending.value.attempt);
      hide Inv, Delay;
      ghost var next := SettleStep(Now(), i, success, now);
      var w := workers[i];
      var e := w.sending.value;
      workers := workers[i := w.(sending := None)];
      if !success && e.attempt < MAX_RETRIES {
        retryQueue := retryQueue + [Entry(e.delivery, e.attempt + 1, now + Delay(e.attempt))];
        EnsureRetryTimer();
      } else {
        done := done + [Finished(e.delivery, success, e.attempt + 1)];
      }
      assert Now() == next;
    }

    method EnsureRetryTimer()
      modifies `retryTimer
      ensures retryTimer
    {
      if retryTimer { return; }
      retryTimer := true;
    }

    /** The head of `processRetryQueue`: empty the queue into the batch due now and refill it with the rest. */
    method Tick(now: int)
      requires Valid() && retryTimer
      modifies this
      ensures Valid() && Now() == Step(old(Now()), Event.Tick(now))
      ensures |workers| == |old(workers)| + 1 && workers[..|old(workers)|] == old(workers)
      ensures var w, q := workers[|old(workers)|], old(retryQueue);
              && w.sending == None && w.processor && !w.finished
              && IsFilter(w.rest, q, DueSet(q, now))
              && IsFilter(retryQueue, q, LaterSet(q, now))
      ensures retryTimer && sends == old(sends) && done == old(done)
    {
      TickKeepsInv(Now(), now);
      hide Inv, IsFilter, Ready, Later, DueSet, LaterSet;
      var ready, remaining := SplitQueue(now);
      retryQueue := remaining;
      workers := workers + [Worker(None, ready, true, false)];
    }

    method SplitQueue(now: int) returns (ready: seq<Entry>, remaining: seq<Entry>)
      ensures ready == Ready(retryQueue, now) && remaining == Later(retryQueue, now)
      ensures IsFilter(ready, retryQueue, DueSet(retryQueue, now))
      ensures IsFilter(remaining, retryQueue, LaterSet(retryQueue, now))
    {
      SplitKeepsOrder(retryQueue, now, DueSet(retryQueue, now), LaterSet(retryQueue, now));
      hide IsFilter;
      ready, remaining := [], [];
      for i := 0 to |retryQueue|
        invariant ready == Ready(retryQueue[..i], now) && remaining == Later(retryQueue[..i], now)
      {
        assert retryQueue[..i + 1][..i] == retryQueue[..i];
        if retryQueue[i].nextRetryAt <= now {
          ready := ready + [retryQueue[i]];
        } else {
          remaining := remaining + [retryQueue[i]];
        }
      }
      assert retryQueue[..|retryQueue|] == retryQueue;
    }

    /** The loop of `processRetryQueue`: the next delivery, or the end of the call. */
    method Next(i: nat)
      requires Valid() && i < |workers| && workers[i].sending.None? && !workers[i].finished
      modifies this
      ensures Valid() && Now() == Step(old(Now()), Event.Next(i))
      ensures var w := old(workers)[i];
              && (w.rest == [] ==>
                    && workers == old(workers)[i := w.(finished := true)] && sends == old(sends)
                    && retryTimer == (old(retryTimer) && !(w.processor && retryQueue == [])))
              && (w.rest != [] ==>
                    && workers == old(workers)[i := w.(sending := Some(w.rest[0]), rest := w.rest[1..])]
                    && sends == old(sends) + [w.rest[0].delivery] && retryTimer == old(retryTimer))
      ensures retryQueue == old(retryQueue) && done == old(done)
    {
      NextKeepsInv(Now(), i);
      hide Inv;
      var w := workers[i];
      if w.rest == [] {
        workers := workers[i := w.(finished := true)];
        if w.processor && retryQueue == [] && retryTimer { retryTimer := false; }
      } else {
        workers := workers[i := w.(sending := Some(w.rest[0]), rest := w.rest[1..])];
        sends := sends + [w.rest[0].delivery];
      }
    }
  }
}
