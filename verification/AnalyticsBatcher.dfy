/**
  The analytics client: events buffered per stream, taken out in batches under one lock by Send
  (a full bucket), by the timed flusher and by Close, and posted outside the lock in any order.
  A step of a run is one lock section or one call of `flush`; Send's check of `stopped` is made
  without the lock, so it is a step of its own.
 */
module AnalyticsBatcher {
  import opened Prelude

  datatype Value = Text(text: string) | Micros(at: int)

  type Event = map<string, Value>

  const TIMESTAMP := "_timestamp"

  datatype Item = Item(stream: string, event: Event)

  datatype Taker = Sender | Flusher | Closer

  /** Events taken from one bucket, on their way to `flush`. */
  datatype Batch = Batch(stream: string, events: seq<Event>, taker: Taker)

  type Buckets = map<string, seq<Event>>

  /** The state behind the lock; the bucket map is nil once Close has drained it. `taken` holds
      the batches in the order the lock sections took them. */
  datatype Core = Core(maxBatch: nat, buckets: Option<Buckets>, stopped: bool, taken: seq<Batch>)

  function MaxBatch(configured: int): (n: nat)
    ensures n >= 1
  {
    if configured <= 0 then 100 else configured
  }

  predicate Accepts(c: Core, stream: string, event: Event) {
    !c.stopped && stream != "" && event != map[]
  }

  function Stamped(event: Event, now: int): Event {
    if TIMESTAMP in event then event else event[TIMESTAMP := Micros(now)]
  }

  /** The event an accepted Send buffers: the caller's fields, with a timestamp added when the caller
      set none. */
  predicate IsStamped(event: Event, now: int, sent: Event) {
    && (forall k :: k in event ==> k in sent && sent[k] == event[k])
    && (forall k :: k in sent ==> k in event || k == TIMESTAMP)
    && TIMESTAMP in sent && (TIMESTAMP !in event ==> sent[TIMESTAMP] == Micros(now))
  }

  function BucketOf(b: Buckets, stream: string): seq<Event> { if stream in b then b[stream] else [] }

  function Buffered(c: Core, stream: string): seq<Event> {
    if c.buckets.Some? then BucketOf(c.buckets.value, stream) else []
  }

  // ---- The three lock sections ----

  function AppendStep(c: Core, item: Item): Core
    requires c.buckets.Some?
  {
    var bucket := Buffered(c, item.stream) + [item.event];
    if |bucket| >= c.maxBatch
    then c.(buckets := Some(c.buckets.value[item.stream := []]),
            taken := c.taken + [Batch(item.stream, bucket, Sender)])
    else c.(buckets := Some(c.buckets.value[item.stream := bucket]))
  }

  /** The batches of a bucket map whose streams are visited in some order; empty ones are passed over. */
  function Batches(b: Buckets, order: seq<string>, taker: Taker): seq<Batch> {
    if order == [] then []
    else
      var s := order[|order| - 1];
      var before := Batches(b, order[..|order| - 1], taker);
      if BucketOf(b, s) == [] then before else before + [Batch(s, b[s], taker)]
  }

  lemma NoBatches(b: Buckets, taker: Taker)
    ensures Batches(b, [], taker) == []
  {
  }

  lemma BatchesOneMore(b: Buckets, order: seq<string>, s: string, taker: Taker)
    requires s in b
    ensures Batches(b, order + [s], taker) ==
            Batches(b, order, taker) + (if b[s] == [] then [] else [Batch(s, b[s], taker)])
  {
    assert (order + [s])[..|order|] == order;
  }

  /** A loop over a map visits every key once. */
  ghost predicate Visits(order: seq<string>, b: Buckets) {
    && (forall s :: s in order <==> s in b)
    && (forall i, j :: 0 <= i < j < |order| ==> order[i] != order[j])
  }

  /** The bucket map as a loop sees it; a nil map has no keys. */
  function Snapshot(c: Core): Buckets { if c.buckets.Some? then c.buckets.value else map[] }

  function FlushStep(c: Core, order: seq<string>): Core {
    c.(buckets := Some(map[]), taken := c.taken + Batches(Snapshot(c), order, Flusher))
  }

  function DrainStep(c: Core, order: seq<string>): Core
    requires c.buckets.Some?
  {
    c.(buckets := None, taken := c.taken + Batches(c.buckets.value, order, Closer))
  }

  // ---- What a stream has seen ----

  /** The events of one stream in a list of accepted items. */
  function EventsOf(items: seq<Item>, stream: string): seq<Event> {
    if items == [] then []
    else EventsOf(items[..|items| - 1], stream) +
         (var last := items[|items| - 1]; if last.stream == stream then [last.event] else [])
  }

  /** The events of one stream in the batches taken so far. */
  function TakenOf(taken: seq<Batch>, stream: string): seq<Event> {
    if taken == [] then []
    else TakenOf(taken[..|taken| - 1], stream) +
         (var last := taken[|taken| - 1]; if last.stream == stream then last.events else [])
  }

  lemma {:induction false} TakenOfAppend(a: seq<Batch>, b: seq<Batch>, stream: string)
    ensures TakenOf(a + b, stream) == TakenOf(a, stream) + TakenOf(b, stream)
  {
    if b == [] {
      assert a + b == a;
    } else {
      assert (a + b)[..|a + b| - 1] == a + b[..|b| - 1];
      TakenOfAppend(a, b[..|b| - 1], stream);
    }
  }

  lemma TakenOfBucket(b: Buckets, s: string, taker: Taker, stream: string)
    requires s in b
    ensures TakenOf(if b[s] == [] then [] else [Batch(s, b[s], taker)], stream) == if s == stream then b[s] else []
  {
    if b[s] != [] { TakenOfOne(Batch(s, b[s], taker), stream); }
  }

  /** Visiting each stream once takes each bucket once, whatever the order. */
  lemma {:induction false} BatchesTakeOnce(b: Buckets, order: seq<string>, taker: Taker, stream: string)
    requires forall i :: 0 <= i < |order| ==> order[i] in b
    requires forall i, j :: 0 <= i < j < |order| ==> order[i] != order[j]
    ensures TakenOf(Batches(b, order, taker), stream) == if stream in order then BucketOf(b, stream) else []
  {
    if order == [] {
      assert TakenOf([], stream) == [];
    } else {
      hide Batches, TakenOf;
      var init, s := order[..|order| - 1], order[|order| - 1];
      BatchesTakeOnce(b, init, taker, stream);
      assert order == init + [s];
      BatchesOneMore(b, init, s, taker);
      TakenOfAppend(Batches(b, init, taker), if b[s] == [] then [] else [Batch(s, b[s], taker)], stream);
      TakenOfBucket(b, s, taker, stream);
    }
  }

  lemma {:induction false} BatchesFit(b: Buckets, order: seq<string>, taker: Taker, max: nat)
    requires forall s :: s in b ==> |b[s]| < max
    ensures forall i :: 0 <= i < |Batches(b, order, taker)| ==>
              var batch := Batches(b, order, taker)[i];
              0 < |batch.events| < max && batch.taker == taker
  {
    if order != [] { BatchesFit(b, order[..|order| - 1], taker, max); }
  }

  // ---- Runs ----

  /** `sending` holds the events of Sends past their check; `handed` the batches, by number, whose
      flush was called. `crashed` is the write to a nil map that ends the process. */
  datatype World = World(
    core: Core, sending: multiset<Item>, accepted: seq<Item>, handed: seq<nat>, closed: bool, crashed: bool)

  datatype Action =
    | Admit(item: Item)
    | Append(item: Item)
    | Tick(order: seq<string>)
    | HandOver(batch: nat)
    | Stop
    | Drain(order: seq<string>)
    | CloseReturns

  /** All batches one taker took were handed to flush. */
  ghost predicate AllHanded(w: World, taker: Taker) {
    forall i :: 0 <= i < |w.core.taken| && w.core.taken[i].taker == taker ==> i in w.handed
  }

  /** Close waits for the flusher before it drains, and flushes what it drained before it returns. */
  ghost predicate Enabled(w: World, a: Action) {
    !w.crashed &&
    match a
    case Admit(item) => Accepts(w.core, item.stream, item.event)
    case Append(item) => item in w.sending
    case Tick(order) => w.core.buckets.Some? && Visits(order, w.core.buckets.value)
    case HandOver(i) => i < |w.core.taken| && i !in w.handed
    case Stop => !w.core.stopped
    case Drain(order) =>
      w.core.stopped && w.core.buckets.Some? && Visits(order, w.core.buckets.value) && AllHanded(w, Flusher)
    case CloseReturns => w.core.buckets.None? && AllHanded(w, Closer)
  }

  ghost function Next(w: World, a: Action): World
    requires Enabled(w, a)
  {
    match a
    case Admit(item) => w.(sending := w.sending + multiset{item})
    case Append(item) =>
      if w.core.buckets.None? then w.(crashed := true)
      else w.(sending := w.sending - multiset{item}, accepted := w.accepted + [item], core := AppendStep(w.core, item))
    case Tick(order) => w.(core := FlushStep(w.core, order))
    case HandOver(i) => w.(handed := w.handed + [i])
    case Stop => w.(core := w.core.(stopped := true))
    case Drain(order) => w.(core := DrainStep(w.core, order))
    case CloseReturns => w.(closed := true)
  }

  function Start(configured: int): World {
    World(Core(MaxBatch(configured), Some(map[]), false, []), multiset{}, [], [], false, false)
  }

  /** A run from a world: the worlds it passes, one more than its actions. */
  ghost predicate Run(ws: seq<World>, acts: seq<Action>) {
    && |ws| == |acts| + 1
    && forall i :: 0 <= i < |acts| ==> Enabled(ws[i], acts[i]) && ws[i + 1] == Next(ws[i], acts[i])
  }

  /** Accepted events are the taken ones followed by the buffered ones, in order, on every stream. */
  ghost predicate Conserved(w: World) {
    forall s :: EventsOf(w.accepted, s) == TakenOf(w.core.taken, s) + Buffered(w.core, s)
  }

  /** Buckets stay short, Send takes full batches only, the other takers non-empty shorter ones. */
  ghost predicate Sized(c: Core) {
    && c.maxBatch >= 1
    && (c.buckets.Some? ==> forall s :: s in c.buckets.value ==> |c.buckets.value[s]| < c.maxBatch)
    && (forall i :: 0 <= i < |c.taken| ==>
          if c.taken[i].taker == Sender then |c.taken[i].events| == c.maxBatch
          else 0 < |c.taken[i].events| < c.maxBatch)
  }

  /** No batch is handed to flush twice. */
  ghost predicate HandedOnce(w: World) {
    && (forall i :: 0 <= i < |w.handed| ==> w.handed[i] < |w.core.taken|)
    && (forall i, j :: 0 <= i < j < |w.handed| ==> w.handed[i] != w.handed[j])
  }

  /** Once drained the client is stopped and its flusher's batches are out; once Close returned so
      are its own. */
  ghost predicate Settled(w: World) {
    && (w.core.buckets.None? ==> w.core.stopped && AllHanded(w, Flusher))
    && (w.closed ==> w.core.buckets.None? && AllHanded(w, Closer))
  }

  ghost predicate Inv(w: World) { Conserved(w) && Sized(w.core) && HandedOnce(w) && Settled(w) }

  lemma AppendConservesStream(c: Core, item: Item, s: string)
    requires c.buckets.Some?
    ensures var c' := AppendStep(c, item);
            TakenOf(c'.taken, s) + Buffered(c', s)
            == TakenOf(c.taken, s) + Buffered(c, s) + (if item.stream == s then [item.event] else [])
  {
    hide TakenOf;
    var c' := AppendStep(c, item);
    var bucket := Buffered(c, item.stream) + [item.event];
    if |bucket| >= c.maxBatch {
      TakenOfAppend(c.taken, [Batch(item.stream, bucket, Sender)], s);
      TakenOfOne(Batch(item.stream, bucket, Sender), s);
    }
  }

  lemma TakenOfOne(b: Batch, s: string)
    ensures TakenOf([b], s) == if b.stream == s then b.events else []
  {
    assert [b][..0] == [] && TakenOf([], s) == [];
  }

  lemma AppendConserves(w: World, item: Item)
    requires Conserved(w) && w.core.buckets.Some?
    ensures Conserved(w.(accepted := w.accepted + [item], core := AppendStep(w.core, item)))
  {
    hide AppendStep, TakenOf, Buffered;
    var c' := AppendStep(w.core, item);
    var accepted' := w.accepted + [item];
    forall s
      ensures EventsOf(accepted', s) == TakenOf(c'.taken, s) + Buffered(c', s)
    {
      assert accepted'[..|accepted'| - 1] == w.accepted;
      assert EventsOf(w.accepted, s) == TakenOf(w.core.taken, s) + Buffered(w.core, s);
      AppendConservesStream(w.core, item, s);
    }
  }

  lemma TakingConserves(w: World, order: seq<string>, taker: Taker, left: Option<Buckets>)
    requires Conserved(w) && w.core.buckets.Some? && Visits(order, w.core.buckets.value)
    requires left == None || left == Some(map[])
    ensures var taken := w.core.taken + Batches(w.core.buckets.value, order, taker);
            Conserved(w.(core := w.core.(buckets := left, taken := taken)))
  {
    var b := w.core.buckets.value;
    forall s
      ensures EventsOf(w.accepted, s) == TakenOf(w.core.taken + Batches(b, order, taker), s)
    {
      assert EventsOf(w.accepted, s) == TakenOf(w.core.taken, s) + Buffered(w.core, s);
      TakenOfAppend(w.core.taken, Batches(b, order, taker), s);
      BatchesTakeOnce(b, order, taker, s);
    }
  }

  lemma StepConserves(w: World, a: Action)
    requires Conserved(w) && Sized(w.core) && Enabled(w, a)
    ensures Conserved(Next(w, a))
  {
    match a
    case Append(item) =>
      if w.core.buckets.Some? {
        AppendConserves(w, item);
        var mid := w.(accepted := w.accepted + [item], core := AppendStep(w.core, item));
        var w' := Next(w, a);
        assert Conserved(mid) && mid.accepted == w'.accepted && mid.core == w'.core;
      }
    case Tick(order) => TakingConserves(w, order, Flusher, Some(map[]));
    case Drain(order) => TakingConserves(w, order, Closer, None);
    case _ =>
  }

  lemma StepKeepsSizes(w: World, a: Action)
    requires Sized(w.core) && Enabled(w, a)
    ensures Sized(Next(w, a).core)
  {
    match a
    case Tick(order) => BatchesFit(w.core.buckets.value, order, Flusher, w.core.maxBatch);
    case Drain(order) => BatchesFit(w.core.buckets.value, order, Closer, w.core.maxBatch);
    case _ =>
  }

  lemma StepKeepsHandOvers(w: World, a: Action)
    requires HandedOnce(w) && Settled(w) && Sized(w.core) && Enabled(w, a)
    ensures HandedOnce(Next(w, a)) && Settled(Next(w, a))
  {
    if a.Drain? { BatchesFit(w.core.buckets.value, a.order, Closer, w.core.maxBatch); }
  }

  lemma StepKeepsInv(w: World, a: Action)
    requires Inv(w) && Enabled(w, a)
    ensures Inv(Next(w, a))
  {
    hide Conserved, Sized, HandedOnce, Settled;
    StepConserves(w, a);
    StepKeepsSizes(w, a);
    StepKeepsHandOvers(w, a);
  }

  lemma {:induction false} InvHolds(configured: int, ws: seq<World>, acts: seq<Action>)
    requires Run(ws, acts) && ws[0] == Start(configured)
    ensures Inv(ws[|acts|])
  {
    if acts != [] {
      var n := |acts| - 1;
      InvHolds(configured, ws[..|ws| - 1], acts[..n]);
      StepKeepsInv(ws[n], acts[n]);
    }
  }

  /** In every interleaving no event is lost, duplicated or reordered before `flush`: the accepted
      events of a stream are the batches taken from it, in order, then its bucket. Each batch is
      handed over at most once, none is empty or over-long, and every bucket stays below the limit. */
  lemma NothingLostOrDuplicated(configured: int, ws: seq<World>, acts: seq<Action>, stream: string)
    requires Run(ws, acts) && ws[0] == Start(configured)
    ensures var w := ws[|acts|];
            && EventsOf(w.accepted, stream) == TakenOf(w.core.taken, stream) + Buffered(w.core, stream)
            && |Buffered(w.core, stream)| < w.core.maxBatch
            && (forall i :: 0 <= i < |w.core.taken| ==> 0 < |w.core.taken[i].events| <= w.core.maxBatch)
            && (forall i, j :: 0 <= i < j < |w.handed| ==> w.handed[i] != w.handed[j])
  {
    InvHolds(configured, ws, acts);
  }

  /** When Close has returned nothing is buffered, every accepted event is in a batch, and the only
      batches possibly still waiting for their post are full ones started by Send, which Close does
      not wait for. */
  lemma CloseLeavesOnlyFullBatches(configured: int, ws: seq<World>, acts: seq<Action>, stream: string)
    requires Run(ws, acts) && ws[0] == Start(configured) && ws[|acts|].closed
    ensures var w := ws[|acts|];
            && Buffered(w.core, stream) == []
            && EventsOf(w.accepted, stream) == TakenOf(w.core.taken, stream)
            && forall i :: 0 <= i < |w.core.taken| && i !in w.handed ==>
                 w.core.taken[i].taker == Sender && |w.core.taken[i].events| == w.core.maxBatch
  {
    InvHolds(configured, ws, acts);
  }

  lemma {:induction false} DrainedStaysQuiet(ws: seq<World>, acts: seq<Action>)
    requires Run(ws, acts) && !ws[0].crashed && ws[0].core.buckets.None? && ws[0].core.stopped
    requires ws[0].sending == multiset{}
    ensures ws[|acts|].core == ws[0].core && ws[|acts|].sending == multiset{}
    ensures ws[|acts|].accepted == ws[0].accepted && !ws[|acts|].crashed
  {
    if acts != [] {
      var n := |acts| - 1;
      DrainedStaysQuiet(ws[..|ws| - 1], acts[..n]);
    }
  }

  ghost predicate CanCrash(w: World) {
    exists ws: seq<World>, acts: seq<Action> :: Run(ws, acts) && ws[0] == w && ws[|acts|].crashed
  }

  /** The drain leaves a process that can never crash on the nil bucket map exactly when no Send
      was past its unlocked check at that moment. */
  lemma DrainIsSafeIff(w: World)
    requires !w.crashed && w.core.stopped && w.core.buckets.None?
    ensures !CanCrash(w) <==> w.sending == multiset{}
  {
    if w.sending == multiset{} {
      forall ws: seq<World>, acts: seq<Action> | Run(ws, acts) && ws[0] == w
        ensures !ws[|acts|].crashed
      {
        DrainedStaysQuiet(ws, acts);
      }
    } else {
      var item :| item in w.sending;
      var ws, acts := [w, w.(crashed := true)], [Append(item)];
      assert Run(ws, acts) && ws[0] == w && ws[|acts|].crashed;
    }
  }

  // ---- The client ----

  /** The client with whole calls as steps, so that no Send is in flight when Close runs. */
  class Client {
    const maxBatch: nat
    var buckets: Option<Buckets>
    var stopped: bool
    /** The calls of flush, in the order their batches were taken. */
    var taken: seq<Batch>

    ghost predicate Valid()
      reads this
    {
      Sized(State()) && (buckets.None? ==> stopped)
    }

    ghost function State(): Core
      reads this
    {
      Core(maxBatch, buckets, stopped, taken)
    }

    /** What a stream has handed over and still holds, in order. */
    ghost function Seen(stream: string): seq<Event>
      reads this
    {
      TakenOf(taken, stream) + Buffered(State(), stream)
    }

    constructor (configured: int)
      ensures Valid() && State() == Start(configured).core
      ensures maxBatch == (if configured <= 0 then 100 else configured) && !stopped
    {
      maxBatch := MaxBatch(configured);
      buckets, stopped, taken := Some(map[]), false, [];
    }

    method Send(stream: string, event: Event, now: int)
      requires Valid()
      modifies this
      ensures Valid()
      ensures State() == if Accepts(old(State()), stream, event)
                         then AppendStep(old(State()), Item(stream, Stamped(event, now)))
                         else old(State())
      // an open client buffers exactly the stamped event, on its stream alone
      ensures !old(stopped) && stream != "" && event != map[] ==>
                forall s :: Seen(s) == old(Seen(s)) + (if s == stream then [Stamped(event, now)] else [])
      ensures old(stopped) || stream == "" || event == map[] ==> State() == old(State())
      ensures IsStamped(event, now, Stamped(event, now))
    {
      if stopped || stream == "" || event == map[] { return; }
      var stamped := event;
      if TIMESTAMP !in event { stamped := event[TIMESTAMP := Micros(now)]; }
      var b := buckets.value;
      var bucket := (if stream in b then b[stream] else []) + [stamped];
      if |bucket| >= maxBatch {
        buckets := Some(b[stream := []]);
        taken := taken + [Batch(stream, bucket, Sender)];
      } else {
        buckets := Some(b[stream := bucket]);
      }
      forall s ensures Seen(s) == old(Seen(s)) + (if s == stream then [stamped] else []) {
        AppendConservesStream(old(State()), Item(stream, stamped), s);
      }
    }

    /** Flush every non-empty bucket of a snapshot, visiting the streams in any order. */
    method FlushEach(snapshot: Buckets, taker: Taker) returns (ghost order: seq<string>)
      modifies this`taken
      ensures Visits(order, snapshot) && taken == old(taken) + Batches(snapshot, order, taker)
    {
      hide Batches;
      order := [];
      NoBatches(snapshot, taker);
      var left := snapshot.Keys;
      while left != {}
        invariant left <= snapshot.Keys
        invariant forall s :: s in order <==> s in snapshot && s !in left
        invariant forall i, j :: 0 <= i < j < |order| ==> order[i] != order[j]
        invariant taken == old(taken) + Batches(snapshot, order, taker)
        decreases |left|
      {
        var s :| s in left;
        BatchesOneMore(snapshot, order, s, taker);
        if snapshot[s] != [] { taken := taken + [Batch(s, snapshot[s], taker)]; }
        order, left := order + [s], left - {s};
      }
    }

    /** The flusher's tick, which may still come after Close has set `stopped`. */
    method FlushAll() returns (ghost order: seq<string>)
      requires Valid()
      modifies this
      ensures Valid() && Visits(order, Snapshot(old(State()))) && State() == FlushStep(old(State()), order)
    {
      var snapshot := if buckets.Some? then buckets.value else map[];
      buckets := Some(map[]);
      order := FlushEach(snapshot, Flusher);
      BatchesFit(snapshot, order, Flusher, maxBatch);
    }

    /** Closing drains the buckets once; closing again does nothing. `lateTick` says whether the
        flusher ticks once more before it sees the stop signal. */
    method Close(lateTick: bool) returns (ghost tick: seq<string>, ghost order: seq<string>)
      requires Valid()
      modifies this
      ensures Valid() && stopped
      ensures if old(stopped) then State() == old(State())
              else
                var open := old(State()).(stopped := true);
                var mid := if lateTick then FlushStep(open, tick) else open;
                && (lateTick ==> Visits(tick, Snapshot(open)))
                && Visits(order, Snapshot(mid)) && State() == DrainStep(mid, order)
      ensures !old(stopped) ==> forall s :: Buffered(State(), s) == []
    {
      tick, order := [], [];
      if stopped { return; }
      stopped := true;
      if lateTick { tick := FlushAll(); }
      var pending := buckets.value;
      buckets := None;
      order := FlushEach(pending, Closer);
      BatchesFit(pending, order, Closer, maxBatch);
    }
  }
}
