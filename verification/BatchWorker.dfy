/** `batch_worker`: turning the queue of submissions into batches. */
module BatchWorker {
  import opened LogTypes

  /** What wakes the worker: submissions in the channel at some time, or a passed deadline. */
  datatype Wake<T> = Arrive(now: nat, entries: seq<T>) | DeadlinePassed

  function Concat<T>(xss: seq<seq<T>>): seq<T> {
    if xss == [] then [] else Concat(xss[..|xss| - 1]) + xss[|xss| - 1]
  }

  /** Everything that ever enters the channel, in order. */
  function Arrivals<T>(script: seq<Wake<T>>): seq<T> {
    if script == [] then []
    else
      var last := script[|script| - 1];
      Arrivals(script[..|script| - 1]) + if last.Arrive? then last.entries else []
  }

  lemma ConcatSnoc<T>(xss: seq<seq<T>>, xs: seq<T>)
    ensures Concat(xss + [xs]) == Concat(xss) + xs
  {
    assert (xss + [xs])[..|xss|] == xss;
  }

  lemma Reassociate<T>(a: seq<T>, b: seq<T>, c: seq<T>)
    ensures a + b + c == a + (b + c)
  {}

  /** The worker's variables, and the batches handed to `flush_batch` so far. */
  datatype WorkerState<T> = WorkerState(pending: seq<T>, oldest: Option<nat>, flushed: seq<seq<T>>)

  /** A deadline is set exactly while submissions are pending, a full batch is never left pending,
      and no flushed batch is empty or too large. */
  predicate StateOk<T>(s: WorkerState<T>, max: nat) {
    && (s.oldest.Some? <==> s.pending != [])
    && (|s.pending| < max || s.pending == [])
    && (forall i | 0 <= i < |s.flushed| :: 1 <= |s.flushed[i]| <= (if max == 0 then 1 else max))
  }

  // ---------------------------------------------------------------- the worker as a function

  /** How many submissions one wake-up takes from the channel: the received one, and more while the
      batch has room. */
  function Taken(pending: nat, channel: nat, max: nat): (k: nat)
    requires channel > 0
    ensures 1 <= k <= channel
  {
    var room := if max > pending + 1 then max - pending - 1 else 0;
    if room < channel - 1 then 1 + room else channel
  }

  /** The pending batch is handed to `flush_batch`. */
  function Flushed<T>(s: WorkerState<T>): WorkerState<T> {
    WorkerState([], None, s.flushed + [s.pending])
  }

  /** The state after one received submission, and what is left in the channel. */
  function Received<T>(s: WorkerState<T>, now: nat, channel: seq<T>, max: nat): (WorkerState<T>, seq<T>)
    requires channel != []
  {
    var k := Taken(|s.pending|, |channel|, max);
    var t := WorkerState(s.pending + channel[..k], if s.pending == [] then Some(now) else s.oldest, s.flushed);
    (if |t.pending| >= max then Flushed(t) else t, channel[k..])
  }

  /** The state after everything in the channel has been received. */
  function Drained<T>(s: WorkerState<T>, now: nat, channel: seq<T>, max: nat): WorkerState<T>
    decreases |channel|
  {
    if channel == [] then s
    else var (t, rest) := Received(s, now, channel, max); Drained(t, now, rest, max)
  }

  /** The state after one wake-up. */
  function Woken<T>(s: WorkerState<T>, wake: Wake<T>, max: nat): WorkerState<T> {
    match wake
    case DeadlinePassed => if s.oldest.Some? then Flushed(s) else s
    case Arrive(now, entries) => Drained(s, now, entries, max)
  }

  /** The state after a whole script. */
  function After<T>(script: seq<Wake<T>>, max: nat): WorkerState<T> {
    if script == [] then WorkerState([], None, [])
    else Woken(After(script[..|script| - 1], max), script[|script| - 1], max)
  }

  /** The batches of a whole run, with the last one flushed when the channel closes. */
  function Batches<T>(script: seq<Wake<T>>, max: nat): seq<seq<T>> {
    var s := After(script, max);
    (if s.pending == [] then s else Flushed(s)).flushed
  }

  /** Everything the worker has taken so far, in order. */
  function Held<T>(s: WorkerState<T>): seq<T> { Concat(s.flushed) + s.pending }

  lemma FlushedHolds<T>(s: WorkerState<T>, max: nat)
    requires 1 <= |s.pending| <= (if max == 0 then 1 else max)
    requires forall i | 0 <= i < |s.flushed| :: 1 <= |s.flushed[i]| <= (if max == 0 then 1 else max)
    ensures StateOk(Flushed(s), max) && Held(Flushed(s)) == Held(s)
  {
    hide Concat;
    ConcatSnoc(s.flushed, s.pending);
  }

  /** Receiving loses nothing, keeps the order and leaves a good state. */
  lemma ReceivedHolds<T>(s: WorkerState<T>, now: nat, channel: seq<T>, max: nat)
    requires StateOk(s, max) && channel != []
    ensures var (t, rest) := Received(s, now, channel, max);
            StateOk(t, max) && Held(t) + rest == Held(s) + channel
  {
    hide Concat;
    var k := Taken(|s.pending|, |channel|, max);
    var t := WorkerState(s.pending + channel[..k], if s.pending == [] then Some(now) else s.oldest, s.flushed);
    assert channel[..k] + channel[k..] == channel;
    assert Held(t) + channel[k..] == Held(s) + channel by {
      Reassociate(Concat(s.flushed), s.pending, channel[..k]);
      Reassociate(Held(s), channel[..k], channel[k..]);
    }
    if |t.pending| >= max { FlushedHolds(t, max); }
  }

  lemma {:induction false} DrainedHolds<T>(s: WorkerState<T>, now: nat, channel: seq<T>, max: nat)
    requires StateOk(s, max)
    ensures StateOk(Drained(s, now, channel, max), max) && Held(Drained(s, now, channel, max)) == Held(s) + channel
    decreases |channel|
  {
    hide StateOk, Held, Taken;
    if channel != [] {
      ReceivedHolds(s, now, channel, max);
      var (t, rest) := Received(s, now, channel, max);
      DrainedHolds(t, now, rest, max);
    }
  }

  lemma NothingHeld<T>()
    ensures Held<T>(WorkerState([], None, [])) == []
  {}

  lemma {:induction false} AfterHolds<T>(script: seq<Wake<T>>, max: nat)
    ensures StateOk(After(script, max), max) && Held(After(script, max)) == Arrivals(script)
  {
    hide Concat, Drained;
    if script != [] {
      var front, last := script[..|script| - 1], script[|script| - 1];
      AfterHolds(front, max);
      var s := After(front, max);
      match last
      case DeadlinePassed => if s.oldest.Some? { FlushedHolds(s, max); }
      case Arrive(now, entries) => DrainedHolds(s, now, entries, max);
    } else {
      NothingHeld<T>();
    }
  }

  /** Every submission lands in exactly one batch, in arrival order; no batch is empty or too large. */
  lemma BatchesConserve<T>(script: seq<Wake<T>>, max: nat)
    ensures Concat(Batches(script, max)) == Arrivals(script)
    ensures forall i | 0 <= i < |Batches(script, max)| ::
              1 <= |Batches(script, max)[i]| <= (if max == 0 then 1 else max)
  {
    hide Concat, After, Arrivals;
    AfterHolds(script, max);
    var s := After(script, max);
    if s.pending != [] { FlushedHolds(s, max); }
  }

  // ---------------------------------------------------------------- when batches are flushed

  /** The same state after earlier batches. */
  function Behind<T>(earlier: seq<seq<T>>, s: WorkerState<T>): WorkerState<T> {
    s.(flushed := earlier + s.flushed)
  }

  lemma ReceivedBehind<T>(earlier: seq<seq<T>>, s: WorkerState<T>, now: nat, channel: seq<T>, max: nat)
    requires channel != []
    ensures var (t, rest) := Received(s, now, channel, max);
            Received(Behind(earlier, s), now, channel, max) == (Behind(earlier, t), rest)
  {
    hide Taken;
    var pending := s.pending + channel[..Taken(|s.pending|, |channel|, max)];
    assert earlier + s.flushed + [pending] == earlier + (s.flushed + [pending]);
  }

  lemma {:induction false} DrainedBehind<T>(earlier: seq<seq<T>>, s: WorkerState<T>, now: nat, channel: seq<T>, max: nat)
    ensures Drained(Behind(earlier, s), now, channel, max) == Behind(earlier, Drained(s, now, channel, max))
    decreases |channel|
  {
    hide Received, Behind;
    if channel != [] {
      ReceivedBehind(earlier, s, now, channel, max);
      var (t, rest) := Received(s, now, channel, max);
      ReceivedLess(s, now, channel, max);
      DrainedBehind(earlier, t, now, rest, max);
    }
  }

  lemma ReceivedLess<T>(s: WorkerState<T>, now: nat, channel: seq<T>, max: nat)
    requires channel != []
    ensures |Received(s, now, channel, max).1| < |channel|
  {}

  /** After a passed deadline the worker goes on as from its start. */
  lemma {:induction false} DeadlineResets<T>(s: seq<Wake<T>>, t: seq<Wake<T>>, max: nat)
    ensures After(s + [DeadlinePassed] + t, max) == Behind(Batches(s, max), After(t, max))
    decreases |t|
  {
    hide Drained, Received, Concat;
    var script := s + [DeadlinePassed] + t;
    if t == [] {
      assert script[..|script| - 1] == s;
      AfterHolds(s, max);
    } else {
      var front, last := t[..|t| - 1], t[|t| - 1];
      assert script[..|script| - 1] == s + [DeadlinePassed] + front;
      DeadlineResets(s, front, max);
      if last.Arrive? { DrainedBehind(Batches(s, max), After(front, max), last.now, last.entries, max); }
    }
  }

  /** A passed deadline cuts the run: what came before is flushed, what comes after starts a new batch. */
  lemma DeadlineFlushes<T>(s: seq<Wake<T>>, t: seq<Wake<T>>, max: nat)
    ensures Batches(s + [DeadlinePassed] + t, max) == Batches(s, max) + Batches(t, max)
  {
    hide After;
    DeadlineResets(s, t, max);
  }

  predicate OnlyFull<T>(s: WorkerState<T>, max: nat) {
    forall i | 0 <= i < |s.flushed| :: |s.flushed[i]| == if max == 0 then 1 else max
  }

  lemma {:induction false} DrainedFull<T>(s: WorkerState<T>, now: nat, channel: seq<T>, max: nat)
    requires StateOk(s, max) && OnlyFull(s, max)
    ensures OnlyFull(Drained(s, now, channel, max), max)
    decreases |channel|
  {
    if channel != [] {
      ReceivedHolds(s, now, channel, max);
      var (t, rest) := Received(s, now, channel, max);
      DrainedFull(t, now, rest, max);
    }
  }

  lemma {:induction false} AfterFull<T>(script: seq<Wake<T>>, max: nat)
    requires forall w <- script :: w.Arrive?
    ensures OnlyFull(After(script, max), max)
  {
    hide Drained, OnlyFull;
    if script != [] {
      var front, last := script[..|script| - 1], script[|script| - 1];
      AfterFull(front, max);
      AfterHolds(front, max);
      DrainedFull(After(front, max), last.now, last.entries, max);
    } else {
      NothingFlushed<T>(max);
    }
  }

  lemma NothingFlushed<T>(max: nat)
    ensures OnlyFull<T>(WorkerState([], None, []), max)
  {}

  /** Without a passed deadline only full batches are flushed, but for the last one at exit. */
  lemma FullUntilExit<T>(script: seq<Wake<T>>, max: nat)
    requires forall w <- script :: w.Arrive?
    ensures forall i | 0 <= i < |Batches(script, max)| - 1 :: |Batches(script, max)[i]| == if max == 0 then 1 else max
  {
    hide After;
    AfterFull(script, max);
  }

  lemma {:induction false} DrainedOldest<T>(s: WorkerState<T>, now: nat, channel: seq<T>, max: nat)
    requires StateOk(s, max)
    ensures var t := Drained(s, now, channel, max);
            t.pending != [] ==>
              (s.pending != [] && t.flushed == s.flushed && t.oldest == s.oldest)
              || (t.oldest == Some(now) && |Concat(t.flushed)| >= |Held(s)|)
              || (channel == [] && t == s)
    decreases |channel|
  {
    hide Concat;
    if channel != [] {
      ReceivedHolds(s, now, channel, max);
      var (t, rest) := Received(s, now, channel, max);
      DrainedOldest(t, now, rest, max);
      ReceivedOldest(s, now, channel, max);
    }
  }

  lemma ReceivedOldest<T>(s: WorkerState<T>, now: nat, channel: seq<T>, max: nat)
    requires StateOk(s, max) && channel != []
    ensures var (t, rest) := Received(s, now, channel, max);
            |Held(t)| >= |Held(s)|
            && (t.pending != [] ==>
                  t.flushed == s.flushed && t.oldest == if s.pending == [] then Some(now) else s.oldest)
            && (t.pending == [] ==> |Concat(t.flushed)| >= |Held(s)|)
  {
    hide Concat;
    ReceivedHolds(s, now, channel, max);
    var k := Taken(|s.pending|, |channel|, max);
    ConcatSnoc(s.flushed, s.pending + channel[..k]);
  }

  /** The deadline counts from the arrival of the oldest pending submission. */
  lemma {:induction false} DeadlineIsOldest<T>(script: seq<Wake<T>>, max: nat)
    ensures var s := After(script, max);
            s.pending != [] ==>
              exists k: nat :: k < |script| && script[k].Arrive? && s.oldest == Some(script[k].now)
                && |Arrivals(script[..k])| <= |Concat(s.flushed)| < |Arrivals(script[..k + 1])|
  {
    hide Concat, Drained;
    if script != [] {
      var front, last := script[..|script| - 1], script[|script| - 1];
      var r, s := After(front, max), After(script, max);
      DeadlineIsOldest(front, max);
      AfterHolds(front, max);
      AfterHolds(script, max);
      if s.pending != [] && last.Arrive? {
        DrainedOldest(r, last.now, last.entries, max);
        if r.pending != [] && s.flushed == r.flushed && s.oldest == r.oldest {
          var k: nat :| k < |front| && front[k].Arrive? && r.oldest == Some(front[k].now)
                        && |Arrivals(front[..k])| <= |Concat(r.flushed)| < |Arrivals(front[..k + 1])|;
          assert script[..k] == front[..k] && script[..k + 1] == front[..k + 1];
        } else {
          var k := |script| - 1;
          assert script[..k] == front && script[..k + 1] == script;
        }
      }
    }
  }

  // ---------------------------------------------------------------- the worker

  /** The branch after `recv` returned a submission: start a batch if there is none, drain the
      channel up to the batch size, and flush if the batch is full. */
  method Receive<T>(s: WorkerState<T>, now: nat, channel: seq<T>, max: nat)
    returns (t: WorkerState<T>, rest: seq<T>)
    requires channel != []
    ensures (t, rest) == Received(s, now, channel, max)
  {
    var pending, oldest, flushed := s.pending, s.oldest, s.flushed;
    if pending == [] {
      oldest := Some(now);
    }
    pending := pending + [channel[0]];
    rest := channel[1..];
    ghost var k := 1;
    while |pending| < max && rest != []
      invariant 1 <= k <= Taken(|s.pending|, |channel|, max)
      invariant pending == s.pending + channel[..k] && rest == channel[k..]
      decreases |rest|
    {
      pending := pending + [rest[0]];
      rest := rest[1..];
      k := k + 1;
    }
    if |pending| >= max {
      flushed := flushed + [pending];
      pending := [];
      oldest := None;
    }
    t := WorkerState(pending, oldest, flushed);
  }

  /** `batch_worker`, from its start until the channel is closed after the last wake-up. */
  method Run<T>(script: seq<Wake<T>>, max: nat) returns (flushed: seq<seq<T>>)
    ensures flushed == Batches(script, max)
    ensures Concat(flushed) == Arrivals(script)
    ensures forall i | 0 <= i < |flushed| :: 1 <= |flushed[i]| <= (if max == 0 then 1 else max)
  {
    hide Concat, Received, Arrivals;
    BatchesConserve(script, max);
    var s: WorkerState<T> := WorkerState([], None, []);
    for i := 0 to |script|
      invariant s == After(script[..i], max)
    {
      assert script[..i + 1][..i] == script[..i];
      match script[i]
      case DeadlinePassed =>
        if s.oldest.Some? {
          s := WorkerState([], None, s.flushed + [s.pending]);
        }
      case Arrive(now, entries) =>
        s := DrainChannel(s, now, entries, max);
    }
    assert script[..|script|] == script;
    if s.pending != [] {
      s := WorkerState([], None, s.flushed + [s.pending]);
    }
    flushed := s.flushed;
  }

  /** Received submissions one after the other while the channel holds some. */
  method DrainChannel<T>(s: WorkerState<T>, now: nat, entries: seq<T>, max: nat) returns (t: WorkerState<T>)
    ensures t == Drained(s, now, entries, max)
  {
    hide Taken;
    t := s;
    var channel := entries;
    while channel != []
      invariant Drained(t, now, channel, max) == Drained(s, now, entries, max)
      decreases |channel|
    {
      t, channel := Receive(t, now, channel, max);
    }
  }
}
