/** Batching workers: a bounded channel filled without blocking, a batch, and a store. */
module Workers {
  import opened Sequences
  import opened Wrappers
  import opened Folding

  function Flat<U>(calls: seq<seq<U>>): seq<U> {
    if calls == [] then [] else Flat(calls[..|calls| - 1]) + calls[|calls| - 1]
  }

  /** One conversion of a record; it may fail, and need not give the same every time. */
  type Converter<!T, !U> = T -> Option<U>

  function Converted<T, U>(rec: T, convert: Converter<T, U>): seq<U> {
    match convert(rec) case None => [] case Some(u) => [u]
  }

  /** What the records become, each under its own conversion; a failed conversion leaves nothing. */
  function Kept<T, U>(recs: seq<T>, converters: seq<Converter<T, U>>): seq<U>
    requires |recs| == |converters|
  {
    if recs == [] then []
    else Kept(recs[..|recs| - 1], converters[..|recs| - 1]) + Converted(recs[|recs| - 1], converters[|recs| - 1])
  }

  lemma FlatSnoc<U>(calls: seq<seq<U>>, call: seq<U>)
    ensures Flat(calls + [call]) == Flat(calls) + call
  {
    assert (calls + [call])[..|calls|] == calls;
  }

  lemma KeptSnoc<T, U>(recs: seq<T>, converters: seq<Converter<T, U>>, rec: T, convert: Converter<T, U>)
    requires |recs| == |converters|
    ensures Kept(recs + [rec], converters + [convert]) == Kept(recs, converters) + Converted(rec, convert)
  {
    assert (recs + [rec])[..|recs|] == recs && (converters + [convert])[..|recs|] == converters;
  }

  /** Conversions that keep every record lose nothing. */
  lemma {:induction false} KeptAll<T>(recs: seq<T>, converters: seq<Converter<T, T>>)
    requires |recs| == |converters| && forall i :: 0 <= i < |recs| ==> converters[i](recs[i]) == Some(recs[i])
    ensures Kept(recs, converters) == recs
    decreases |recs|
  {
    if recs != [] {
      var n := |recs| - 1;
      KeptAll(recs[..n], converters[..n]);
      assert recs == recs[..n] + [recs[n]];
    }
  }

  // ---------- one worker, as values ----------

  /** A worker with the records it has accepted so far and the conversions of those it received. */
  datatype Worker<!T, !U> = Worker(
    accepted: seq<T>, converters: seq<Converter<T, U>>, channel: seq<T>, batch: seq<U>, calls: seq<seq<U>>,
    running: bool)

  /** What may happen while a worker runs. Without capacity a record is sent only by handing it to
      a worker that is `waiting` for one, which converts it then and there. */
  datatype Event<!T, !U> =
    | Sent(rec: T, waiting: bool, convert: Converter<T, U>)
    | Received(convert: Converter<T, U>)
    | Ticked
    | Cancelled

  function Most(capacity: nat): nat {
    if capacity == 0 then 1 else capacity
  }

  /** The calls after the batch was flushed, unless it was empty. */
  function Flushed<U>(calls: seq<seq<U>>, batch: seq<U>): seq<seq<U>> {
    if batch == [] then calls else calls + [batch]
  }

  /** Calls and batch after one more conversion: a batch that reaches the capacity is flushed. */
  function Taken<U>(calls: seq<seq<U>>, batch: seq<U>, o: Option<U>, capacity: nat): (seq<seq<U>>, seq<U>) {
    if o.None? then (calls, batch)
    else
      var full := batch + [o.value];
      if |full| >= capacity then (calls + [full], []) else (calls, full)
  }

  /** The worker after it received a record that is no longer in the channel. */
  function Receiving<T, U>(w: Worker<T, U>, rec: T, convert: Converter<T, U>, capacity: nat): Worker<T, U> {
    var (calls, batch) := Taken(w.calls, w.batch, convert(rec), capacity);
    w.(converters := w.converters + [convert], calls := calls, batch := batch)
  }

  /** What one event makes of a running worker. */
  function Stepped<T, U>(w: Worker<T, U>, e: Event<T, U>, capacity: nat): Worker<T, U> {
    match e
    case Sent(rec, waiting, convert) =>
      if |w.channel| < capacity then w.(accepted := w.accepted + [rec], channel := w.channel + [rec])
      else if capacity == 0 && waiting then
        Receiving(w.(accepted := w.accepted + [rec]), rec, convert, capacity)
      else w
    case Received(convert) =>
      if w.channel == [] then w
      else Receiving(w.(channel := w.channel[1..]), w.channel[0], convert, capacity)
    case Ticked => w.(calls := Flushed(w.calls, w.batch), batch := [])
    case Cancelled => w.(calls := Flushed(w.calls, w.batch), batch := [], running := false)
  }

  /** What a list of events makes of it, up to the first cancellation. */
  function Ran<T, U>(w: Worker<T, U>, events: seq<Event<T, U>>, capacity: nat): Worker<T, U>
    decreases |events|
  {
    if events == [] || !w.running then w else Ran(Stepped(w, events[0], capacity), events[1..], capacity)
  }

  function Idle<T, U>(): Worker<T, U> {
    Worker([], [], [], [], [], true)
  }

  ghost predicate Bounded<U>(calls: seq<seq<U>>, most: nat) {
    forall i :: 0 <= i < |calls| ==> 1 <= |calls[i]| <= most
  }

  /** Records are neither lost, nor doubled, nor reordered: the accepted ones are those received,
      one per conversion, followed by the channel; and what the received ones were converted to is
      what was handed to the store, followed by the batch. */
  ghost predicate Conserved<T, U>(w: Worker<T, U>) {
    |w.converters| <= |w.accepted| &&
    w.accepted == w.accepted[..|w.converters|] + w.channel &&
    Flat(w.calls) + w.batch == Kept(w.accepted[..|w.converters|], w.converters)
  }

  /** The invariant, kept folded; between two events the batch is below its bound. */
  ghost predicate Balanced<T, U>(w: Worker<T, U>, capacity: nat) {
    forall n :: Unfold(n) ==>
      Conserved(w) && |w.channel| <= capacity && |w.batch| < Most(capacity) && Bounded(w.calls, Most(capacity))
  }

  lemma BalancedIdle<T, U>(capacity: nat)
    ensures Balanced<T, U>(Idle(), capacity)
  {
  }

  lemma TakenKeeps<U>(calls: seq<seq<U>>, batch: seq<U>, o: Option<U>, capacity: nat)
    requires |batch| < Most(capacity) && Bounded(calls, Most(capacity))
    ensures var (calls', batch') := Taken(calls, batch, o, capacity);
      |batch'| < Most(capacity) && Bounded(calls', Most(capacity)) &&
      Flat(calls') + batch' == Flat(calls) + batch + match o case None => [] case Some(u) => [u]
  {
    if o.Some? {
      Assoc(Flat(calls), batch, [o.value]);
      FlatSnoc(calls, batch + [o.value]);
    }
  }

  /** Receiving the first record that is still to come. */
  lemma ReceivingConserves<T, U>(w: Worker<T, U>, rec: T, convert: Converter<T, U>, capacity: nat)
    requires |w.converters| < |w.accepted| && w.accepted[|w.converters|] == rec
    requires w.accepted[|w.converters| + 1..] == w.channel
    requires Flat(w.calls) + w.batch == Kept(w.accepted[..|w.converters|], w.converters)
    requires |w.channel| <= capacity && |w.batch| < Most(capacity) && Bounded(w.calls, Most(capacity))
    ensures Balanced(Receiving(w, rec, convert, capacity), capacity)
  {
    var n := |w.converters|;
    TakenKeeps(w.calls, w.batch, convert(rec), capacity);
    KeptSnoc(w.accepted[..n], w.converters, rec, convert);
    assert w.accepted[..n + 1] == w.accepted[..n] + [rec];
    assert w.accepted == w.accepted[..n + 1] + w.accepted[n + 1..];
  }

  lemma FlushedConserves<T, U>(w: Worker<T, U>, running: bool, capacity: nat)
    requires Balanced(w, capacity)
    ensures Balanced(w.(calls := Flushed(w.calls, w.batch), batch := [], running := running), capacity)
  {
    assert Unfold(0);
    FlatSnoc(w.calls, w.batch);
  }

  lemma AcceptedConserves<T, U>(w: Worker<T, U>, rec: T, capacity: nat)
    requires Balanced(w, capacity) && |w.channel| < capacity
    ensures Balanced(w.(accepted := w.accepted + [rec], channel := w.channel + [rec]), capacity)
  {
    assert Unfold(0);
    assert (w.accepted + [rec])[..|w.converters|] == w.accepted[..|w.converters|];
    Assoc(w.accepted[..|w.converters|], w.channel, [rec]);
  }

  /** Every event keeps the balance. */
  lemma StepConserves<T, U>(w: Worker<T, U>, e: Event<T, U>, capacity: nat)
    requires Balanced(w, capacity)
    ensures Balanced(Stepped(w, e, capacity), capacity)
  {
    var n := |w.converters|;
    match e
    case Sent(rec, waiting, convert) =>
      if |w.channel| < capacity {
        AcceptedConserves(w, rec, capacity);
      } else if capacity == 0 && waiting {
        assert Unfold(0);
        assert w.channel == [] && w.accepted == w.accepted[..n];
        assert (w.accepted + [rec])[..n] == w.accepted[..n] && (w.accepted + [rec])[n + 1..] == [];
        ReceivingConserves(w.(accepted := w.accepted + [rec]), rec, convert, capacity);
      }
    case Received(convert) =>
      if w.channel != [] {
        assert Unfold(0);
        assert w.accepted[n..] == w.channel && w.accepted[n + 1..] == w.channel[1..];
        ReceivingConserves(w.(channel := w.channel[1..]), w.channel[0], convert, capacity);
      }
    case Ticked => FlushedConserves(w, w.running, capacity);
    case Cancelled => FlushedConserves(w, false, capacity);
  }

  /** What each event does to a worker: a sent record is accepted with room, a received one leaves the
      channel and is converted, and a full batch, a tick or a cancellation empties the batch into the
      store. */
  lemma StepExact<T, U>(w: Worker<T, U>, e: Event<T, U>, capacity: nat)
    requires |w.batch| < Most(capacity)
    ensures var w' := Stepped(w, e, capacity);
      (w'.running <==> w.running && !e.Cancelled?) &&
      match e
      case Sent(rec, waiting, convert) =>
        if |w.channel| < capacity then w' == w.(accepted := w.accepted + [rec], channel := w.channel + [rec])
        else if capacity == 0 && waiting then
          w'.accepted == w.accepted + [rec] && w'.channel == w.channel && Converting(w, w', rec, convert, capacity)
        else w' == w
      case Received(convert) =>
        w'.accepted == w.accepted &&
        if w.channel == [] then w' == w
        else w'.channel == w.channel[1..] && Converting(w, w', w.channel[0], convert, capacity)
      case _ =>
        w'.batch == [] && Flat(w'.calls) == Flat(w.calls) + w.batch && w'.accepted == w.accepted &&
        w'.channel == w.channel && w'.converters == w.converters
  {
    FlatSnoc(w.calls, w.batch);
    match e
    case Sent(rec, _, convert) => ConvertingSteps(w.(accepted := w.accepted + [rec]), rec, convert, capacity);
    case Received(convert) =>
      if w.channel != [] {
        ConvertingSteps(w.(channel := w.channel[1..]), w.channel[0], convert, capacity);
      }
    case _ =>
  }

  /** One conversion more: what it gave comes last, in the batch or, when that is full, in the store. */
  ghost predicate Converting<T, U>(w: Worker<T, U>, w': Worker<T, U>, rec: T, convert: Converter<T, U>, capacity: nat) {
    w'.converters == w.converters + [convert] &&
    match convert(rec)
    case None => w'.batch == w.batch && w'.calls == w.calls
    case Some(u) =>
      Flat(w'.calls) + w'.batch == Flat(w.calls) + w.batch + [u] &&
      |w'.batch| == if |w.batch| + 1 >= capacity then 0 else |w.batch| + 1
  }

  lemma ConvertingSteps<T, U>(w: Worker<T, U>, rec: T, convert: Converter<T, U>, capacity: nat)
    ensures Converting(w, Receiving(w, rec, convert, capacity), rec, convert, capacity)
  {
    match convert(rec)
    case None =>
    case Some(u) =>
      Assoc(Flat(w.calls), w.batch, [u]);
      FlatSnoc(w.calls, w.batch + [u]);
  }

  lemma {:induction false} RunConserves<T, U>(w: Worker<T, U>, events: seq<Event<T, U>>, capacity: nat)
    requires Balanced(w, capacity)
    ensures Balanced(Ran(w, events, capacity), capacity)
    decreases |events|
  {
    if events != [] && w.running {
      StepConserves(w, events[0], capacity);
      RunConserves(Stepped(w, events[0], capacity), events[1..], capacity);
    }
  }

  /** Whatever happens to a worker: it conserves its records, in order, and no batch is too large. */
  lemma EveryRunConserves<T, U>(events: seq<Event<T, U>>, capacity: nat)
    ensures var w, most := Ran(Idle<T, U>(), events, capacity), if capacity == 0 then 1 else capacity;
      Conserved(w) && |w.channel| <= capacity && |w.batch| < most &&
      forall i :: 0 <= i < |w.calls| ==> 1 <= |w.calls[i]| <= most
  {
    BalancedIdle<T, U>(capacity);
    RunConserves(Idle<T, U>(), events, capacity);
    assert Unfold(0);
  }

  /** The conversions of the events keep every record, as in the analytics worker. */
  ghost predicate Keeping<T(!new)>(events: seq<Event<T, T>>) {
    forall i :: 0 <= i < |events| ==>
      match events[i]
      case Sent(_, _, convert) => forall r :: convert(r) == Some(r)
      case Received(convert) => forall r :: convert(r) == Some(r)
      case _ => true
  }

  ghost predicate KeepsAll<T(!new)>(converters: seq<Converter<T, T>>) {
    forall i, r :: 0 <= i < |converters| ==> converters[i](r) == Some(r)
  }

  lemma {:induction false} RunKeepsAll<T(!new)>(w: Worker<T, T>, events: seq<Event<T, T>>, capacity: nat)
    requires Keeping(events) && KeepsAll(w.converters)
    ensures KeepsAll(Ran(w, events, capacity).converters)
    decreases |events|
  {
    if events != [] && w.running {
      var e := events[0];
      assert e.Sent? || e.Received? ==> forall r :: e.convert(r) == Some(r);
      var next := Stepped(w, e, capacity);
      assert next.converters == w.converters ||
             ((e.Sent? || e.Received?) && next.converters == w.converters + [e.convert]);
      RunKeepsAll(next, events[1..], capacity);
    }
  }

  /** The analytics worker: at every moment of every run the accepted records are those handed to the
      store, then the batch, then the channel. */
  lemma NothingLost<T(!new)>(events: seq<Event<T, T>>, capacity: nat)
    requires Keeping(events)
    ensures var w := Ran(Idle<T, T>(), events, capacity);
      w.accepted == Flat(w.calls) + w.batch + w.channel
  {
    var w := Ran(Idle<T, T>(), events, capacity);
    EveryRunConserves(events, capacity);
    RunKeepsAll(Idle<T, T>(), events, capacity);
    KeptAll(w.accepted[..|w.converters|], w.converters);
  }

  /** A worker that ran stops exactly when some event cancels it; it then has handed over everything
      it converted, and takes back nothing it accepted or handed over. */
  lemma {:induction false} StopsWhenCancelled<T, U>(w: Worker<T, U>, events: seq<Event<T, U>>, capacity: nat)
    requires w.running
    ensures Ran(w, events, capacity).running <==> forall i :: 0 <= i < |events| ==> !events[i].Cancelled?
    ensures !Ran(w, events, capacity).running ==> Ran(w, events, capacity).batch == []
    ensures w.accepted <= Ran(w, events, capacity).accepted && w.calls <= Ran(w, events, capacity).calls
    decreases |events|
  {
    if events != [] {
      var next := Stepped(w, events[0], capacity);
      assert w.accepted <= next.accepted && w.calls <= next.calls;
      assert forall i :: 0 <= i < |events[1..]| ==> events[1..][i] == events[i + 1];
      assert forall i :: 0 < i < |events| ==> events[i] == events[1..][i - 1];
      if next.running {
        StopsWhenCancelled(next, events[1..], capacity);
      }
    }
  }

  /** After `i` events, worker `w` is on the way from `start` to where all events lead. */
  ghost predicate OnTrack<T, U>(start: Worker<T, U>, w: Worker<T, U>, events: seq<Event<T, U>>, i: nat, capacity: nat) {
    forall n :: Unfold(n) ==> i <= |events| && Ran(w, events[i..], capacity) == Ran(start, events, capacity)
  }

  lemma TrackStart<T, U>(start: Worker<T, U>, events: seq<Event<T, U>>, capacity: nat)
    ensures OnTrack(start, start, events, 0, capacity)
  {
    assert events[0..] == events;
  }

  lemma TrackStep<T, U>(start: Worker<T, U>, w: Worker<T, U>, events: seq<Event<T, U>>, i: nat, capacity: nat)
    requires OnTrack(start, w, events, i, capacity) && i < |events| && w.running
    ensures OnTrack(start, Stepped(w, events[i], capacity), events, i + 1, capacity)
  {
    assert Unfold(0);
    assert events[i..][1..] == events[i + 1..];
  }

  lemma TrackEnd<T, U>(start: Worker<T, U>, w: Worker<T, U>, events: seq<Event<T, U>>, i: nat, capacity: nat)
    requires OnTrack(start, w, events, i, capacity) && (i == |events| || !w.running)
    ensures w == Ran(start, events, capacity)
  {
    assert Unfold(0);
  }

  // ---------- the worker's own code ----------

  class AsyncWorker<!T, !U> {
    const capacity: nat
    var channel: seq<T>
    var batch: seq<U>
    /** The batches handed to the store, whether or not the store took them. */
    var calls: seq<seq<U>>
    var running: bool
    /** The records accepted by `Send`, and the conversions of those that were received. */
    ghost var accepted: seq<T>
    ghost var converters: seq<Converter<T, U>>

    ghost function Now(): Worker<T, U>
      reads this
    {
      Worker(accepted, converters, channel, batch, calls, running)
    }

    ghost predicate Valid()
      reads this
    {
      Balanced(Now(), capacity)
    }

    constructor (capacity: nat)
      ensures Valid() && this.capacity == capacity && Now() == Idle()
    {
      this.capacity := capacity;
      channel, batch, calls, running, accepted, converters := [], [], [], true, [], [];
      new;
      BalancedIdle<T, U>(capacity);
    }

    /** Hands the batch to the store unless it is empty. */
    method Flush()
      modifies this`batch, this`calls
      ensures batch == [] && calls == Flushed(old(calls), old(batch))
    {
      if batch == [] {
        return;
      }
      calls := calls + [batch];
      batch := [];
    }

    /** One received record: converted, batched, and flushed with its batch when that is full. */
    method Receive(rec: T, convert: Converter<T, U>)
      modifies this`batch, this`calls, this`converters
      ensures Now() == Receiving(old(Now()), rec, convert, capacity)
    {
      converters := converters + [convert];
      var log := convert(rec);
      if log.None? {
        return;
      }
      batch := batch + [log.value];
      if |batch| >= capacity {
        Flush();
      }
    }

    /** Never blocks: a full channel drops the record. */
    method Send(rec: T, waiting: bool, convert: Converter<T, U>) returns (taken: bool)
      requires Valid()
      modifies this
      ensures Valid() && Now() == Stepped(old(Now()), Sent(rec, running && waiting, convert), capacity)
      ensures taken <==> |old(channel)| < capacity || (capacity == 0 && running && waiting)
      ensures accepted == if taken then old(accepted) + [rec] else old(accepted)
    {
      StepConserves(Now(), Sent(rec, running && waiting, convert), capacity);
      if |channel| < capacity {
        channel, accepted := channel + [rec], accepted + [rec];
        return true;
      }
      if capacity == 0 && running && waiting {
        accepted := accepted + [rec];
        Receive(rec, convert);
        return true;
      }
      return false;
    }

    /** One turn of the worker's loop; only a cancelled worker stops, leaving the channel as it is. */
    method Turn(e: Event<T, U>)
      requires Valid() && running && !e.Sent?
      modifies this
      ensures Valid() && Now() == Stepped(old(Now()), e, capacity)
    {
      StepConserves(Now(), e, capacity);
      match e
      case Received(convert) =>
        if channel != [] {
          var rec := channel[0];
          channel := channel[1..];
          Receive(rec, convert);
        }
      case Ticked =>
        Flush();
      case Cancelled =>
        Flush();
        running := false;
    }

    /** A whole run, senders and loop interleaved in any way, up to the first cancellation. */
    method Run(events: seq<Event<T, U>>)
      requires Valid() && running
      modifies this
      ensures Valid() && Now() == Ran(old(Now()), events, capacity) && Conserved(Now())
    {
      TrackStart(Now(), events, capacity);
      for i := 0 to |events|
        invariant Valid() && running && OnTrack(old(Now()), Now(), events, i, capacity)
      {
        TrackStep(old(Now()), Now(), events, i, capacity);
        if events[i].Sent? {
          var _ := Send(events[i].rec, events[i].waiting, events[i].convert);
        } else {
          Turn(events[i]);
          if !running {
            TrackEnd(old(Now()), Now(), events, i + 1, capacity);
            assert Unfold(0);
            return;
          }
        }
      }
      TrackEnd(old(Now()), Now(), events, |events|, capacity);
      assert Unfold(0);
    }
  }

  // ---------- the audit log ----------

  datatype WriteResult = Written | ContextDone | BufferFull

  /** Audit entries: written without blocking, inserted by a loop that drains the channel. */
  class AuditLogStore<T> {
    const capacity: nat
    var channel: seq<T>
    /** The entries handed to the insert statement, in order. */
    var inserted: seq<T>
    ghost var accepted: seq<T>

    /** No entry is lost, doubled or reordered. */
    ghost predicate Valid()
      reads this
    {
      accepted == inserted + channel && |channel| <= capacity
    }

    constructor (capacity: nat)
      ensures Valid() && this.capacity == capacity && accepted == []
    {
      this.capacity := capacity;
      channel, inserted, accepted := [], [], [];
    }

    /** Room in the channel and an ended context may race; `prefers` settles it. */
    method Write(entry: T, ended: bool, prefers: bool) returns (r: WriteResult)
      requires |channel| <= capacity
      modifies this`channel, this`accepted
      ensures r.Written? <==> |old(channel)| < capacity && !(ended && prefers)
      ensures r.BufferFull? <==> |old(channel)| >= capacity && !ended
      ensures if r.Written? then channel == old(channel) + [entry] && accepted == old(accepted) + [entry]
              else channel == old(channel) && accepted == old(accepted)
    {
      if |channel| < capacity && !(ended && prefers) {
        channel, accepted := channel + [entry], accepted + [entry];
        return Written;
      }
      return if ended then ContextDone else BufferFull;
    }

    /** The writes that come in between two looks at the channel. */
    method Arrive(entries: seq<T>)
      requires |channel| <= capacity
      modifies this`channel, this`accepted
      ensures |channel| <= capacity && exists more :: channel == old(channel) + more && accepted == old(accepted) + more
    {
      ghost var more := [];
      for i := 0 to |entries|
        invariant |channel| <= capacity && channel == old(channel) + more && accepted == old(accepted) + more
      {
        var r := Write(entries[i], false, false);
        more := if r.Written? then more + [entries[i]] else more;
      }
    }

    method InsertBatch(entries: seq<T>)
      modifies this`inserted
      ensures inserted == old(inserted) + entries
    {
      for i := 0 to |entries|
        invariant inserted == old(inserted) + entries[..i]
      {
        inserted := inserted + [entries[i]];
      }
    }

    /** Takes entries until the channel is empty, inserts them, and looks again, while writers go on
        for `arrivals` looks. It ends, and by then has inserted everything accepted so far. */
    method Flush(arrivals: seq<seq<T>>)
      requires Valid()
      modifies this
      ensures Valid() && channel == [] && inserted == accepted
      ensures old(accepted) <= accepted
      ensures arrivals == [] ==> accepted == old(accepted)
    {
      var batch, i := [], 0;
      while true
        invariant i <= |arrivals| && |channel| <= capacity
        invariant accepted == inserted + batch + channel
        invariant old(accepted) <= accepted && (arrivals == [] ==> accepted == old(accepted))
        decreases |arrivals| - i, |channel|, |batch|
      {
        if i < |arrivals| {
          Arrive(arrivals[i]);
          i := i + 1;
        }
        if channel != [] {
          batch, channel := batch + [channel[0]], channel[1..];
        } else if batch == [] {
          return;
        } else {
          InsertBatch(batch);
          batch := [];
        }
      }
    }

    /** Shutting down lets the loop do some more rounds, then a last one. Every entry accepted before
        is handed to the insert exactly once and in order. */
    method Shutdown(rounds: seq<seq<seq<T>>>, last: seq<seq<T>>)
      requires Valid()
      modifies this
      ensures Valid() && channel == [] && inserted == accepted && old(accepted) <= inserted
    {
      for i := 0 to |rounds|
        invariant Valid() && old(accepted) <= accepted
      {
        Flush(rounds[i]);
      }
      Flush(last);
    }
  }
}
