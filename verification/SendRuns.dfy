/**
 All interleavings on one WebSocket connection: any number of message handlers calling
 safeSend, broadcasts, the reader that closes, and the writer.

 An action that cannot happen in a state changes nothing, and after a send on the closed
 channel, which ends the process, nothing changes any more.
 */
module SendRuns {
  import opened Fnv
  import opened Framing
  import opened SendQueue
  import opened Wrappers

  datatype Source = Call(id: nat) | Broadcast

  datatype Owner = Free | HeldBy(call: nat) | HeldByReader

  // A call of safeSend inside its critical section; open says whether the connection was
  // open when it got the lock
  datatype Handler = Entered(msg: Bytes, open: bool) | SawOpen(msg: Bytes, open: bool)

  // A finished call: at is its place among the messages enqueued, or among the drops
  datatype Outcome = WasIgnored | WasEnqueued(at: nat) | WasDropped(at: nat)
  datatype Result = Result(msg: Bytes, open: bool, outcome: Outcome)

  datatype Reader = Reading | Locked | FlagSet | Unlocked | ChannelClosed | Unregistered

  // The writer: waiting, filling a frame (limit is the queue length it measured, i the
  // iterations done), or gone with messages it took but could not write
  datatype Writer =
    | Waiting
    | Filling(messages: seq<Bytes>, payload: Bytes, limit: Option<nat>, i: nat)
    | Gone(lost: seq<Bytes>)

  datatype Entry = Entry(source: Source, msg: Bytes)

  datatype State = State(
    queue: seq<Bytes>,
    lock: Owner,
    closed: bool,
    handlers: map<nat, Handler>,
    broadcasts: map<nat, Bytes>,  // those whose iteration has met the connection, and which will select
    reader: Reader,
    writer: Writer,
    frames: seq<Frame>,
    closeFrame: bool,
    // history
    enqueued: seq<Entry>,
    drops: seq<Source>,
    results: map<nat, Result>,
    strayNewline: bool,       // the inner default of the writer fired
    crashed: Option<Source>   // who sent on the closed channel
  )

  datatype Action =
    | Enter(call: nat, msg: Bytes)
    | CheckFlag(call: nat)
    | Send(call: nat)
    | BroadcastMeets(broadcast: nat, msg: Bytes)
    | BroadcastSelect(broadcast: nat)
    | ReaderStep
    | Take
    | Measure
    | Append
    | Finish
    | Fail

  ghost function Start(): State {
    State([], Free, false, map[], map[], Reading, Waiting, [], false, [], [], map[], false, None)
  }

  ghost predicate IsClosed(s: State) {
    s.reader.ChannelClosed? || s.reader.Unregistered?
  }

  // ---------- Handlers and broadcasts ----------

  ghost function AfterEnter(s: State, call: nat, msg: Bytes): State {
    if !s.lock.Free? || call in s.handlers || call in s.results then s
    else s.(lock := HeldBy(call), handlers := s.handlers[call := Entered(msg, !s.closed)])
  }

  ghost function AfterFlag(s: State, call: nat): State {
    if call !in s.handlers || !s.handlers[call].Entered? then s
    else
      var Entered(msg, open) := s.handlers[call];
      if s.closed then Return(s, call, Result(msg, open, WasIgnored))
      else s.(handlers := s.handlers[call := SawOpen(msg, open)])
  }

  // Leaving the critical section
  ghost function Return(s: State, call: nat, result: Result): State {
    s.(handlers := s.handlers - {call}, lock := Free, results := s.results[call := result])
  }

  // The select with a default that safeSend and Broadcast share
  ghost function AfterSelect(s: State, source: Source, msg: Bytes): State {
    if IsClosed(s) then s.(crashed := Some(source))
    else if |s.queue| < QUEUE_CAPACITY then
      s.(queue := s.queue + [msg], enqueued := s.enqueued + [Entry(source, msg)])
    else s.(drops := s.drops + [source])
  }

  ghost function AfterSend(s: State, call: nat): State {
    if call !in s.handlers || !s.handlers[call].SawOpen? then s
    else
      var SawOpen(msg, open) := s.handlers[call];
      var outcome := if |s.queue| < QUEUE_CAPACITY then WasEnqueued(|s.enqueued|) else WasDropped(|s.drops|);
      Return(AfterSelect(s, Call(call), msg), call, Result(msg, open, outcome))
  }

  // The iteration over the table meets the connection while it is registered
  ghost function AfterMeets(s: State, broadcast: nat, msg: Bytes): State {
    if s.reader.Unregistered? || broadcast in s.broadcasts then s
    else s.(broadcasts := s.broadcasts[broadcast := msg])
  }

  // Only then the broadcast selects, whatever has happened to the connection meanwhile
  ghost function AfterBroadcast(s: State, broadcast: nat): State {
    if broadcast !in s.broadcasts then s
    else AfterSelect(s.(broadcasts := s.broadcasts - {broadcast}), Broadcast, s.broadcasts[broadcast])
  }

  // ---------- The reader's close path ----------

  // Lock, set the flag, unlock, close the channel, unregister
  ghost function NextPhase(r: Reader): Reader {
    match r
    case Reading => Locked
    case Locked => FlagSet
    case FlagSet => Unlocked
    case Unlocked => ChannelClosed
    case ChannelClosed => Unregistered
    case Unregistered => Unregistered
  }

  ghost function AfterReader(s: State): State {
    if s.reader.Reading? && !s.lock.Free? then s
    else
      s.(reader := NextPhase(s.reader),
         lock := if s.reader.Reading? then HeldByReader else if s.reader.FlagSet? then Free else s.lock,
         closed := s.closed || s.reader.Locked?)
  }

  // ---------- The writer ----------

  ghost function AfterTake(s: State): State {
    if !s.writer.Waiting? then s
    else if s.queue != [] then s.(queue := s.queue[1..], writer := Filling([s.queue[0]], s.queue[0], None, 0))
    else if IsClosed(s) then s.(closeFrame := true, writer := Gone([]))
    else s
  }

  ghost function AfterMeasure(s: State): State {
    if s.writer.Filling? && s.writer.limit.None? then s.(writer := s.writer.(limit := Some(|s.queue|))) else s
  }

  ghost predicate MoreToAppend(w: Writer) {
    w.Filling? && w.limit.Some? && w.i < w.limit.value && w.i < FRAME_MESSAGES - 1
  }

  // A newline, then the next message; with none waiting, the newline stays alone
  ghost function AfterAppend(s: State): State {
    if !MoreToAppend(s.writer) then s
    else
      var Filling(messages, payload, limit, i) := s.writer;
      if s.queue != [] then
        s.(queue := s.queue[1..],
           writer := Filling(messages + [s.queue[0]], payload + [NEWLINE] + s.queue[0], limit, i + 1))
      else s.(strayNewline := true, writer := Filling(messages, payload + [NEWLINE], limit, i + 1))
  }

  ghost function AfterFinish(s: State): State {
    if s.writer.Filling? && s.writer.limit.Some? && !MoreToAppend(s.writer) then
      s.(frames := s.frames + [Frame(s.writer.messages, s.writer.payload)], writer := Waiting)
    else s
  }

  // A write or a ping fails: the writer returns
  ghost function AfterFail(s: State): State {
    match s.writer
    case Waiting => s.(writer := Gone([]))
    case Filling(messages, _, _, _) => s.(writer := Gone(messages))
    case Gone(_) => s
  }

  ghost function Step(s: State, a: Action): State {
    if s.crashed.Some? then s
    else match a
      case Enter(call, msg) => AfterEnter(s, call, msg)
      case CheckFlag(call) => AfterFlag(s, call)
      case Send(call) => AfterSend(s, call)
      case BroadcastMeets(broadcast, msg) => AfterMeets(s, broadcast, msg)
      case BroadcastSelect(broadcast) => AfterBroadcast(s, broadcast)
      case ReaderStep => AfterReader(s)
      case Take => AfterTake(s)
      case Measure => AfterMeasure(s)
      case Append => AfterAppend(s)
      case Finish => AfterFinish(s)
      case Fail => AfterFail(s)
  }

  ghost function Run(actions: seq<Action>): State {
    if actions == [] then Start() else Step(Run(actions[..|actions| - 1]), actions[|actions| - 1])
  }

  // ---------- Mutual exclusion, and the calls ----------

  ghost predicate LockOk(lock: Owner, handlers: map<nat, Handler>, results: map<nat, Result>, reader: Reader, closed: bool) {
    && (forall c :: c in handlers ==> lock == HeldBy(c) && c !in results)
    && (lock.HeldBy? ==> lock.call in handlers)
    && (lock == HeldByReader <==> reader.Locked? || reader.FlagSet?)
    && (closed <==> !reader.Reading? && !reader.Locked?)
  }

  // Nobody can set the flag while a handler is inside
  ghost predicate HandlersOk(handlers: map<nat, Handler>, closed: bool) {
    forall c :: c in handlers ==> handlers[c].open == !closed && (handlers[c].SawOpen? ==> !closed)
  }

  // Every call that found the connection open has one place, among the messages or the drops
  ghost predicate ResultOk(enqueued: seq<Entry>, drops: seq<Source>, call: nat, r: Result) {
    match r.outcome
    case WasIgnored => !r.open
    case WasEnqueued(at) => r.open && at < |enqueued| && enqueued[at] == Entry(Call(call), r.msg)
    case WasDropped(at) => r.open && at < |drops| && drops[at] == Call(call)
  }

  // And every place belongs to the call that it names
  ghost predicate EntryOk(results: map<nat, Result>, e: Entry, k: nat) {
    e.source.Call? ==> e.source.id in results && results[e.source.id].outcome == WasEnqueued(k)
  }

  ghost predicate DropOk(results: map<nat, Result>, source: Source, k: nat) {
    source.Call? ==> source.id in results && results[source.id].outcome == WasDropped(k)
  }

  ghost predicate Places(results: map<nat, Result>, enqueued: seq<Entry>, drops: seq<Source>) {
    && (forall c :: c in results ==> ResultOk(enqueued, drops, c, results[c]))
    && (forall k :: 0 <= k < |enqueued| ==> EntryOk(results, enqueued[k], k))
    && (forall k :: 0 <= k < |drops| ==> DropOk(results, drops[k], k))
  }

  // ---------- The writer's order ----------

  ghost function Messages(entries: seq<Entry>): seq<Bytes> {
    seq(|entries|, k requires 0 <= k < |entries| => entries[k].msg)
  }

  // What the writer has taken out of the queue and not yet put into a finished frame
  ghost function Taken(w: Writer): seq<Bytes> {
    match w
    case Waiting => []
    case Filling(messages, _, _, _) => messages
    case Gone(lost) => lost
  }

  ghost predicate InOrder(enqueued: seq<Entry>, frames: seq<Frame>, writer: Writer, queue: seq<Bytes>) {
    Messages(enqueued) == Flatten(frames) + Taken(writer) + queue
  }

  // The messages the writer measured are still there, since nobody else receives
  ghost predicate FillingOk(w: Writer, waiting: nat) {
    w.Filling? ==>
      && |w.messages| == w.i + 1 && w.i < FRAME_MESSAGES && w.payload == Joined(w.messages)
      && (w.limit.None? ==> w.i == 0)
      && (w.limit.Some? ==> w.i <= w.limit.value <= w.i + waiting)
  }

  ghost predicate AllFramesOk(frames: seq<Frame>) {
    forall k :: 0 <= k < |frames| ==> FrameOk(frames[k])
  }

  ghost predicate QueueOk(enqueued: seq<Entry>, frames: seq<Frame>, writer: Writer, queue: seq<Bytes>) {
    && InOrder(enqueued, frames, writer, queue)
    && FillingOk(writer, |queue|)
    && AllFramesOk(frames)
    && |Taken(writer)| <= FRAME_MESSAGES
    && |queue| <= QUEUE_CAPACITY
  }

  ghost predicate WriterOk(s: State) {
    && QueueOk(s.enqueued, s.frames, s.writer, s.queue) && !s.strayNewline
    && (s.closeFrame ==> s.queue == [] && IsClosed(s) && s.writer == Gone([]))
  }

  ghost predicate CallsOk(s: State) {
    && LockOk(s.lock, s.handlers, s.results, s.reader, s.closed)
    && HandlersOk(s.handlers, s.closed)
    && Places(s.results, s.enqueued, s.drops)
  }

  ghost predicate Inv(s: State) {
    && CallsOk(s) && WriterOk(s)
    && (s.crashed.Some? ==> s.crashed == Some(Broadcast) && IsClosed(s))
  }

  // ---------- Each action keeps the invariant ----------

  lemma MessagesExtend(entries: seq<Entry>, e: Entry)
    ensures Messages(entries + [e]) == Messages(entries) + [e.msg]
  {}

  lemma EntryAdded(results: map<nat, Result>, enqueued: seq<Entry>, drops: seq<Source>, e: Entry)
    requires Places(results, enqueued, drops) && e.source == Broadcast
    ensures Places(results, enqueued + [e], drops)
  {
    forall c | c in results ensures ResultOk(enqueued + [e], drops, c, results[c]) {
      assert ResultOk(enqueued, drops, c, results[c]);
    }
  }

  lemma DropAdded(results: map<nat, Result>, enqueued: seq<Entry>, drops: seq<Source>)
    requires Places(results, enqueued, drops)
    ensures Places(results, enqueued, drops + [Broadcast])
  {
    forall c | c in results ensures ResultOk(enqueued, drops + [Broadcast], c, results[c]) {
      assert ResultOk(enqueued, drops, c, results[c]);
    }
  }

  // A call finishes with its place at the end of one of the two lists, or with none
  lemma ResultAdded(results: map<nat, Result>, enqueued: seq<Entry>, drops: seq<Source>,
                    call: nat, r: Result, entries: seq<Entry>, dropped: seq<Source>)
    requires Places(results, enqueued, drops) && call !in results
    requires entries == if r.outcome.WasEnqueued? then enqueued + [Entry(Call(call), r.msg)] else enqueued
    requires dropped == if r.outcome.WasDropped? then drops + [Call(call)] else drops
    requires r.outcome.WasEnqueued? ==> r.outcome.at == |enqueued|
    requires r.outcome.WasDropped? ==> r.outcome.at == |drops|
    requires r.open <==> !r.outcome.WasIgnored?
    ensures Places(results[call := r], entries, dropped)
  {
    var after := results[call := r];
    forall c | c in after ensures ResultOk(entries, dropped, c, after[c]) {
      assert c != call ==> ResultOk(enqueued, drops, c, results[c]);
    }
    forall k | 0 <= k < |entries| ensures EntryOk(after, entries[k], k) {
      assert k < |enqueued| ==> EntryOk(results, enqueued[k], k);
    }
    forall k | 0 <= k < |dropped| ensures DropOk(after, dropped[k], k) {
      assert k < |drops| ==> DropOk(results, drops[k], k);
    }
  }

  lemma SelectKeepsOrder(s: State, source: Source, msg: Bytes)
    requires WriterOk(s) && !IsClosed(s)
    ensures WriterOk(AfterSelect(s, source, msg))
  {
    MessagesExtend(s.enqueued, Entry(source, msg));
  }

  lemma SendKeepsInv(s: State, call: nat)
    requires Inv(s) && s.crashed.None?
    ensures Inv(AfterSend(s, call)) && AfterSend(s, call).crashed.None?
  {
    if call in s.handlers && s.handlers[call].SawOpen? {
      var t := AfterSend(s, call);
      assert !IsClosed(s);
      ResultAdded(s.results, s.enqueued, s.drops, call, t.results[call], t.enqueued, t.drops);
      SelectKeepsOrder(s, Call(call), s.handlers[call].msg);
    }
  }

  lemma BroadcastKeepsInv(s: State, broadcast: nat)
    requires Inv(s) && s.crashed.None?
    ensures Inv(AfterBroadcast(s, broadcast))
  {
    if broadcast in s.broadcasts && !IsClosed(s) {
      var msg := s.broadcasts[broadcast];
      EntryAdded(s.results, s.enqueued, s.drops, Entry(Broadcast, msg));
      DropAdded(s.results, s.enqueued, s.drops);
      SelectKeepsOrder(s.(broadcasts := s.broadcasts - {broadcast}), Broadcast, msg);
    }
  }

  lemma FlagKeepsInv(s: State, call: nat)
    requires Inv(s) && s.crashed.None?
    ensures Inv(AfterFlag(s, call))
  {
    if call in s.handlers && s.handlers[call].Entered? && s.closed {
      var t := AfterFlag(s, call);
      ResultAdded(s.results, s.enqueued, s.drops, call, t.results[call], t.enqueued, t.drops);
    }
  }

  lemma EnterKeepsInv(s: State, call: nat, msg: Bytes)
    requires Inv(s) && s.crashed.None?
    ensures Inv(AfterEnter(s, call, msg))
  {}

  lemma ReaderKeepsCalls(s: State)
    requires CallsOk(s)
    ensures CallsOk(AfterReader(s))
  {}

  lemma ReaderKeepsOrder(s: State)
    requires WriterOk(s)
    ensures WriterOk(AfterReader(s))
  {}

  lemma ReaderKeepsInv(s: State)
    requires Inv(s) && s.crashed.None?
    ensures Inv(AfterReader(s))
  {
    ReaderKeepsCalls(s);
    ReaderKeepsOrder(s);
  }

  lemma TakeKeepsOrder(s: State)
    requires WriterOk(s)
    ensures WriterOk(AfterTake(s))
  {
    if s.writer.Waiting? && s.queue != [] {
      assert Joined([s.queue[0]]) == s.queue[0];
      FirstTaken(s.enqueued, s.frames, s.queue);
    }
  }

  lemma FirstTaken(enqueued: seq<Entry>, frames: seq<Frame>, queue: seq<Bytes>)
    requires queue != [] && InOrder(enqueued, frames, Waiting, queue)
    ensures InOrder(enqueued, frames, Filling([queue[0]], queue[0], None, 0), queue[1..])
  {
    assert queue == [queue[0]] + queue[1..];
  }

  lemma NextAppended(enqueued: seq<Entry>, frames: seq<Frame>, w: Writer, queue: seq<Bytes>)
    requires MoreToAppend(w) && queue != [] && QueueOk(enqueued, frames, w, queue)
    ensures QueueOk(enqueued, frames,
                    Filling(w.messages + [queue[0]], w.payload + [NEWLINE] + queue[0], w.limit, w.i + 1), queue[1..])
  {
    JoinedExtends(w.messages, queue[0]);
    assert queue == [queue[0]] + queue[1..];
  }

  lemma AppendKeepsOrder(s: State)
    requires WriterOk(s)
    ensures WriterOk(AfterAppend(s))
  {
    if MoreToAppend(s.writer) {
      assert s.queue != [];
      NextAppended(s.enqueued, s.frames, s.writer, s.queue);
    }
  }

  lemma FramesExtend(frames: seq<Frame>, f: Frame)
    requires AllFramesOk(frames) && FrameOk(f)
    ensures AllFramesOk(frames + [f])
  {}

  lemma FinishKeepsOrder(s: State)
    requires WriterOk(s)
    ensures WriterOk(AfterFinish(s))
  {
    if s.writer.Filling? {
      FramesExtend(s.frames, Frame(s.writer.messages, s.writer.payload));
      FlattenExtends(s.frames, Frame(s.writer.messages, s.writer.payload));
    }
  }

  lemma WriterKeepsInv(s: State, a: Action)
    requires Inv(s) && s.crashed.None? && (a.Take? || a.Measure? || a.Append? || a.Finish? || a.Fail?)
    ensures Inv(Step(s, a))
  {
    match a
    case Take => TakeKeepsOrder(s);
    case Measure =>
    case Append => AppendKeepsOrder(s);
    case Finish => FinishKeepsOrder(s);
    case Fail =>
  }

  lemma StepKeepsInv(s: State, a: Action)
    requires Inv(s)
    ensures Inv(Step(s, a))
  {
    if s.crashed.None? {
      match a
      case Enter(call, msg) => EnterKeepsInv(s, call, msg);
      case CheckFlag(call) => FlagKeepsInv(s, call);
      case Send(call) => SendKeepsInv(s, call);
      case BroadcastMeets(broadcast, msg) =>
      case BroadcastSelect(broadcast) => BroadcastKeepsInv(s, broadcast);
      case ReaderStep => ReaderKeepsInv(s);
      case _ => WriterKeepsInv(s, a);
    }
  }

  lemma {:induction false} EveryRunIsSafe(actions: seq<Action>)
    ensures Inv(Run(actions))
    decreases actions
  {
    if actions != [] {
      EveryRunIsSafe(actions[..|actions| - 1]);
      StepKeepsInv(Run(actions[..|actions| - 1]), actions[|actions| - 1]);
    }
  }

  // ---------- Main results ----------

  /** In no interleaving does safeSend send on the closed channel. */
  lemma SafeSendNeverPanics(actions: seq<Action>, call: nat)
    ensures Run(actions).crashed != Some(Call(call))
  {
    EveryRunIsSafe(actions);
  }

  lemma LastStep(actions: seq<Action>, a: Action)
    ensures Run(actions + [a]) == Step(Run(actions), a)
  {
    assert (actions + [a])[..|actions|] == actions;
  }

  /** The select of a broadcast ends the process exactly if the channel is closed by then. */
  lemma BroadcastPanicsExactly(actions: seq<Action>, broadcast: nat)
    requires Run(actions).crashed.None? && broadcast in Run(actions).broadcasts
    ensures Run(actions + [BroadcastSelect(broadcast)]).crashed == Some(Broadcast) <==> IsClosed(Run(actions))
  {
    LastStep(actions, BroadcastSelect(broadcast));
  }

  // The connection is unregistered, and the broadcasts that can still reach it are among these
  ghost predicate OutOfReach(s: State, broadcasts: set<nat>) {
    s.reader.Unregistered? && s.broadcasts.Keys <= broadcasts
  }

  lemma StaysOutOfReach(s: State, a: Action, broadcasts: set<nat>)
    requires OutOfReach(s, broadcasts)
    ensures OutOfReach(Step(s, a), broadcasts)
  {}

  /** A broadcast that has not met the connection when it is unregistered never selects on it. */
  lemma {:induction false} LateBroadcastsMissTheConnection(actions: seq<Action>, more: seq<Action>)
    requires Run(actions).reader.Unregistered?
    ensures OutOfReach(Run(actions + more), Run(actions).broadcasts.Keys)
    decreases more
  {
    if more == [] {
      assert actions + more == actions;
    } else {
      var n := |more| - 1;
      LateBroadcastsMissTheConnection(actions, more[..n]);
      assert (actions + more)[..|actions + more| - 1] == actions + more[..n];
      StaysOutOfReach(Run(actions + more[..n]), more[n], Run(actions).broadcasts.Keys);
    }
  }

  /** If none has met it by then, the connection can never end the process. */
  lemma {:induction false} NoPanicOutOfReach(actions: seq<Action>, more: seq<Action>)
    requires var s := Run(actions); s.reader.Unregistered? && s.broadcasts == map[] && s.crashed.None?
    ensures Run(actions + more).crashed.None?
    decreases more
  {
    if more == [] {
      assert actions + more == actions;
    } else {
      var n := |more| - 1;
      NoPanicOutOfReach(actions, more[..n]);
      LateBroadcastsMissTheConnection(actions, more[..n]);
      EveryRunIsSafe(actions + more[..n]);
      EveryRunIsSafe(actions + more);
      assert (actions + more)[..|actions + more| - 1] == actions + more[..n];
      OnlySelectsPanic(Run(actions + more[..n]), more[n]);
    }
  }

  lemma OnlySelectsPanic(s: State, a: Action)
    requires Inv(s) && s.crashed.None? && s.broadcasts == map[]
    ensures Step(s, a).crashed.None?
  {
    if a.Send? {
      SendKeepsInv(s, a.call);
    }
  }

  // Whoever is in safeSend can finish, without a panic
  lemma LockIsReleased(actions: seq<Action>) returns (more: seq<Action>)
    requires Run(actions).crashed.None?
    ensures var s := Run(actions); var t := Run(actions + more);
      t.crashed.None? && !t.lock.HeldBy? && t.reader == s.reader && t.broadcasts == s.broadcasts
  {
    EveryRunIsSafe(actions);
    var s := Run(actions);
    if s.lock.HeldBy? {
      var c := s.lock.call;
      HandlerFinishes(s, c);
      LastStep(actions, CheckFlag(c));
      LastStep(actions + [CheckFlag(c)], Send(c));
      more := [CheckFlag(c), Send(c)];
      assert actions + [CheckFlag(c)] + [Send(c)] == actions + more;
    } else {
      more := [];
      assert actions + more == actions;
    }
  }

  lemma HandlerFinishes(s: State, c: nat)
    requires Inv(s) && s.crashed.None? && c in s.handlers
    ensures var t := Step(Step(s, CheckFlag(c)), Send(c));
      t.crashed.None? && t.lock.Free? && t.reader == s.reader && t.broadcasts == s.broadcasts
  {
    var t := Step(s, CheckFlag(c));
    if s.closed {
      assert s.handlers[c].Entered? && c !in t.handlers && t.lock.Free? && t.crashed.None?;
    } else {
      assert !IsClosed(s) && t.handlers[c].SawOpen? && t.crashed.None? && t.reader == s.reader;
    }
  }

  // How many steps the reader is from the closed channel
  ghost function StepsToClose(r: Reader): nat {
    match r
    case Reading => 4
    case Locked => 3
    case FlagSet => 2
    case Unlocked => 1
    case _ => 0
  }

  // The reader can close the channel unless a call holds the lock
  lemma {:induction false} ReaderCloses(actions: seq<Action>) returns (more: seq<Action>)
    requires var s := Run(actions); s.crashed.None? && !s.lock.HeldBy? && !s.reader.Unregistered?
    ensures var s := Run(actions); var t := Run(actions + more);
      t.crashed.None? && t.reader.ChannelClosed? && t.broadcasts == s.broadcasts
    decreases StepsToClose(Run(actions).reader)
  {
    var s := Run(actions);
    EveryRunIsSafe(actions);
    if s.reader.ChannelClosed? {
      more := [];
      assert actions + more == actions;
    } else {
      LastStep(actions, ReaderStep);
      ReaderMoves(s);
      var rest := ReaderCloses(actions + [ReaderStep]);
      more := [ReaderStep] + rest;
      Associates(actions, [ReaderStep], rest);
    }
  }

  lemma ReaderMoves(s: State)
    requires Inv(s) && s.crashed.None? && !s.lock.HeldBy? && StepsToClose(s.reader) > 0
    ensures var t := Step(s, ReaderStep);
      && t.crashed.None? && !t.lock.HeldBy? && !t.reader.Unregistered? && t.broadcasts == s.broadcasts
      && StepsToClose(t.reader) < StepsToClose(s.reader)
  {}

  // A broadcast that holds the connection can end the process
  lemma HolderPanics(actions: seq<Action>, broadcast: nat) returns (more: seq<Action>)
    requires Run(actions).crashed.None? && broadcast in Run(actions).broadcasts
    ensures Run(actions + more).crashed.Some?
  {
    if Run(actions).reader.Unregistered? {
      BroadcastPanicsExactly(actions, broadcast);
      more := [BroadcastSelect(broadcast)];
    } else {
      var freed := LockIsReleased(actions);
      var closed := ReaderCloses(actions + freed);
      BroadcastPanicsExactly(actions + freed + closed, broadcast);
      more := freed + closed + [BroadcastSelect(broadcast)];
      assert actions + freed + closed + [BroadcastSelect(broadcast)] == actions + more;
    }
  }

  // While the connection is registered, a broadcast can meet it
  lemma RegisteredPanics(actions: seq<Action>) returns (more: seq<Action>)
    requires var s := Run(actions); s.crashed.None? && !s.reader.Unregistered? && s.broadcasts == map[]
    ensures Run(actions + more).crashed.Some?
  {
    LastStep(actions, BroadcastMeets(0, []));
    var rest := HolderPanics(actions + [BroadcastMeets(0, [])], 0);
    more := [BroadcastMeets(0, [])] + rest;
    Associates(actions, [BroadcastMeets(0, [])], rest);
  }

  // The process ends in some continuation
  ghost predicate PanicIsPossible(actions: seq<Action>) {
    exists more :: PanicsWith(actions, more)
  }

  ghost predicate PanicsWith(actions: seq<Action>, more: seq<Action>) {
    Run(actions + more).crashed.Some?
  }

  /** From a reachable state without a panic, some continuation ends the process if and only
      if the connection is still registered or some broadcast holds it. */
  lemma PanicIsPossibleExactly(actions: seq<Action>)
    requires Run(actions).crashed.None?
    ensures PanicIsPossible(actions) <==> !Run(actions).reader.Unregistered? || Run(actions).broadcasts != map[]
  {
    if Run(actions).broadcasts != map[] {
      var b :| b in Run(actions).broadcasts;
      var more := HolderPanics(actions, b);
      assert PanicsWith(actions, more);
    } else if !Run(actions).reader.Unregistered? {
      var more := RegisteredPanics(actions);
      assert PanicsWith(actions, more);
    } else {
      forall more ensures !PanicsWith(actions, more) {
        NoPanicOutOfReach(actions, more);
      }
    }
  }

  /** A broadcast that met the connection before it was closed can end the process even after
      it was unregistered. */
  lemma PanicAfterUnregistering(broadcast: nat, msg: Bytes)
    ensures var s := Run([BroadcastMeets(broadcast, msg), ReaderStep, ReaderStep, ReaderStep, ReaderStep, ReaderStep]);
      && s.reader.Unregistered? && s.crashed.None?
      && Step(s, BroadcastSelect(broadcast)).crashed == Some(Broadcast)
  {
    LastStep([], BroadcastMeets(broadcast, msg));
    assert [] + [BroadcastMeets(broadcast, msg)] == [BroadcastMeets(broadcast, msg)];
    ClosesAlone([BroadcastMeets(broadcast, msg)]);
    assert [BroadcastMeets(broadcast, msg)] + [ReaderStep, ReaderStep, ReaderStep, ReaderStep, ReaderStep]
        == [BroadcastMeets(broadcast, msg), ReaderStep, ReaderStep, ReaderStep, ReaderStep, ReaderStep];
  }

  // The reader alone closes and unregisters in five steps, if the lock is free
  lemma ClosesAlone(actions: seq<Action>)
    requires var s := Run(actions); s.reader.Reading? && s.lock.Free? && s.crashed.None?
    ensures var s := Run(actions); var t := Run(actions + [ReaderStep, ReaderStep, ReaderStep, ReaderStep, ReaderStep]);
      t.reader.Unregistered? && t.crashed.None? && t.broadcasts == s.broadcasts
  {
    var a1 := actions + [ReaderStep];
    var a2 := a1 + [ReaderStep];
    var a3 := a2 + [ReaderStep];
    var a4 := a3 + [ReaderStep];
    LastStep(actions, ReaderStep);
    assert Run(a1).reader.Locked? && Run(a1).crashed.None? && Run(a1).broadcasts == Run(actions).broadcasts;
    LastStep(a1, ReaderStep);
    assert Run(a2).reader.FlagSet? && Run(a2).crashed.None? && Run(a2).broadcasts == Run(actions).broadcasts;
    LastStep(a2, ReaderStep);
    assert Run(a3).reader.Unlocked? && Run(a3).crashed.None? && Run(a3).broadcasts == Run(actions).broadcasts;
    LastStep(a3, ReaderStep);
    assert Run(a4).reader.ChannelClosed? && Run(a4).crashed.None? && Run(a4).broadcasts == Run(actions).broadcasts;
    LastStep(a4, ReaderStep);
    assert a4 + [ReaderStep] == actions + [ReaderStep, ReaderStep, ReaderStep, ReaderStep, ReaderStep];
  }

  // How often a call's message was enqueued, and how often it was dropped
  ghost function Enqueuings(s: State, call: nat): set<nat> {
    set k | 0 <= k < |s.enqueued| && s.enqueued[k].source == Call(call)
  }

  ghost function Drops(s: State, call: nat): set<nat> {
    set k | 0 <= k < |s.drops| && s.drops[k] == Call(call)
  }

  /** A finished call enqueued its message exactly once or counted exactly one drop, if the
      connection was open when it got the lock; otherwise it did neither. */
  lemma EachCallCountsOnce(actions: seq<Action>, call: nat)
    requires call in Run(actions).results
    ensures var s := Run(actions);
      |Enqueuings(s, call)| + |Drops(s, call)| == if s.results[call].open then 1 else 0
    ensures var s := Run(actions);
      forall k :: k in Enqueuings(s, call) ==> s.enqueued[k].msg == s.results[call].msg
  {
    EveryRunIsSafe(actions);
    var s := Run(actions);
    var r := s.results[call];
    assert ResultOk(s.enqueued, s.drops, call, r);
    assert Enqueuings(s, call) == match r.outcome case WasEnqueued(at) => {at} case _ => {};
    assert Drops(s, call) == match r.outcome case WasDropped(at) => {at} case _ => {};
  }

  /** An unfinished call has done neither yet. */
  lemma OnlyFinishedCallsCount(actions: seq<Action>, call: nat)
    requires call !in Run(actions).results
    ensures Enqueuings(Run(actions), call) == {} && Drops(Run(actions), call) == {}
  {
    EveryRunIsSafe(actions);
  }

  /** While no write has failed, the frames, then the frame being filled, then the queue are
      exactly the messages enqueued, in order; a failure loses at most one frame, and only
      the frame that failed. */
  lemma WriterKeepsOrder(actions: seq<Action>)
    ensures var s := Run(actions);
      Messages(s.enqueued) == Flatten(s.frames) + Taken(s.writer) + s.queue && |Taken(s.writer)| <= FRAME_MESSAGES
  {
    EveryRunIsSafe(actions);
  }

  /** Every frame holds between one and eleven messages joined by single newlines, because
      the writer is the only receiver. */
  lemma FramesAreWellFormed(actions: seq<Action>, k: nat)
    requires k < |Run(actions).frames|
    ensures FrameOk(Run(actions).frames[k]) && !Run(actions).strayNewline
  {
    EveryRunIsSafe(actions);
  }

  /** The close frame follows everything that was ever enqueued. */
  lemma CloseFrameComesLast(actions: seq<Action>)
    requires Run(actions).closeFrame
    ensures Messages(Run(actions).enqueued) == Flatten(Run(actions).frames)
  {
    EveryRunIsSafe(actions);
  }

  // What the writer does next
  ghost function WriterMove(w: Writer): Action {
    if w.Waiting? then Take
    else if w.Filling? && w.limit.None? then Measure
    else if MoreToAppend(w) then Append
    else Finish
  }

  // How far the writer is from an empty queue
  ghost function Distance(s: State): nat {
    4 * |s.queue| + if !s.writer.Filling? then 0 else if s.writer.limit.None? then 2 else 1
  }

  lemma WriterAdvances(s: State)
    requires Inv(s) && IsClosed(s) && s.crashed.None? && !s.writer.Gone? && (s.writer.Waiting? ==> s.queue != [])
    ensures var t := Step(s, WriterMove(s.writer));
      && IsClosed(t) && t.crashed.None? && !t.writer.Gone?
      && t.enqueued == s.enqueued && Distance(t) < Distance(s)
  {}

  /** Once the channel is closed, the writer alone, if no write fails, delivers everything
      that was ever enqueued and then sends the close frame. */
  lemma {:induction false} WriterDeliversAll(actions: seq<Action>) returns (rest: seq<Action>)
    requires IsClosed(Run(actions)) && Run(actions).crashed.None? && !Run(actions).writer.Gone?
    ensures forall a :: a in rest ==> a.Take? || a.Measure? || a.Append? || a.Finish?
    ensures var t := Run(actions + rest);
      t.closeFrame && t.enqueued == Run(actions).enqueued && Flatten(t.frames) == Messages(t.enqueued)
    decreases Distance(Run(actions))
  {
    EveryRunIsSafe(actions);
    var s := Run(actions);
    var a := WriterMove(s.writer);
    assert (actions + [a])[..|actions|] == actions;
    assert Run(actions + [a]) == Step(s, a);
    if s.writer.Waiting? && s.queue == [] {
      rest := [a];
      CloseFrameComesLast(actions + [a]);
    } else {
      WriterAdvances(s);
      var more := WriterDeliversAll(actions + [a]);
      rest := [a] + more;
      Associates(actions, [a], more);
    }
  }

  /** A call that nothing comes between acts like the method SafeSend. */
  lemma SafeSendAlone(actions: seq<Action>, call: nat, msg: Bytes)
    requires var s := Run(actions); s.lock.Free? && s.crashed.None? && call !in s.results
    ensures var s := Run(actions);
      var t := Step(Step(Step(s, Enter(call, msg)), CheckFlag(call)), Send(call));
      && t.lock.Free? && t.crashed.None? && call in t.results
      && t.queue == (if !s.closed && |s.queue| < QUEUE_CAPACITY then s.queue + [msg] else s.queue)
      && t.drops == (if !s.closed && |s.queue| >= QUEUE_CAPACITY then s.drops + [Call(call)] else s.drops)
  {
    EveryRunIsSafe(actions);
    var s := Run(actions);
    assert call !in s.handlers;
    var entered := Step(s, Enter(call, msg));
    assert entered.handlers[call] == Entered(msg, !s.closed) && entered.queue == s.queue && entered.drops == s.drops;
    var checked := Step(entered, CheckFlag(call));
    if !s.closed {
      assert checked.handlers[call] == SawOpen(msg, true) && checked.queue == s.queue && checked.drops == s.drops;
    }
  }

  // The writer alone for n steps
  ghost function Writes(s: State, n: nat): State {
    if n == 0 then s else Step(Writes(s, n - 1), WriterMove(Writes(s, n - 1).writer))
  }

  // What the writer has after taking the first message of q and appending j more
  ghost predicate Appended(s: State, t: State, j: nat)
    requires j < |s.queue|
  {
    && t.crashed.None? && t.writer.Filling? && t.writer.messages == s.queue[..j + 1]
    && t.writer.limit == Some(|s.queue| - 1) && t.writer.i == j
    && t.queue == s.queue[j + 1..] && t.frames == s.frames
  }

  lemma FirstAppended(s: State)
    requires s.writer.Waiting? && s.crashed.None? && s.queue != []
    ensures Appended(s, Step(Step(s, Take), Measure), 0)
  {
    var taken := Step(s, Take);
    assert taken.writer == Filling([s.queue[0]], s.queue[0], None, 0) && taken.queue == s.queue[1..];
  }

  lemma NextOneAppended(s: State, t: State, j: nat)
    requires 0 < j < |s.queue| && j < FRAME_MESSAGES && Appended(s, t, j - 1)
    ensures MoreToAppend(t.writer) && Appended(s, Step(t, Append), j)
  {
    assert t.queue != [] && t.queue[0] == s.queue[j];
    assert s.queue[..j + 1] == s.queue[..j] + [s.queue[j]];
  }

  lemma {:induction false} Appending(s: State, j: nat)
    requires s.writer.Waiting? && s.crashed.None? && j < |s.queue| && j < FRAME_MESSAGES
    ensures Appended(s, Writes(s, j + 2), j)
    decreases j
  {
    if j == 0 {
      FirstAppended(s);
      assert Writes(s, 0) == s && Writes(s, 1) == Step(s, Take);
      assert Writes(s, 1).writer.Filling? && Writes(s, 1).writer.limit.None?;
    } else {
      Appending(s, j - 1);
      NextOneAppended(s, Writes(s, j + 1), j);
    }
  }

  /** A frame that nothing comes between is the frame of the method WriteFrame. */
  lemma FrameAlone(actions: seq<Action>)
    requires var s := Run(actions); s.writer.Waiting? && s.crashed.None? && s.queue != []
    ensures var s := Run(actions); var k := Least(FRAME_MESSAGES, |s.queue|); var t := Writes(s, k + 2);
      && t.writer.Waiting? && t.queue == s.queue[k..]
      && |t.frames| == |s.frames| + 1 && t.frames[..|s.frames|] == s.frames
      && t.frames[|s.frames|].messages == s.queue[..k]
  {
    var s := Run(actions);
    var k := Least(FRAME_MESSAGES, |s.queue|);
    Appending(s, k - 1);
    var before := Writes(s, k + 1);
    assert !MoreToAppend(before.writer);
    assert Writes(s, k + 2) == AfterFinish(before);
  }
}
