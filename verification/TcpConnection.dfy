/**
  One TCP connection as the loop thread drives it: partial writes into an output
  buffer, write interest, deferred half-close, watermark callbacks, forced close.
  The kernel and the user's callbacks are parameters: every call says what the
  kernel answers and what the user's code does when it is called back.  Failed
  assertions of the source do nothing, as in its default build.
*/
module TcpConnections {

  import opened Buffers
  import Pollers

  datatype ConnState = Connecting | Connected | Disconnecting | Disconnected

  function Rank(s: ConnState): nat {
    match s
    case Connecting => 0
    case Connected => 1
    case Disconnecting => 2
    case Disconnected => 3
  }

  /** What write(2) answers: a byte count, or an error. */
  datatype WriteResult = Wrote(n: nat) | WouldBlock | Broken | OtherError

  /** The kernel never takes more than it is given. */
  predicate Honest(w: WriteResult, len: nat) {
    w.Wrote? ==> w.n <= len
  }

  /** What a user callback may do with the connection. */
  datatype Action = Send(message: Bytes, result: WriteResult) | Shutdown | ForceClose | StartRead | StopRead

  /** What waits in the loop's queue on behalf of the connection. */
  datatype Functor = WriteComplete | HighWaterMark(pending: nat) | ForceCloseInLoop | Destroy

  /** What poll reports, and what reading and writing then give. */
  datatype Event = Event(hup: bool, in_: bool, priOrRdhup: bool, err: bool, out: bool, read: int, written: WriteResult)

  /** One turn of the loop thread, as far as this connection is concerned; user is what a callback raised by it does. */
  datatype Step =
    | Polled(event: Event, user: seq<Action>)
    | RunNext(user: seq<Action>)
    | Call(user: seq<Action>)
    | Teardown(user: seq<Action>)

  /**
    How a closed connection can be in the kernel's set although it wants nothing.
    Closing updates the channel with an empty mask, which takes it out of the set if it
    was in and puts it in if it was out.
  */
  datatype Exposure = Exposure(
    noInterest: bool,  // it had no interest when it went down
    stopped: bool,     // a stopRead took effect afterwards, reading being still on
    cleared: bool,     // since then it was removed, or closed again
    removed: bool,     // the channel was removed at least once
    again: nat         // how often handleClose found it disconnected already
  )

  const NOT_EXPOSED := Exposure(false, false, false, false, 0)

  /** Of a channel without interest the kernel reports only what it reports unasked. */
  function Unasked(e: Event): Event {
    e.(in_ := false, priOrRdhup := false, out := false)
  }

  predicate HonestActions(acts: seq<Action>) {
    forall i :: 0 <= i < |acts| && acts[i].Send? ==> Honest(acts[i].result, |acts[i].message|)
  }

  // ----- what calls and events do, on values -----

  datatype Config = Config(highWaterMark: nat, hasWriteComplete: bool, hasHighWaterMark: bool)

  /** The connection at one moment: what its methods change, and how often things happened to it. */
  datatype View = View(
    state: ConnState, reading: bool, readInterest: bool, writeInterest: bool, registered: bool, inKernel: bool,
    wire: Bytes, accepted: Bytes, outputBuffer: Bytes, queued: seq<Functor>,
    ups: nat, downs: nat, halfCloses: nat, destroyQueued: nat, destroyRuns: nat, torn: nat)

  predicate Live(s: ConnState) {
    s == Connected || s == Disconnecting
  }

  function Took(w: WriteResult, len: nat): (n: nat)
    ensures n <= len
  {
    if !w.Wrote? then 0 else if w.n <= len then w.n else len
  }

  /** Channel::update. */
  function Updated(v: View): View {
    v.(registered := true, inKernel := Pollers.InKernelAfter(v.inKernel, v.readInterest || v.writeInterest))
  }

  /** What a send raises when the buffer grows from one length to the other. */
  function Raised(c: Config, oldLen: nat, newLen: nat, all: bool): seq<Functor> {
    if all then (if c.hasWriteComplete then [WriteComplete] else [])
    else if oldLen < c.highWaterMark <= newLen && c.hasHighWaterMark then [HighWaterMark(newLen)]
    else []
  }

  function Sent(c: Config, v: View, data: Bytes, w: WriteResult): View {
    var direct := !v.writeInterest && v.outputBuffer == [];
    if direct && w == Broken then v
    else
      var n := if direct then Took(w, |data|) else 0;
      var buffer := v.outputBuffer + data[n..];
      var u := v.(wire := v.wire + data[..n], accepted := v.accepted + data, outputBuffer := buffer,
                  queued := v.queued + Raised(c, |v.outputBuffer|, |buffer|, direct && w == Wrote(|data|)));
      if n == |data| || v.writeInterest then u else Updated(u.(writeInterest := true))
  }

  /** One call of user code on the loop thread; reading is not restarted on a closed connection. */
  function Do(c: Config, v: View, act: Action): View {
    match act
    case Send(message, result) => if v.state == Connected then Sent(c, v, message, result) else v
    case Shutdown =>
      if v.state == Connected then
        v.(state := Disconnecting, halfCloses := v.halfCloses + if v.writeInterest then 0 else 1)
      else v
    case ForceClose =>
      if Live(v.state) then v.(state := Disconnecting, queued := v.queued + [ForceCloseInLoop]) else v
    case StartRead =>
      if Live(v.state) && !(v.reading && v.readInterest) then Updated(v.(reading := true, readInterest := true)) else v
    case StopRead =>
      if v.reading || v.readInterest then Updated(v.(reading := false, readInterest := false)) else v
  }

  function DoAll(c: Config, v: View, acts: seq<Action>): View {
    if acts == [] then v else Do(c, DoAll(c, v, acts[..|acts| - 1]), acts[|acts| - 1])
  }

  /** kDisconnected, disableAll, down callback. */
  function GoneDown(v: View): View {
    Updated(v.(state := Disconnected, readInterest := false, writeInterest := false)).(downs := v.downs + 1)
  }

  function Closed(c: Config, v: View, user: seq<Action>): View {
    var u := DoAll(c, GoneDown(v), user);
    u.(queued := u.queued + [Destroy], destroyQueued := u.destroyQueued + 1)
  }

  function Destroyed(c: Config, v: View, user: seq<Action>): View {
    var u := if v.state == Connected then DoAll(c, GoneDown(v), user).(torn := v.torn + 1) else v;
    u.(registered := false, inKernel := false)
  }

  /** The socket is writable. */
  function Flushed(c: Config, v: View, w: WriteResult): View {
    var n := Took(w, |v.outputBuffer|);
    if !v.writeInterest || n == 0 then v
    else
      var u := v.(wire := v.wire + v.outputBuffer[..n], outputBuffer := v.outputBuffer[n..]);
      if u.outputBuffer != [] then u
      else Updated(u.(writeInterest := false)).(
             queued := u.queued + (if c.hasWriteComplete then [WriteComplete] else []),
             halfCloses := u.halfCloses + if u.state == Disconnecting then 1 else 0)
  }

  function AfterRead(c: Config, v: View, n: int, user: seq<Action>): View {
    if n > 0 then DoAll(c, v, user) else if n == 0 then Closed(c, v, user) else v
  }

  function Handled(c: Config, v: View, e: Event, user: seq<Action>): View {
    var v1 := if e.hup && !e.in_ then Closed(c, v, user) else v;
    var v2 := if e.in_ || e.priOrRdhup then AfterRead(c, v1, e.read, user) else v1;
    if e.out then Flushed(c, v2, e.written) else v2
  }

  function Established(c: Config, v: View, user: seq<Action>): View {
    DoAll(c, Updated(v.(state := Connected, readInterest := true)).(ups := v.ups + 1), user)
  }

  /** The loop runs the functor in front. */
  function RanNext(c: Config, v: View, user: seq<Action>): View
    requires v.queued != []
  {
    var u := v.(queued := v.queued[1..]);
    match v.queued[0]
    case ForceCloseInLoop => if Live(v.state) then Closed(c, u, user) else u
    case Destroy => Destroyed(c, u.(destroyRuns := v.destroyRuns + 1), user)
    case _ => DoAll(c, u, user)
  }

  function Turn(c: Config, v: View, step: Step): View {
    match step
    case Polled(e, user) =>
      if Live(v.state) then Handled(c, v, e, user)
      else if v.inKernel then Handled(c, v, Unasked(e), user)
      else v
    case RunNext(user) => if v.queued == [] then v else RanNext(c, v, user)
    case Call(user) => DoAll(c, v, user)
    case Teardown(user) => if v.state == Connected then Destroyed(c, v, user) else v
  }

  function Play(c: Config, v: View, steps: seq<Step>): View {
    if steps == [] then v else Turn(c, Play(c, v, steps[..|steps| - 1]), steps[|steps| - 1])
  }

  // ----- what that comes to -----

  /** A live connection's stream: everything accepted is on the wire or in the buffer, which is watched if not empty. */
  predicate Flows(v: View) {
    Live(v.state) ==> v.accepted == v.wire + v.outputBuffer && (v.writeInterest <==> v.outputBuffer != [])
  }

  /** User code that leaves the connected state. */
  predicate Leaves(acts: seq<Action>) {
    Shutdown in acts || ForceClose in acts
  }

  /** Whether the buffer is still empty after these calls on a connected connection whose buffer was. */
  predicate WritesThrough(acts: seq<Action>) {
    forall i :: 0 <= i < |acts| && acts[i].Send? && !Leaves(acts[..i]) ==>
      acts[i].result == Broken || Took(acts[i].result, |acts[i].message|) == |acts[i].message|
  }

  /** The bytes that user code gets accepted: all it sends while connected, but what meets a broken pipe directly. */
  function Taken(empty: bool, acts: seq<Action>): Bytes {
    if acts == [] then []
    else
      var before, last := acts[..|acts| - 1], acts[|acts| - 1];
      Taken(empty, before) +
      if last.Send? && !Leaves(before) && !(empty && WritesThrough(before) && last.result == Broken)
      then last.message else []
  }

  /** The last of these calls that switches reading. */
  function LastSwitch(live: bool, acts: seq<Action>): Option<bool> {
    if acts == [] then None
    else
      var last := acts[|acts| - 1];
      if last == StopRead then Some(false)
      else if last == StartRead && live then Some(true)
      else LastSwitch(live, acts[..|acts| - 1])
  }

  /** All that user code sends while connected is accepted, in order; if it all went out at once the buffer is empty. */
  predicate StreamObeyed(v: View, acts: seq<Action>, u: View) {
    && Flows(u)
    && u.accepted == v.accepted + (if v.state == Connected then Taken(v.outputBuffer == [], acts) else [])
    && (v.state == Connected && v.outputBuffer == [] ==> (u.outputBuffer == [] <==> WritesThrough(acts)))
    && (v.state == Connected && v.outputBuffer != [] ==> u.outputBuffer != [])
  }

  /** Leaving the connected state, forced close and half-close happen exactly if asked for. */
  predicate EndObeyed(v: View, acts: seq<Action>, u: View) {
    && u.state == (if Live(v.state) && Leaves(acts) then Disconnecting else v.state)
    && v.queued <= u.queued
    && (Live(v.state) && ForceClose in acts ==> ForceCloseInLoop in u.queued[|v.queued|..])
    && (ForceCloseInLoop in u.queued[|v.queued|..] ==> ForceClose in acts)
    && (v.state == Connected && Shutdown in acts && ForceClose !in acts && u.outputBuffer == [] ==>
          u.halfCloses == v.halfCloses + 1)
    && (v.state != Connected || Shutdown !in acts || u.outputBuffer != [] ==> u.halfCloses == v.halfCloses)
  }

  /** Reading is as it was last switched. */
  predicate SwitchObeyed(v: View, acts: seq<Action>, u: View) {
    match LastSwitch(Live(v.state), acts)
    case None => u.reading == v.reading && u.readInterest == v.readInterest
    case Some(on) => u.reading == on && u.readInterest == on
  }

  /** What user code asked for is what becomes of the connection. */
  predicate Obeyed(v: View, acts: seq<Action>, u: View) {
    StreamObeyed(v, acts, u) && EndObeyed(v, acts, u) && SwitchObeyed(v, acts, u)
  }

  lemma DoNothing(c: Config, v: View, acts: seq<Action>)
    ensures DoAll(c, v, []) == v && acts[..0] == []
  {
  }

  lemma DoAllStep(c: Config, v: View, acts: seq<Action>, i: nat)
    requires i < |acts|
    ensures DoAll(c, v, acts[..i + 1]) == Do(c, DoAll(c, v, acts[..i]), acts[i]) && DoAll(c, v, acts[..0]) == v
  {
    assert acts[..i + 1][..i] == acts[..i];
  }

  /** User code neither ends a connection nor takes anything back, and is silent once the write side is shut down. */
  predicate Onward(v: View, u: View) {
    && Rank(v.state) <= Rank(u.state) && (v.state == Disconnected <==> u.state == Disconnected)
    && (v.state == Connecting <==> u.state == Connecting)
    && u.ups == v.ups && u.downs == v.downs && u.torn == v.torn
    && u.destroyQueued == v.destroyQueued && u.destroyRuns == v.destroyRuns
    && v.queued <= u.queued && v.wire <= u.wire && v.accepted <= u.accepted
    && (v.halfCloses == 1 && Rank(v.state) >= 2 ==> u.halfCloses == 1 && u.wire == v.wire)
  }

  lemma DoKeeps(c: Config, v: View, act: Action)
    ensures Onward(v, Do(c, v, act))
  {
    hide Sent, Updated;
    if act.Send? && v.state == Connected {
      SentKeeps(c, v, act.message, act.result);
    } else {
      UpdatedKeeps(v.(reading := true, readInterest := true));
      UpdatedKeeps(v.(reading := false, readInterest := false));
    }
  }

  lemma UpdatedKeeps(v: View)
    ensures Updated(v) == v.(registered := true, inKernel := Updated(v).inKernel)
  {
  }

  lemma DoNothingClosed(c: Config, v: View)
    ensures v.state == Disconnected ==> Do(c, v, StartRead) == v
  {
  }

  lemma SentKeeps(c: Config, v: View, data: Bytes, w: WriteResult)
    requires v.state == Connected
    ensures Onward(v, Sent(c, v, data, w)) && Sent(c, v, data, w).state == Connected
  {
    hide Raised, Took;
  }

  lemma {:induction false} DoAllKeeps(c: Config, v: View, acts: seq<Action>)
    ensures Onward(v, DoAll(c, v, acts))
  {
    if acts != [] {
      hide Do;
      DoAllKeeps(c, v, acts[..|acts| - 1]);
      DoKeeps(c, DoAll(c, v, acts[..|acts| - 1]), acts[|acts| - 1]);
    }
  }

  lemma SentFlows(c: Config, v: View, data: Bytes, w: WriteResult)
    requires Flows(v) && Live(v.state)
    ensures var u := Sent(c, v, data, w);
      && Flows(u) && u.state == v.state && u.reading == v.reading && u.readInterest == v.readInterest
      && u.halfCloses == v.halfCloses
      && (v.outputBuffer != [] ==> u.outputBuffer != [] && u.accepted == v.accepted + data)
      && (v.outputBuffer == [] ==>
         && (u.outputBuffer == [] <==> w == Broken || Took(w, |data|) == |data|)
         && u.accepted == v.accepted + if w == Broken then [] else data)
  {
    hide Raised, Took;
    var n := if v.outputBuffer == [] then Took(w, |data|) else 0;
    SplitSent(v.wire, v.outputBuffer, data, n);
  }

  lemma SplitSent(wire: Bytes, buffer: Bytes, data: Bytes, n: nat)
    requires n <= |data|
    ensures wire + buffer + data == wire + (buffer + data)
    ensures buffer == [] ==> wire + data == wire + data[..n] + (buffer + data[n..])
    ensures wire + [] == wire && wire + data[..0] == wire && data[0..] == data
  {
    assert data[..n] + data[n..] == data;
  }

  lemma WritesThroughStep(acts: seq<Action>)
    requires acts != []
    ensures var before, last := acts[..|acts| - 1], acts[|acts| - 1];
      WritesThrough(acts) <==> WritesThrough(before) && (last.Send? && !Leaves(before) ==>
        last.result == Broken || Took(last.result, |last.message|) == |last.message|)
  {
    hide Leaves;
    var n := |acts| - 1;
    forall i | 0 <= i < n ensures acts[..n][..i] == acts[..i] && acts[..n][i] == acts[i] {}
    if WritesThrough(acts) {
      forall i | 0 <= i < n && acts[..n][i].Send? && !Leaves(acts[..n][..i])
        ensures var a := acts[..n][i]; a.result == Broken || Took(a.result, |a.message|) == |a.message|
      {
        assert acts[i].Send?;
      }
    }
  }

  lemma LeavesStep(acts: seq<Action>)
    requires acts != []
    ensures var before, last := acts[..|acts| - 1], acts[|acts| - 1];
      && (Leaves(acts) <==> Leaves(before) || last == Shutdown || last == ForceClose)
      && (Leaves(before) <==> Shutdown in before || ForceClose in before)
      && (ForceClose in acts <==> ForceClose in before || last == ForceClose)
      && (Shutdown in acts <==> Shutdown in before || last == Shutdown)
  {
    assert acts == acts[..|acts| - 1] + [acts[|acts| - 1]];
  }

  lemma {:induction false} UserObeyed(c: Config, v: View, acts: seq<Action>)
    requires Flows(v)
    ensures Obeyed(v, acts, DoAll(c, v, acts))
  {
    if acts == [] {
      assert v.accepted + [] == v.accepted;
    } else {
      hide StreamObeyed, EndObeyed, SwitchObeyed, Do;
      var u := DoAll(c, v, acts[..|acts| - 1]);
      UserObeyed(c, v, acts[..|acts| - 1]);
      StreamStep(c, v, acts, u);
      EndStep(c, v, acts, u);
      SwitchStep(c, v, acts, u);
    }
  }

  lemma DoStream(c: Config, v: View, act: Action)
    requires Flows(v)
    ensures var u := Do(c, v, act);
      && Flows(u)
      && (act.Send? && v.state == Connected ==> u == Sent(c, v, act.message, act.result))
      && (!(act.Send? && v.state == Connected) ==> u.accepted == v.accepted && u.outputBuffer == v.outputBuffer)
  {
    hide Sent;
    if act.Send? && v.state == Connected {
      SentFlows(c, v, act.message, act.result);
    }
  }

  lemma StreamStep(c: Config, v: View, acts: seq<Action>, u: View)
    requires acts != [] && Flows(v)
    requires StreamObeyed(v, acts[..|acts| - 1], u) && EndObeyed(v, acts[..|acts| - 1], u)
    ensures StreamObeyed(v, acts, Do(c, u, acts[|acts| - 1]))
  {
    hide Leaves, WritesThrough, Sent, Do, Flows;
    var before, last := acts[..|acts| - 1], acts[|acts| - 1];
    LeavesStep(acts);
    WritesThroughStep(acts);
    DoStream(c, u, last);
    var b := Taken(v.outputBuffer == [], before);
    if last.Send? && u.state == Connected {
      SentFlows(c, u, last.message, last.result);
      assert v.accepted + b + last.message == v.accepted + (b + last.message);
    }
    assert b + [] == b && v.accepted + b + [] == v.accepted + b;
  }

  lemma DoEnd(c: Config, v: View, act: Action)
    requires Flows(v)
    ensures var u := Do(c, v, act);
      && u.state == (if Live(v.state) && (act == ForceClose || act == Shutdown) then Disconnecting else v.state)
      && v.queued <= u.queued
      && (ForceCloseInLoop in u.queued[|v.queued|..] <==> act == ForceClose && Live(v.state))
      && u.halfCloses == v.halfCloses +
         if act == Shutdown && v.state == Connected && v.outputBuffer == [] then 1 else 0
  {
    hide Sent, Updated;
    UpdatedKeeps(v.(reading := true, readInterest := true));
    UpdatedKeeps(v.(reading := false, readInterest := false));
    if act.Send? && v.state == Connected {
      SentQuietly(c, v, act.message, act.result);
    }
    assert act == ForceClose && Live(v.state) ==> Do(c, v, act).queued[|v.queued|..] == [ForceCloseInLoop];
  }

  lemma EndStep(c: Config, v: View, acts: seq<Action>, u: View)
    requires acts != [] && Flows(u) && EndObeyed(v, acts[..|acts| - 1], u)
    ensures EndObeyed(v, acts, Do(c, u, acts[|acts| - 1]))
  {
    hide Leaves, Do;
    var last := acts[|acts| - 1];
    LeavesStep(acts);
    DoEnd(c, u, last);
    DoStream(c, u, last);
    if u.outputBuffer != [] {
      DoBuffered(c, u, last);
    }
    var q, r := u.queued, Do(c, u, last).queued;
    assert r[|v.queued|..] == q[|v.queued|..] + r[|q|..];
  }

  lemma SentQuietly(c: Config, v: View, data: Bytes, w: WriteResult)
    ensures var u := Sent(c, v, data, w);
      && u.state == v.state && u.halfCloses == v.halfCloses && v.queued <= u.queued
      && ForceCloseInLoop !in u.queued[|v.queued|..]
      && u.reading == v.reading && u.readInterest == v.readInterest
  {
    hide Took;
  }

  lemma DoSwitch(c: Config, v: View, act: Action)
    ensures var u := Do(c, v, act);
      if act == StopRead then !u.reading && !u.readInterest
      else if act == StartRead && Live(v.state) then u.reading && u.readInterest
      else u.reading == v.reading && u.readInterest == v.readInterest
  {
    hide Sent;
    if act.Send? && v.state == Connected {
      SentQuietly(c, v, act.message, act.result);
    }
  }

  lemma SwitchStep(c: Config, v: View, acts: seq<Action>, u: View)
    requires acts != [] && EndObeyed(v, acts[..|acts| - 1], u) && SwitchObeyed(v, acts[..|acts| - 1], u)
    ensures SwitchObeyed(v, acts, Do(c, u, acts[|acts| - 1]))
  {
    hide Leaves, Do;
    DoSwitch(c, u, acts[|acts| - 1]);
  }

  lemma DoBuffered(c: Config, v: View, act: Action)
    requires v.outputBuffer != []
    ensures var u := Do(c, v, act);
      u.wire == v.wire && v.outputBuffer <= u.outputBuffer && (v.writeInterest ==> u.writeInterest)
  {
    hide Raised, Took;
    if act.Send? {
      assert v.wire + act.message[..0] == v.wire;
    }
  }

  /** User code never overtakes what is buffered. */
  lemma {:induction false} BufferedFirst(c: Config, v: View, acts: seq<Action>)
    requires v.outputBuffer != []
    ensures var u := DoAll(c, v, acts);
      u.wire == v.wire && v.outputBuffer <= u.outputBuffer && (v.writeInterest ==> u.writeInterest)
  {
    if acts != [] {
      hide Do;
      BufferedFirst(c, v, acts[..|acts| - 1]);
      DoBuffered(c, DoAll(c, v, acts[..|acts| - 1]), acts[|acts| - 1]);
    }
  }

  /** On a writable socket a prefix of the buffer is written; drained, it is watched no more, and half-closed if due. */
  lemma WritableWrites(c: Config, v: View, w: WriteResult)
    requires Flows(v) && Live(v.state)
    ensures var u, n := Flushed(c, v, w), Took(w, |v.outputBuffer|);
      && Flows(u) && u.wire == v.wire + v.outputBuffer[..n] && u.outputBuffer == v.outputBuffer[n..]
      && u.accepted == v.accepted && u.state == v.state && u.reading == v.reading && u.readInterest == v.readInterest
      && (u.writeInterest <==> n < |v.outputBuffer|)
      && u.queued == v.queued +
         (if 0 < n == |v.outputBuffer| && c.hasWriteComplete then [WriteComplete] else [])
      && u.halfCloses == v.halfCloses + if 0 < n == |v.outputBuffer| && v.state == Disconnecting then 1 else 0
  {
    var n := Took(w, |v.outputBuffer|);
    assert v.outputBuffer == v.outputBuffer[..n] + v.outputBuffer[n..];
    assert v.wire + v.outputBuffer[..n] + v.outputBuffer[n..] == v.accepted;
  }

  /** Whether the event ends the connection. */
  predicate Ends(e: Event) {
    (e.hup && !e.in_) || ((e.in_ || e.priOrRdhup) && e.read == 0)
  }

  /** Whether it brings data, which the user is given. */
  predicate Arrives(e: Event) {
    !Ends(e) && (e.in_ || e.priOrRdhup) && e.read > 0
  }

  /** The connection is down, the down callback was called once more and could only stop reading. */
  predicate WentDown(v: View, user: seq<Action>, u: View) {
    && u.state == Disconnected && u.downs == v.downs + 1 && v.queued <= u.queued
    && SwitchObeyed(v.(state := Disconnected, readInterest := false), user, u)
  }

  /** User code saw what arrived and was obeyed, no byte of the buffer was overtaken, and none lost. */
  predicate WentOn(v: View, arrived: bool, user: seq<Action>, written: nat, u: View) {
    && Flows(u) && u.downs == v.downs && u.destroyQueued == v.destroyQueued
    && u.state == (if arrived && Leaves(user) then Disconnecting else v.state)
    && (u.outputBuffer != [] ==> u.halfCloses == v.halfCloses)
    && (u.state == Disconnecting && u.outputBuffer == []
        && (v.outputBuffer != [] || (v.state == Connected && ForceClose !in user)) ==>
          u.halfCloses == v.halfCloses + 1)
    && u.accepted == v.accepted +
       (if arrived && v.state == Connected then Taken(v.outputBuffer == [], user) else [])
    && (arrived && ForceClose in user ==> ForceCloseInLoop in u.queued)
    && SwitchObeyed(v, if arrived then user else [], u)
    && written <= |v.outputBuffer| && v.wire + v.outputBuffer[..written] <= u.wire
  }

  /**
    What an event does to a live connection: it ends it, or user code gets what arrived and is
    obeyed, and then what is buffered is written if the socket is writable.
  */
  lemma EventLaws(c: Config, v: View, e: Event, user: seq<Action>)
    requires Flows(v) && Live(v.state) && (e.hup && e.priOrRdhup ==> e.in_)
    ensures var u := Handled(c, v, e, user);
      if Ends(e) then WentDown(v, user, u) && u.destroyQueued == v.destroyQueued + 1
      else WentOn(v, Arrives(e), user, if e.out then Took(e.written, |v.outputBuffer|) else 0, u)
  {
    hide DoAll, Closed, Flushed, Took, WentOn;
    if Ends(e) {
      ClosedLaws(c, v, user);
      FlushedAfterClose(c, Closed(c, v, user), e.written);
    } else {
      var mid := if Arrives(e) then DoAll(c, v, user) else v;
      UserWentOn(c, v, Arrives(e), user);
      if e.out {
        WroteOn(c, v, Arrives(e), user, mid, e.written);
      }
    }
  }

  /** An event that brings nothing only lets the buffer be written. */
  lemma QuietEvent(c: Config, v: View, e: Event, user: seq<Action>)
    requires Flows(v) && Live(v.state)
    ensures var u, n := Handled(c, v, e, user), if e.out then Took(e.written, |v.outputBuffer|) else 0;
      !Ends(e) && !Arrives(e) ==>
        && u.state == v.state && u.accepted == v.accepted
        && u.wire == v.wire + v.outputBuffer[..n] && u.outputBuffer == v.outputBuffer[n..]
        && u.queued == v.queued + (if 0 < n == |v.outputBuffer| && c.hasWriteComplete then [WriteComplete] else [])
        && u.halfCloses == v.halfCloses + if 0 < n == |v.outputBuffer| && v.state == Disconnecting then 1 else 0
  {
    hide Handled, Flushed, Took, Flows;
    WritableWrites(c, v, e.written);
    if !Ends(e) && !Arrives(e) {
      QuietlyHandled(c, v, e, user);
    }
    assert v.wire + v.outputBuffer[..0] == v.wire && v.queued + [] == v.queued;
  }

  lemma QuietlyHandled(c: Config, v: View, e: Event, user: seq<Action>)
    requires !Ends(e) && !Arrives(e)
    ensures Handled(c, v, e, user) == if e.out then Flushed(c, v, e.written) else v
  {
    hide DoAll, Closed, Flushed;
  }

  lemma UserWentOn(c: Config, v: View, arrived: bool, user: seq<Action>)
    requires Flows(v) && Live(v.state)
    ensures var mid := if arrived then DoAll(c, v, user) else v;
      && WentOn(v, arrived, user, 0, mid)
      && (v.outputBuffer != [] ==> mid.wire == v.wire && v.outputBuffer <= mid.outputBuffer)
  {
    hide DoAll, Taken;
    if arrived {
      UserObeyed(c, v, user);
      DoAllKeeps(c, v, user);
      if v.outputBuffer != [] {
        BufferedFirst(c, v, user);
      }
      var u := DoAll(c, v, user);
      assert u.queued == v.queued + u.queued[|v.queued|..];
    }
    assert v.accepted + [] == v.accepted;
    assert v.wire + v.outputBuffer[..0] == v.wire;
  }

  lemma WroteOn(c: Config, v: View, arrived: bool, user: seq<Action>, mid: View, w: WriteResult)
    requires Flows(v) && Live(v.state) && WentOn(v, arrived, user, 0, mid)
    requires v.outputBuffer != [] ==> mid.wire == v.wire && v.outputBuffer <= mid.outputBuffer
    ensures WentOn(v, arrived, user, Took(w, |v.outputBuffer|), Flushed(c, mid, w))
  {
    hide Flushed, Taken, Leaves;
    WritableWrites(c, mid, w);
    FlushedKeeps(c, mid, w);
  }

  /** The kernel's answer, taken for one about this many bytes. */
  function Clipped(w: WriteResult, len: nat): (r: WriteResult)
    ensures Honest(r, len) && (if r.Wrote? then r.n else 0) == Took(w, len)
  {
    if w.Wrote? then Wrote(Took(w, len)) else w
  }

  lemma FlushedIs(c: Config, v: View, u: View, w: WriteResult)
    requires Flows(v) && Flows(u) && (Live(v.state) || !v.writeInterest)
    requires Live(v.state) ==> v.registered && (v.inKernel <==> v.readInterest || v.writeInterest)
    requires Live(v.state) ==> u.registered && (u.inKernel <==> u.readInterest || u.writeInterest)
    requires var n := if v.writeInterest then Took(w, |v.outputBuffer|) else 0;
      && u.wire == v.wire + v.outputBuffer[..n] && u.outputBuffer == v.outputBuffer[n..]
      && u.queued == v.queued + (if n > 0 && u.outputBuffer == [] && c.hasWriteComplete then [WriteComplete] else [])
      && u.halfCloses == v.halfCloses + if n > 0 && u.outputBuffer == [] && v.state == Disconnecting then 1 else 0
    requires u == v.(wire := u.wire, queued := u.queued, outputBuffer := u.outputBuffer, halfCloses := u.halfCloses,
                     writeInterest := u.writeInterest, registered := u.registered, inKernel := u.inKernel)
    requires !v.writeInterest ==>
      !u.writeInterest && u.registered == v.registered && u.inKernel == v.inKernel
    ensures u == Flushed(c, v, w)
  {
    assert v.wire + v.outputBuffer[..0] == v.wire && v.outputBuffer[0..] == v.outputBuffer;
    assert v.queued + [] == v.queued;
  }

  lemma FlushedKeeps(c: Config, v: View, w: WriteResult)
    ensures var u := Flushed(c, v, w);
      && u.downs == v.downs && u.destroyQueued == v.destroyQueued && u.ups == v.ups
      && u.destroyRuns == v.destroyRuns && u.torn == v.torn
      && (!v.writeInterest ==> u == v)
  {
  }

  lemma FlushedAfterClose(c: Config, v: View, w: WriteResult)
    requires !v.writeInterest
    ensures Flushed(c, v, w) == v
  {
  }

  lemma {:induction false} ClosedUser(c: Config, v: View, acts: seq<Action>)
    requires v.state == Disconnected && !v.writeInterest && !v.readInterest
    ensures var u := DoAll(c, v, acts); !u.writeInterest && !u.readInterest && u.state == Disconnected
  {
    if acts != [] {
      ClosedUser(c, v, acts[..|acts| - 1]);
    }
  }

  lemma ClosedLaws(c: Config, v: View, user: seq<Action>)
    ensures var u := Closed(c, v, user);
      && u.state == Disconnected && !u.writeInterest && !u.readInterest
      && u.downs == v.downs + 1 && u.destroyQueued == v.destroyQueued + 1 && Destroy in u.queued
      && v.wire <= u.wire && v.queued <= u.queued
      && SwitchObeyed(v.(state := Disconnected, readInterest := false), user, u)
  {
    hide DoAll;
    ClosedUser(c, GoneDown(v), user);
    UserObeyed(c, GoneDown(v), user);
    DoAllKeeps(c, GoneDown(v), user);
  }

  /** What running this functor, already off the queue, does. */
  predicate FunctorRun(v: View, f: Functor, user: seq<Action>, u: View) {
    match f
    case ForceCloseInLoop =>
      if Live(v.state) then WentDown(v, user, u) && u.destroyQueued == v.destroyQueued + 1
      else u == v
    case Destroy =>
      && !u.registered && !u.inKernel && u.destroyRuns == v.destroyRuns + 1
      && (v.state == Connected ==> WentDown(v, user, u))
    case _ => Obeyed(v, user, u)
  }

  /** What one turn of a run does, whatever the state it starts in. */
  predicate TurnObeyed(v: View, step: Step, u: View) {
    match step
    case Polled(e, user) =>
      if Live(v.state) then
        if Ends(e) then WentDown(v, user, u) && u.destroyQueued == v.destroyQueued + 1
        else WentOn(v, Arrives(e), user, if e.out then Took(e.written, |v.outputBuffer|) else 0, u)
      else
        && u.state == v.state
        && (v.inKernel && e.hup ==> WentDown(v, user, u) && u.destroyQueued == v.destroyQueued + 1)
        && (!v.inKernel || !e.hup ==> u == v)
    case RunNext(user) =>
      if v.queued == [] then u == v else FunctorRun(v.(queued := v.queued[1..]), v.queued[0], user, u)
    case Call(user) => Obeyed(v, user, u)
    case Teardown(user) =>
      if v.state == Connected then WentDown(v, user, u) && !u.registered && !u.inKernel && u.torn == v.torn + 1
      else u == v
  }

  lemma TurnLaws(c: Config, v: View, step: Step)
    requires Flows(v) && v.state != Connecting
    requires v.state == Disconnected ==> !v.readInterest && !v.writeInterest
    requires step.Polled? && step.event.hup && step.event.priOrRdhup ==> step.event.in_
    ensures TurnObeyed(v, step, Turn(c, v, step))
  {
    hide DoAll, Flushed, WentOn, Took, Obeyed;
    match step {
      case Polled(e, user) =>
        if Live(v.state) {
          EventLaws(c, v, e, user);
        } else {
          ClosedLaws(c, v, user);
        }
      case RunNext(user) =>
        if v.queued != [] {
          RanNextLaws(c, v, user);
        }
      case Call(user) => UserObeyed(c, v, user);
      case Teardown(user) => DestroyedLaws(c, v, user);
    }
  }

  lemma RanNextLaws(c: Config, v: View, user: seq<Action>)
    requires Flows(v) && v.state != Connecting && v.queued != []
    ensures TurnObeyed(v, RunNext(user), RanNext(c, v, user))
  {
    hide DoAll, Obeyed;
    var w := v.(queued := v.queued[1..]);
    UserObeyed(c, w, user);
    ClosedLaws(c, w, user);
    DestroyedLaws(c, w.(destroyRuns := v.destroyRuns + 1), user);
  }

  lemma DestroyedLaws(c: Config, v: View, user: seq<Action>)
    ensures var u := Destroyed(c, v, user);
      && !u.registered && !u.inKernel && u.destroyRuns == v.destroyRuns
      && (v.state == Connected ==> WentDown(v, user, u) && u.torn == v.torn + 1)
  {
    hide DoAll;
    UserObeyed(c, GoneDown(v), user);
    DoAllKeeps(c, GoneDown(v), user);
  }

  lemma PlayStep(c: Config, v: View, steps: seq<Step>, i: nat)
    requires i < |steps|
    ensures Play(c, v, steps[..i + 1]) == Turn(c, Play(c, v, steps[..i]), steps[i])
  {
    assert steps[..i + 1][..i] == steps[..i];
  }

  lemma PlayStart(c: Config, v: View, steps: seq<Step>)
    ensures Play(c, v, steps[..0]) == v
  {
  }

  /** The callbacks a send adds are those of Raised, and the rest is what its contract says. */
  lemma SentIs(c: Config, v: View, u: View, data: Bytes, w: WriteResult)
    requires Flows(v) && Flows(u) && Live(v.state) && Honest(w, |data|)
    requires v.registered && (v.inKernel <==> v.readInterest || v.writeInterest)
    requires u.registered && (u.inKernel <==> u.readInterest || u.writeInterest)
    requires var direct := v.outputBuffer == [];
      && u.accepted == v.accepted + (if direct && w == Broken then [] else data)
      && u.wire == v.wire + (if direct && w.Wrote? then data[..w.n] else [])
      && u.queued == v.queued + Raised(c, |v.outputBuffer|, |u.outputBuffer|, direct && w == Wrote(|data|))
    requires u == v.(accepted := u.accepted, wire := u.wire, queued := u.queued, outputBuffer := u.outputBuffer,
                     writeInterest := u.writeInterest, inKernel := u.inKernel)
    ensures u == Sent(c, v, data, w)
  {
    var direct := v.outputBuffer == [];
    var n := if direct then Took(w, |data|) else 0;
    SplitSent(v.wire, v.outputBuffer, data, n);
    assert v.wire + data[..0] == v.wire;
    if direct && w == Broken {
      assert v.accepted == v.wire + [] && u.wire == v.wire && u.accepted == v.accepted;
      Cancel(u.wire, u.outputBuffer, []);
    } else {
      Cancel(u.wire, u.outputBuffer, v.outputBuffer + data[n..]);
    }
  }

  lemma Cancel(p: Bytes, a: Bytes, b: Bytes)
    ensures p + a == p + b ==> a == b
  {
    if p + a == p + b {
      assert a == (p + a)[|p|..] && b == (p + b)[|p|..];
    }
  }

  class TcpConnection {
    var state: ConnState
    var reading: bool
    var readInterest: bool
    var writeInterest: bool
    var outputBuffer: Bytes
    var queued: seq<Functor>
    /** Whether the channel is in the poller's map, and in the kernel's set. */
    var registered: bool
    var inKernel: bool
    const config: Config

    /** Bytes the kernel has taken, and bytes the user has handed over and not lost whole. */
    ghost var wire: Bytes
    ghost var accepted: Bytes
    /** All states so far, and how often each callback and the half-close happened. */
    ghost var history: seq<ConnState>
    ghost var ups: nat
    ghost var downs: nat
    ghost var halfCloses: nat
    /** Between the end of the connection and the call of the close callback. */
    ghost var closing: bool
    /** The bytes on the wire when the write side was shut down. */
    ghost var wireAtHalfClose: Bytes
    ghost var exposure: Exposure
    /** How often the server asked for destruction, how often it was carried out, and whether without a close. */
    ghost var destroyQueued: nat
    ghost var destroyRuns: nat
    ghost var torn: nat

    /** Nothing is lost, duplicated or reordered, and write interest is on exactly when something is left to write. */
    ghost predicate StreamOK()
      reads `state, `accepted, `wire, `outputBuffer, `writeInterest, `readInterest
    {
      Stream(state, accepted, wire, outputBuffer, writeInterest, readInterest)
    }

    static ghost predicate Stream(state: ConnState, accepted: Bytes, wire: Bytes, buffer: Bytes, write: bool,
                                  read: bool) {
      && (state != Disconnected ==> accepted == wire + buffer && (write <==> buffer != []))
      && ((state == Disconnected || state == Connecting) ==> !read && !write)
      && (state == Connecting ==> buffer == [])
    }

    /** The state moved forward only; up once, then down once, and once more for every close that found it closed. */
    ghost predicate LifeOK()
      reads `state, `history, `ups, `downs, `exposure
    {
      Life(state, history, ups, downs, exposure.again)
    }

    static ghost predicate Life(state: ConnState, history: seq<ConnState>, ups: nat, downs: nat, again: nat) {
      && |history| > 0 && history[|history| - 1] == state && Forward(history)
      && ups == (if state == Connecting then 0 else 1)
      && downs == (if state == Disconnected then 1 + again else 0)
    }

    static ghost predicate Forward(history: seq<ConnState>) {
      forall i, j :: 0 <= i < j < |history| ==> Rank(history[i]) <= Rank(history[j])
    }

    /** The write side is shut down at most once, with an empty buffer, and stays silent from then on. */
    ghost predicate HalfCloseOK()
      reads `state, `halfCloses, `wire, `wireAtHalfClose, `outputBuffer
    {
      HalfClosed(state, halfCloses, wire, wireAtHalfClose, outputBuffer)
    }

    static ghost predicate HalfClosed(state: ConnState, halfCloses: nat, wire: Bytes, wireAtHalfClose: Bytes,
                                      buffer: Bytes) {
      && halfCloses <= 1
      && (halfCloses == 1 ==>
         Rank(state) >= 2 && wire == wireAtHalfClose
         && (state != Disconnected ==> buffer == []))
    }

    /** Every close is followed by one request for destruction. */
    ghost predicate DestroyOK()
      reads `queued, `downs, `closing, `torn, `destroyQueued, `destroyRuns
    {
      CountOK(queued, downs, closing, torn, destroyQueued, destroyRuns)
    }

    static ghost predicate CountOK(q: seq<Functor>, downs: nat, closing: bool, torn: nat, asked: nat, done: nat) {
      && multiset(q)[Destroy] + done == asked
      && asked + torn + (if closing then 1 else 0) == downs
    }

    static lemma CountAppend(q: seq<Functor>, r: seq<Functor>, downs: nat, closing: bool, torn: nat, asked: nat,
                             done: nat)
      requires CountOK(q, downs, closing, torn, asked, done) && forall f :: f in r ==> f != Destroy
      ensures CountOK(q + r, downs, closing, torn, asked, done)
    {
      assert Destroy !in r;
    }

    static lemma CountClose(q: seq<Functor>, downs: nat, torn: nat, asked: nat, done: nat)
      requires CountOK(q, downs, true, torn, asked, done)
      ensures CountOK(q + [Destroy], downs, false, torn, asked + 1, done)
      ensures CountOK(q, downs, false, torn + 1, asked, done)
    {
      assert multiset(q + [Destroy]) == multiset(q) + multiset([Destroy]);
    }

    static lemma CountPop(q: seq<Functor>, downs: nat, torn: nat, asked: nat, done: nat)
      requires CountOK(q, downs, false, torn, asked, done) && q != []
      ensures CountOK(q[1..], downs, false, torn, asked, if q[0] == Destroy then done + 1 else done)
      ensures q[0] == Destroy ==> downs > 0
    {
      assert q == [q[0]] + q[1..];
      assert multiset(q) == multiset([q[0]]) + multiset(q[1..]);
    }

    /**
      A live connection is in the kernel's set exactly if it wants something; a closed one
      exactly if it is exposed and has been neither removed nor closed again since.
    */
    ghost predicate KernelOK()
      reads `state, `reading, `readInterest, `writeInterest, `registered, `inKernel, `exposure
    {
      Tracked(state, reading, readInterest, writeInterest, registered, inKernel, exposure)
    }

    static ghost predicate Tracked(state: ConnState, reading: bool, read: bool, write: bool, registered: bool,
                                   inKernel: bool, x: Exposure) {
      && (inKernel ==> registered)
      && match state
         case Connecting =>
           x == NOT_EXPOSED && !read && !write && (if reading then !registered else inKernel)
         case Disconnected =>
           && !read && !write
           && (inKernel <==> (x.noInterest || x.stopped) && !x.cleared)
           && (x.noInterest || x.stopped ==> !reading)
           && (x.cleared ==> x.noInterest || x.stopped)
           && x.again <= 1 && (x.again == 1 ==> x.cleared)
           && (!x.removed && x.again == 0 ==> !x.cleared && registered)
         case _ =>
           x == NOT_EXPOSED && registered && (inKernel <==> read || write) && (reading ==> read)
    }

    static lemma TrackedStop(state: ConnState, reading: bool, read: bool, write: bool, registered: bool,
                             inKernel: bool, x: Exposure)
      requires Tracked(state, reading, read, write, registered, inKernel, x) && (reading || read)
      ensures Tracked(state, false, false, write, true, Pollers.InKernelAfter(inKernel, write),
                      if state == Disconnected then x.(stopped := true) else x)
    {
    }

    static lemma TrackedLive(state: ConnState, reading: bool, read: bool, write: bool, registered: bool,
                             inKernel: bool, x: Exposure)
      requires Tracked(state, reading, read, write, registered, inKernel, x)
      requires state == Connected || state == Disconnecting
      ensures Tracked(Disconnecting, reading, read, write, registered, inKernel, x)
      ensures Tracked(state, reading, read, true, true, true, x)
      ensures Tracked(state, true, true, write, true, true, x)
      ensures write ==> Tracked(state, reading, read, false, true, Pollers.InKernelAfter(inKernel, read), x)
      ensures Tracked(Disconnected, reading, false, false, true, Pollers.InKernelAfter(inKernel, false),
                      x.(noInterest := !(read || write)))
    {
    }

    static lemma TrackedClosed(reading: bool, registered: bool, inKernel: bool, x: Exposure)
      requires Tracked(Disconnected, reading, false, false, registered, inKernel, x)
      ensures inKernel ==> x.again == 0 && Tracked(Disconnected, reading, false, false, true,
                                                   Pollers.InKernelAfter(inKernel, false),
                                                   x.(cleared := true, again := x.again + 1))
      ensures Tracked(Disconnected, reading, false, false, false, false,
                      x.(cleared := x.noInterest || x.stopped, removed := true))
      ensures !x.removed && x.again == 0 ==> (inKernel <==> x.noInterest || x.stopped)
    {
    }

    ghost function Now(): View
      reads this
    {
      View(state, reading, readInterest, writeInterest, registered, inKernel, wire, accepted, outputBuffer, queued,
           ups, downs, halfCloses, destroyQueued, destroyRuns, torn)
    }

    ghost predicate Valid()
      reads this
    {
      && Stream(state, accepted, wire, outputBuffer, writeInterest, readInterest)
      && Life(state, history, ups, downs, exposure.again)
      && HalfClosed(state, halfCloses, wire, wireAtHalfClose, outputBuffer)
      && CountOK(queued, downs, closing, torn, destroyQueued, destroyRuns)
      && Tracked(state, reading, readInterest, writeInterest, registered, inKernel, exposure)
    }

    constructor (config: Config)
      ensures Valid() && !closing && state == Connecting && queued == [] && wire == [] && accepted == []
      ensures reading && destroyQueued == 0 && this.config == config
    {
      this.config := config;
      state, reading, readInterest, writeInterest := Connecting, true, false, false;
      outputBuffer, queued, registered, inKernel := [], [], false, false;
      exposure, destroyQueued, destroyRuns, torn := NOT_EXPOSED, 0, 0, 0;
      wire, accepted, history := [], [], [Connecting];
      ups, downs, halfCloses, closing, wireAtHalfClose := 0, 0, 0, false, [];
    }

    method SetState(s: ConnState)
      modifies `state, `history
      ensures state == s && history == old(history) + [s]
    {
      state := s;
      history := history + [s];
    }

    /** Channel::update, by way of the poller. */
    method UpdateChannel()
      modifies `registered, `inKernel
      ensures registered && inKernel == Pollers.InKernelAfter(old(inKernel), readInterest || writeInterest)
    {
      registered := true;
      inKernel := readInterest || writeInterest || !inKernel;
    }

    method QueueInLoop(f: Functor)
      modifies `queued
      ensures queued == old(queued) + [f]
    {
      queued := queued + [f];
    }

    /** write(2) on the connection's socket: the kernel takes a prefix, or nothing. */
    method Write(data: Bytes, w: WriteResult)
      requires Honest(w, |data|)
      modifies `wire
      ensures wire == old(wire) + if w.Wrote? then data[..w.n] else []
    {
      if w.Wrote? {
        wire := wire + data[..w.n];
      }
    }

    /** The attempt to write directly, made when nothing is queued. */
    method WriteDirectly(data: Bytes, w: WriteResult) returns (nwrote: nat, remaining: nat, faultError: bool)
      requires Honest(w, |data|)
      modifies `queued, `wire
      ensures nwrote + remaining == |data| && wire == old(wire) + data[..nwrote]
      ensures nwrote == (if w.Wrote? then w.n else 0) && (faultError <==> w == Broken)
      ensures queued == old(queued) + if w == Wrote(|data|) && config.hasWriteComplete then [WriteComplete] else []
    {
      nwrote, remaining, faultError := 0, |data|, false;
      Write(data, w);
      if w.Wrote? {
        nwrote := w.n;
        remaining := |data| - nwrote;
        if remaining == 0 && config.hasWriteComplete {
          QueueInLoop(WriteComplete);
        }
      } else if w != WouldBlock {
        if w == Broken {
          faultError := true;
        }
      }
    }

    /** What was not written goes to the buffer. */
    method AppendRest(rest: Bytes)
      requires rest != []
      modifies `outputBuffer, `writeInterest, `queued, `registered, `inKernel
      ensures if old(writeInterest) then registered == old(registered) && inKernel == old(inKernel)
              else registered && inKernel
      ensures outputBuffer == old(outputBuffer) + rest && writeInterest
      ensures queued == old(queued) + Raised(config, |old(outputBuffer)|, |outputBuffer|, false)
    {
      var oldLen := |outputBuffer|;
      if oldLen + |rest| >= config.highWaterMark && oldLen < config.highWaterMark && config.hasHighWaterMark {
        QueueInLoop(HighWaterMark(oldLen + |rest|));
      }
      outputBuffer := outputBuffer + rest;
      if !writeInterest {
        writeInterest := true;
        UpdateChannel();
      }
    }

    /** Written at once or buffered, a message follows what was accepted before. */
    static lemma StreamSent(state: ConnState, accepted: Bytes, wire: Bytes, buffer: Bytes, write: bool, read: bool,
                            data: Bytes, n: nat)
      requires Stream(state, accepted, wire, buffer, write, read) && (state == Connected || state == Disconnecting)
      requires n <= |data| && (n > 0 ==> buffer == [])
      ensures var rest := n < |data|;
        Stream(state, accepted + data, wire + data[..n], if rest then buffer + data[n..] else buffer,
               write || rest, read)
      ensures wire + data[..0] == wire && accepted + [] == accepted && (write <==> buffer != [])
    {
      assert data[..n] + data[n..] == data;
      if buffer == [] {
        assert wire + [] == wire;
        assert (wire + data[..n]) + (buffer + data[n..]) == wire + (data[..n] + data[n..]);
        assert n == |data| ==> wire + data[..n] + [] == wire + data;
      } else {
        assert data[..0] == [] && data[0..] == data && wire + (buffer + data) == wire + buffer + data;
      }
    }

    method SendInLoop(data: Bytes, w: WriteResult)
      requires StreamOK() && KernelOK() && state != Connecting && Honest(w, |data|)
      modifies this
      ensures unchanged(`state, `reading, `readInterest, `history, `ups, `downs, `halfCloses, `closing,
                        `wireAtHalfClose, `exposure, `destroyQueued, `destroyRuns, `torn)
      ensures StreamOK() && KernelOK()
      ensures state == Disconnected ==>
        wire == old(wire) && outputBuffer == old(outputBuffer)
        && queued == old(queued) && accepted == old(accepted) && inKernel == old(inKernel)
      ensures state != Disconnected ==>
        var direct := old(outputBuffer) == [];
        && accepted == old(accepted) + (if direct && w == Broken then [] else data)
        && wire == old(wire) + (if direct && w.Wrote? then data[..w.n] else [])
        && queued == old(queued) +
           (if direct && w == Wrote(|data|) then (if config.hasWriteComplete then [WriteComplete] else [])
            else if config.hasHighWaterMark && |old(outputBuffer)| < config.highWaterMark <= |outputBuffer|
            then [HighWaterMark(|outputBuffer|)]
            else [])
    {
      if state == Disconnected {
        return;
      }
      hide Tracked, Stream;
      TrackedLive(state, reading, readInterest, writeInterest, registered, inKernel, exposure);
      StreamSent(state, accepted, wire, outputBuffer, writeInterest, readInterest, data, 0);
      ghost var before := wire;
      var nwrote, remaining, faultError := 0, |data|, false;
      if !writeInterest && |outputBuffer| == 0 {
        nwrote, remaining, faultError := WriteDirectly(data, w);
      }
      if !faultError {
        StreamSent(state, accepted, before, outputBuffer, writeInterest, readInterest, data, nwrote);
        accepted := accepted + data;
        if remaining > 0 {
          AppendRest(data[nwrote..]);
        }
      }
    }

    /** Sending, as a step from one view to the next. */
    method SendConnected(data: Bytes, w: WriteResult)
      requires StreamOK() && KernelOK() && state == Connected && Honest(w, |data|)
      modifies this
      ensures unchanged(`state, `history, `ups, `downs, `halfCloses, `closing, `wireAtHalfClose, `exposure,
                        `destroyQueued, `destroyRuns, `torn)
      ensures StreamOK() && KernelOK() && Now() == Sent(config, old(Now()), data, w)
      ensures var direct := old(outputBuffer) == [];
        && accepted == old(accepted) + (if direct && w == Broken then [] else data)
        && wire == old(wire) + (if direct && w.Wrote? then data[..w.n] else [])
        && queued == old(queued) + Raised(config, |old(outputBuffer)|, |outputBuffer|, direct && w == Wrote(|data|))
    {
      hide StreamOK, KernelOK, Sent;
      SentConsistent();
      ghost var v := Now();
      SendInLoop(data, w);
      SentConsistent();
      SentIs(config, v, Now(), data, w);
    }

    /** send(): messages are taken in the connected state only. */
    method SendMessage(data: Bytes, w: WriteResult)
      requires Valid() && Honest(w, |data|)
      modifies this
      ensures unchanged(`state, `reading, `readInterest, `history, `ups, `downs, `halfCloses, `closing,
                        `wireAtHalfClose, `exposure, `destroyQueued, `destroyRuns, `torn)
      ensures Valid()
      ensures old(wire) <= wire && old(accepted) <= accepted && old(queued) <= queued
      ensures Now() == Do(config, old(Now()), Send(data, w))
      ensures state != Connected ==>
        wire == old(wire) && outputBuffer == old(outputBuffer) && queued == old(queued)
        && accepted == old(accepted)
      ensures state == Connected ==>
        var direct := old(outputBuffer) == [];
        && accepted == old(accepted) + (if direct && w == Broken then [] else data)
        && wire == old(wire) + (if direct && w.Wrote? then data[..w.n] else [])
        && queued == old(queued) + Raised(config, |old(outputBuffer)|, |outputBuffer|, direct && w == Wrote(|data|))
    {
      if state == Connected {
        hide StreamOK, LifeOK, CountOK, Tracked, Sent;
        ghost var queued0 := queued;
        SendConnected(data, w);
        CountAppend(queued0, queued[|queued0|..], downs, closing, torn, destroyQueued, destroyRuns);
        assert queued == queued0 + queued[|queued0|..];
      }
    }

    lemma SentConsistent()
      requires StreamOK() && KernelOK() && state == Connected
      ensures Flows(Now()) && registered && (inKernel <==> readInterest || writeInterest)
    {
    }

    method ShutdownInLoop()
      requires StreamOK() && state == Disconnecting && halfCloses == 0
      modifies `halfCloses, `wireAtHalfClose
      ensures halfCloses == (if outputBuffer == [] then 1 else 0)
      ensures outputBuffer == [] ==> wireAtHalfClose == wire == accepted
      ensures outputBuffer != [] ==> wireAtHalfClose == old(wireAtHalfClose)
    {
      if !writeInterest {
        halfCloses := halfCloses + 1;
        wireAtHalfClose := wire;
      }
    }

    /** Half-close: at once when nothing is left to write, otherwise when the buffer has drained. */
    method ShutdownNow()
      requires Valid()
      modifies this
      ensures unchanged(`reading, `readInterest, `writeInterest, `outputBuffer, `queued, `registered, `inKernel, `wire,
                        `accepted, `ups, `downs, `closing, `exposure, `destroyQueued, `destroyRuns, `torn)
      ensures Valid()
      ensures old(history) <= history
      ensures Now() == Do(config, old(Now()), Shutdown)
      ensures old(state) != Connected ==> state == old(state) && halfCloses == old(halfCloses)
      ensures old(state) == Connected ==> state == Disconnecting && halfCloses == (if outputBuffer == [] then 1 else 0)
    {
      hide CountOK, Tracked;
      if state == Connected {
        TrackedLive(state, reading, readInterest, writeInterest, registered, inKernel, exposure);
        SetState(Disconnecting);
        ShutdownInLoop();
      }
    }

    method ForceCloseNow()
      requires Valid()
      modifies this
      ensures unchanged(`reading, `readInterest, `writeInterest, `outputBuffer, `registered, `inKernel, `wire,
                        `accepted, `ups, `downs, `halfCloses, `closing, `wireAtHalfClose, `exposure, `destroyQueued,
                        `destroyRuns, `torn)
      ensures Valid()
      ensures old(history) <= history
      ensures Now() == Do(config, old(Now()), ForceClose)
      ensures state == Disconnected ==> old(state) == Disconnected
      ensures if Rank(old(state)) in {1, 2} then state == Disconnecting && queued == old(queued) + [ForceCloseInLoop]
              else state == old(state) && queued == old(queued)
    {
      hide CountOK, Tracked;
      if state == Connected || state == Disconnecting {
        TrackedLive(state, reading, readInterest, writeInterest, registered, inKernel, exposure);
        SetState(Disconnecting);
        CountAppend(queued, [ForceCloseInLoop], downs, closing, torn, destroyQueued, destroyRuns);
        QueueInLoop(ForceCloseInLoop);
      }
    }

    method StartReadInLoop()
      requires Valid() && (state == Connected || state == Disconnecting)
      modifies this
      ensures unchanged(`state, `writeInterest, `outputBuffer, `queued, `wire, `accepted, `history, `ups, `downs,
                        `halfCloses, `closing, `wireAtHalfClose, `exposure, `destroyQueued, `destroyRuns, `torn)
      ensures Valid() && reading && readInterest && inKernel && registered
      ensures Now() == Do(config, old(Now()), StartRead)
    {
      hide Tracked;
      TrackedLive(state, reading, readInterest, writeInterest, registered, inKernel, exposure);
      if !reading || !readInterest {
        readInterest := true;
        UpdateChannel();
        reading := true;
      } else {
        LiveInKernel();
      }
    }

    lemma LiveInKernel()
      requires KernelOK() && (state == Connected || state == Disconnecting)
      ensures inKernel <==> readInterest || writeInterest
    {
    }

    lemma NotReading()
      requires StreamOK()
      ensures Stream(state, accepted, wire, outputBuffer, writeInterest, false)
    {
    }

    /** disableReading, and reading_ goes off with it. */
    method DisableReading()
      requires Valid() && (reading || readInterest)
      modifies this
      ensures unchanged(`history, `closing, `wireAtHalfClose)
      ensures Valid() && Now() == Updated(old(Now()).(reading := false, readInterest := false))
      ensures exposure == if state == Disconnected then old(exposure).(stopped := true) else old(exposure)
    {
      hide Stream, Life, HalfClosed, CountOK, Tracked, Pollers.InKernelAfter;
      NotReading();
      TrackedStop(state, reading, readInterest, writeInterest, registered, inKernel, exposure);
      SwitchReadingOff();
      exposure := if state == Disconnected then exposure.(stopped := true) else exposure;
    }

    method SwitchReadingOff()
      modifies `reading, `readInterest, `registered, `inKernel
      ensures Now() == Updated(old(Now()).(reading := false, readInterest := false))
    {
      readInterest := false;
      UpdateChannel();
      reading := false;
    }

    /** On a closed connection whose reading is still on this puts the channel into the kernel's set. */
    method StopReadInLoop()
      requires Valid()
      modifies this
      ensures unchanged(`state, `writeInterest, `outputBuffer, `queued, `wire, `accepted, `history, `ups,
                        `downs, `halfCloses, `closing, `wireAtHalfClose, `destroyQueued, `destroyRuns, `torn)
      ensures Valid() && !reading && !readInterest && Now() == Do(config, old(Now()), StopRead)
      ensures var effect := old(reading || readInterest);
        && registered == (effect || old(registered))
        && inKernel == (if effect then Pollers.InKernelAfter(old(inKernel), writeInterest) else old(inKernel))
        && exposure == old(exposure).(stopped := old(exposure.stopped) || (effect && state == Disconnected))
    {
      hide Valid, Pollers.InKernelAfter;
      if reading || readInterest {
        DisableReading();
      }
    }

    lemma Consistent()
      requires Valid()
      ensures Flows(Now()) && (state == Connected || state == Disconnecting ==> registered)
      ensures state == Connected || state == Disconnecting ==> (inKernel <==> readInterest || writeInterest)
      ensures state == Disconnected ==> !readInterest && !writeInterest
      ensures halfCloses <= 1 && (halfCloses == 1 ==> Rank(state) >= 2)
    {
    }

    /** One call of user code; it must not restart reading on a closed connection. */
    method UserCall(act: Action)
      requires Valid() && state != Connecting && (act.Send? ==> Honest(act.result, |act.message|))
      modifies this
      ensures Valid() && Now() == Do(config, old(Now()), act)
      ensures closing == old(closing) && old(history) <= history
      ensures exposure == old(exposure).(stopped := exposure.stopped) && (old(exposure.stopped) ==> exposure.stopped)
    {
      hide Valid, Do;
      DoKeeps(config, Now(), act);
      DoNothingClosed(config, Now());
      match act {
        case Send(message, result) => SendMessage(message, result);
        case Shutdown => ShutdownNow();
        case ForceClose => ForceCloseNow();
        case StartRead => if state != Disconnected { StartReadInLoop(); }
        case StopRead => StopReadInLoop();
      }
    }

    /** User code, called back on the loop thread: all it asks for is done. */
    method UserCode(acts: seq<Action>)
      requires Valid() && state != Connecting && HonestActions(acts)
      modifies this
      ensures Valid() && Now() == DoAll(config, old(Now()), acts) && Obeyed(old(Now()), acts, Now())
      ensures closing == old(closing) && old(history) <= history
      ensures Rank(old(state)) <= Rank(state) && state != Connecting
      ensures old(state) == Disconnected <==> state == Disconnected
      ensures ups == old(ups) && downs == old(downs) && torn == old(torn)
      ensures destroyQueued == old(destroyQueued) && destroyRuns == old(destroyRuns)
      ensures exposure == old(exposure).(stopped := exposure.stopped) && (old(exposure.stopped) ==> exposure.stopped)
      ensures acts == [] ==> Now() == old(Now()) && exposure == old(exposure)
      ensures old(queued) <= queued && old(wire) <= wire && old(accepted) <= accepted
      ensures old(halfCloses) == 1 ==> halfCloses == 1 && wire == old(wire)
    {
      hide Valid, Do, DoAll, Obeyed;
      ghost var v := Now();
      Consistent();
      UserObeyed(config, v, acts);
      DoAllKeeps(config, v, acts);
      DoNothing(config, v, acts);
      var i := 0;
      while i < |acts|
        invariant 0 <= i <= |acts|
        invariant Valid() && Now() == DoAll(config, v, acts[..i]) && state != Connecting
        invariant closing == old(closing) && old(history) <= history
        invariant exposure == old(exposure).(stopped := exposure.stopped)
        invariant old(exposure.stopped) ==> exposure.stopped
        invariant i == 0 ==> exposure == old(exposure)
        decreases |acts| - i
      {
        DoAllStep(config, v, acts, i);
        DoKeeps(config, Now(), acts[i]);
        UserCall(acts[i]);
        i := i + 1;
      }
      assert acts[..i] == acts;
    }

    lemma StreamDrained()
      requires state != Connecting && state != Disconnected && outputBuffer == [] && accepted == wire
      ensures Stream(state, accepted, wire, outputBuffer, false, readInterest)
    {
      assert wire + [] == wire;
    }

    method NotifyComplete()
      requires DestroyOK()
      modifies `queued
      ensures DestroyOK() && queued == old(queued) + (if config.hasWriteComplete then [WriteComplete] else [])
    {
      hide CountOK;
      if config.hasWriteComplete {
        CountAppend(queued, [WriteComplete], downs, closing, torn, destroyQueued, destroyRuns);
        QueueInLoop(WriteComplete);
      }
    }

    /** The buffer has just drained: stop watching for writability, tell the user, and half-close if that is due. */
    method Drained()
      requires state != Connecting && state != Disconnected && outputBuffer == [] && accepted == wire && halfCloses == 0
      requires DestroyOK() && KernelOK() && writeInterest
      modifies this
      ensures unchanged(`state, `reading, `readInterest, `outputBuffer, `wire, `accepted, `history, `ups, `downs,
                        `closing, `exposure, `destroyQueued, `destroyRuns, `torn)
      ensures StreamOK() && HalfCloseOK() && DestroyOK() && KernelOK()
      ensures !writeInterest && registered && inKernel == Pollers.InKernelAfter(old(inKernel), readInterest)
      ensures queued == old(queued) + (if config.hasWriteComplete then [WriteComplete] else [])
      ensures halfCloses == if state == Disconnecting then 1 else 0
    {
      hide CountOK, Tracked, Stream, Pollers.InKernelAfter;
      TrackedLive(state, reading, readInterest, writeInterest, registered, inKernel, exposure);
      StreamDrained();
      writeInterest := false;
      UpdateChannel();
      NotifyComplete();
      if state == Disconnecting {
        ShutdownInLoop();
      }
    }

    method HandleWrite(w: WriteResult)
      requires Valid() && Honest(w, |outputBuffer|)
      modifies this
      ensures unchanged(`state, `reading, `readInterest, `accepted, `history, `ups, `downs, `closing, `exposure,
                        `destroyQueued, `destroyRuns, `torn)
      ensures Valid()
      ensures !old(writeInterest) ==> !writeInterest && registered == old(registered) && inKernel == old(inKernel)
      ensures var n := if old(writeInterest) && w.Wrote? then w.n else 0;
        && n <= |old(outputBuffer)| && wire == old(wire) + old(outputBuffer)[..n]
           && outputBuffer == old(outputBuffer)[n..]
        && queued == old(queued) +
           (if n > 0 && outputBuffer == [] && config.hasWriteComplete then [WriteComplete] else [])
        && halfCloses == old(halfCloses) + if n > 0 && outputBuffer == [] && state == Disconnecting then 1 else 0
    {
      hide Life, Tracked, CountOK;
      if writeInterest {
        Write(outputBuffer, w);
        if w.Wrote? && w.n > 0 {
          assert outputBuffer[..w.n] + outputBuffer[w.n..] == outputBuffer;
          outputBuffer := outputBuffer[w.n..];
          if |outputBuffer| == 0 {
            Drained();
          }
        }
      }
    }

    /** Writing out, as a step from one view to the next. */
    method HandleWritable(w: WriteResult)
      requires Valid() && state != Connecting
      modifies this
      ensures Valid() && Now() == Flushed(config, old(Now()), w)
      ensures unchanged(`state, `accepted, `history, `ups, `downs, `closing, `exposure, `destroyQueued, `destroyRuns,
                        `torn)
      ensures old(wire) <= wire && (!old(writeInterest) ==> inKernel == old(inKernel))
    {
      hide Valid, Flushed, Flows, Clipped, Took;
      Consistent();
      ghost var v := Now();
      HandleWrite(Clipped(w, |outputBuffer|));
      Consistent();
      FlushedIs(config, v, Now(), w);
    }

    /** A connection on which handleClose can be called: a live one, or a closed one that the kernel still reports. */
    ghost predicate Closable()
      reads `state, `inKernel
    {
      state == Connected || state == Disconnecting || (state == Disconnected && inKernel)
    }

    /**
      Disconnected: all interest off, and the down callback is due.  disableAll is an update
      with an empty mask: a channel that had no interest enters the kernel's set.
    */
    method GoDown()
      requires Valid() && !closing && Closable()
      modifies this
      ensures unchanged(`reading, `outputBuffer, `queued, `wire, `accepted, `ups, `halfCloses,
                        `wireAtHalfClose, `destroyQueued, `destroyRuns, `torn)
      ensures Valid() && closing && state == Disconnected && downs == old(downs) + 1
      ensures Now() == GoneDown(old(Now()))
      ensures history == old(history) + [Disconnected] && !readInterest && !writeInterest
      ensures inKernel <==> old(state) != Disconnected && !old(readInterest || writeInterest)
      ensures exposure == Downed(old(state), old(readInterest || writeInterest), old(exposure))
      ensures exposure.again == (if old(state) == Disconnected then 1 else 0)
      ensures old(state) != Disconnected ==> old(exposure) == NOT_EXPOSED
    {
      hide Stream, Life, HalfClosed, CountOK, Tracked, Downed, Pollers.InKernelAfter;
      GoingDown();
      ghost var x := Downed(state, readInterest || writeInterest, exposure);
      Disconnect();
      exposure, closing, downs := x, true, downs + 1;
    }

    /** kDisconnected and disableAll. */
    method Disconnect()
      modifies `state, `history, `readInterest, `writeInterest, `registered, `inKernel
      ensures state == Disconnected && history == old(history) + [Disconnected] && !readInterest && !writeInterest
      ensures registered && inKernel == Pollers.InKernelAfter(old(inKernel), false)
    {
      SetState(Disconnected);
      readInterest, writeInterest := false, false;
      UpdateChannel();
    }

    /** What a close makes of the exposure: of a live connection, and of one that is closed already. */
    static function Downed(state: ConnState, wants: bool, x: Exposure): Exposure {
      if state == Disconnected then x.(cleared := true, again := x.again + 1) else x.(noInterest := !wants)
    }

    lemma GoingDown()
      requires Valid() && !closing && Closable()
      ensures var x := Downed(state, readInterest || writeInterest, exposure);
        && downs == x.again
        && x.again == (if state == Disconnected then 1 else 0)
        && (state != Disconnected ==> exposure == NOT_EXPOSED)
        && Tracked(Disconnected, reading, false, false, true, Pollers.InKernelAfter(inKernel, false), x)
      ensures Pollers.InKernelAfter(inKernel, false) <==> state != Disconnected && !(readInterest || writeInterest)
      ensures CountOK(queued, downs + 1, true, torn, destroyQueued, destroyRuns)
      ensures Stream(Disconnected, accepted, wire, outputBuffer, false, false)
      ensures Life(Disconnected, history + [Disconnected], ups, downs + 1,
                   Downed(state, readInterest || writeInterest, exposure).again)
      ensures HalfClosed(Disconnected, halfCloses, wire, wireAtHalfClose, outputBuffer)
    {
      if state == Disconnected {
        TrackedClosed(reading, registered, inKernel, exposure);
      } else {
        TrackedLive(state, reading, readInterest, writeInterest, registered, inKernel, exposure);
      }
    }

    /**
      The connection ends: no interest left, down callback, close callback, which has it
      destroyed later.  Called on a closed connection, where the assertion at its head
      fails, it does all that a second time.
    */
    method HandleClose(user: seq<Action>)
      requires Valid() && !closing && Closable() && HonestActions(user)
      modifies this
      ensures Valid() && !closing && state == Disconnected && ups == old(ups)
      ensures Now() == Closed(config, old(Now()), user)
      ensures downs == old(downs) + 1 && destroyQueued == old(destroyQueued) + 1
      ensures destroyRuns == old(destroyRuns) && torn == old(torn)
      ensures exposure.again == (if old(state) == Disconnected then 1 else 0)
      ensures old(state) == Disconnected ==> !inKernel && exposure.removed == old(exposure.removed)
      ensures old(state) != Disconnected ==>
        exposure.noInterest == !old(readInterest || writeInterest) && !exposure.removed
      ensures old(wire) <= wire && old(accepted) <= accepted && old(history) <= history
      ensures old(queued) <= queued && Destroy in queued
      ensures user == [] ==>
        && queued == old(queued) + [Destroy] && reading == old(reading)
        && inKernel == (old(state) != Disconnected && !old(readInterest || writeInterest))
    {
      hide Stream, Life, HalfClosed, CountOK, Tracked, HonestActions, DoAll, Obeyed;
      GoDown();
      UserCode(user);
      CallBackClosed();
      ClearedIsOut();
    }

    /** The close callback: the server queues the destruction. */
    method CallBackClosed()
      requires Valid() && closing
      modifies `queued, `closing, `destroyQueued
      ensures Valid() && !closing && queued == old(queued) + [Destroy] && destroyQueued == old(destroyQueued) + 1
    {
      hide Stream, Life, HalfClosed, CountOK, Tracked;
      CountClose(queued, downs, torn, destroyQueued, destroyRuns);
      closing := false;
      destroyQueued := destroyQueued + 1;
      QueueInLoop(Destroy);
    }

    lemma ClearedIsOut()
      requires KernelOK() && state == Disconnected
      ensures exposure.cleared ==> !inKernel
    {
    }

    method HandleRead(n: int, user: seq<Action>)
      requires Valid() && !closing && (state == Connected || state == Disconnecting) && HonestActions(user)
      modifies this
      ensures Valid() && !closing && state != Connecting && exposure.again == 0
      ensures state == Disconnected <==> n == 0
      ensures Now() == AfterRead(config, old(Now()), n, user)
      ensures old(wire) <= wire && old(accepted) <= accepted && old(history) <= history
    {
      hide Stream, Life, HalfClosed, CountOK, HonestActions, DoAll, Obeyed, Closed;
      if n > 0 {
        UserCode(user);
      } else if n == 0 {
        HandleClose(user);
      }
    }

    /**
      An event may have been reported before another handler of the same round dropped the
      last interest.  A closed connection is reported exactly if the kernel has it, with
      what the kernel reports unasked; a hang-up then closes it again.
    */
    method HandleEvent(e: Event, user: seq<Action>)
      requires Valid() && !closing && Closable() && HonestActions(user)
      requires e.hup && e.priOrRdhup ==> e.in_
      requires state == Disconnected ==> e == Unasked(e)
      modifies this
      ensures Valid() && !closing && state != Connecting && Now() == Handled(config, old(Now()), e, user)
      ensures old(wire) <= wire && old(accepted) <= accepted && old(history) <= history
      ensures old(state) != Disconnected && !Ends(e) && !Arrives(e) ==>
        var n := if e.out then Took(e.written, |old(outputBuffer)|) else 0;
        && state == old(state) && accepted == old(accepted)
        && wire == old(wire) + old(outputBuffer)[..n] && outputBuffer == old(outputBuffer)[n..]
        && queued == old(queued) +
           (if 0 < n == |old(outputBuffer)| && config.hasWriteComplete then [WriteComplete] else [])
        && halfCloses == old(halfCloses) + if 0 < n == |old(outputBuffer)| && state == Disconnecting then 1 else 0
      ensures old(state) != Disconnected && !Ends(e) ==>
        WentOn(old(Now()), Arrives(e), user, if e.out then Took(e.written, |old(outputBuffer)|) else 0, Now())
      ensures state == Disconnected <==> old(state) == Disconnected || Ends(e)
      ensures exposure.again == if old(state) == Disconnected && e.hup then 1 else 0
      ensures old(state) == Disconnected && e.hup ==>
        downs == old(downs) + 1 && destroyQueued == old(destroyQueued) + 1 && !inKernel
    {
      hide Stream, Life, HalfClosed, CountOK, HonestActions, DoAll, Closed, AfterRead, Flushed, WentOn, Flows;
      ghost var v := Now();
      Consistent();
      if state == Disconnected {
        TrackedClosed(reading, registered, inKernel, exposure);
        NoWriteInterest();
      } else {
        EventLaws(config, v, e, user);
        QuietEvent(config, v, e, user);
      }
      if e.hup && !e.in_ {
        HandleClose(user);
        NoWriteInterest();
      }
      if e.in_ || e.priOrRdhup {
        HandleRead(e.read, user);
      }
      if e.out {
        HandleWritable(e.written);
      }
    }

    lemma NoWriteInterest()
      requires StreamOK() && state == Disconnected
      ensures !readInterest && !writeInterest
    {
    }

    method ForceCloseInLoopNow(user: seq<Action>)
      requires Valid() && !closing && HonestActions(user)
      modifies this
      ensures Valid() && !closing && old(history) <= history && old(wire) <= wire && old(accepted) <= accepted
      ensures Now() == if Live(old(state)) then Closed(config, old(Now()), user) else old(Now())
      ensures state == if old(state) == Connecting then Connecting else Disconnected
      ensures exposure.again == old(exposure.again)
      ensures Rank(old(state)) in {1, 2} && user == [] ==>
        && queued == old(queued) + [Destroy] && reading == old(reading) && !exposure.removed
        && inKernel == !old(readInterest || writeInterest) && downs == old(downs) + 1
    {
      hide Stream, Life, HalfClosed, CountOK, HonestActions, DoAll, Closed;
      if state == Connected || state == Disconnecting {
        HandleClose(user);
      }
    }

    method ConnectEstablished(user: seq<Action>)
      requires Valid() && !closing && state == Connecting && HonestActions(user)
      modifies this
      ensures Valid() && !closing && ups == 1 && downs == 0 && Rank(state) in {1, 2}
      ensures Now() == Established(config, old(Now()), user)
      ensures var up := old(Now()).(state := Connected, readInterest := true, registered := true, inKernel := true,
                                    ups := 1);
        Obeyed(up, user, Now())
      ensures user == [] ==>
        && state == Connected && queued == old(queued) && reading == old(reading)
        && readInterest && !writeInterest
    {
      hide CountOK, DoAll, Obeyed, HonestActions;
      SetState(Connected);
      readInterest := true;
      UpdateChannel();
      ups := ups + 1;
      UserCode(user);
    }

    /** A connection still up when it is destroyed goes down without a close callback. */
    method GoDownUnclosed(user: seq<Action>)
      requires Valid() && !closing && state == Connected && HonestActions(user)
      modifies this
      ensures Valid() && !closing && state == Disconnected && exposure.again == 0 && ups == old(ups)
      ensures Now() == DoAll(config, GoneDown(old(Now())), user).(torn := old(torn) + 1)
      ensures destroyQueued == old(destroyQueued) && destroyRuns == old(destroyRuns) && downs == old(downs) + 1
      ensures old(wire) <= wire && old(accepted) <= accepted && old(history) <= history
    {
      hide Stream, Life, HalfClosed, CountOK, Tracked, HonestActions, DoAll, Obeyed;
      GoDown();
      UserCode(user);
      CountClose(queued, downs, torn, destroyQueued, destroyRuns);
      closing := false;
      torn := torn + 1;
    }

    /** Channel::remove; the poller forgets the channel whatever it wanted. */
    method RemoveChannel()
      requires Valid() && state != Connecting
      modifies `registered, `inKernel, `exposure
      ensures StreamOK() && LifeOK() && HalfCloseOK() && DestroyOK() && !registered && !inKernel
      ensures state == Disconnected ==> KernelOK()
      ensures exposure.removed && exposure.again == old(exposure.again)
    {
      hide CountOK, Tracked;
      if state == Disconnected {
        NoWriteInterest();
        TrackedClosed(reading, registered, inKernel, exposure);
      }
      registered, inKernel := false, false;
      exposure := exposure.(cleared := exposure.noInterest || exposure.stopped, removed := true);
    }

    /**
      Takes the channel out of the poller and the kernel's set.  Channel::remove asserts
      that no interest is left, which a half-closed connection may violate; such a
      connection is taken out, but never gets to be disconnected.
    */
    method ConnectDestroyed(user: seq<Action>)
      requires Valid() && !closing && HonestActions(user) && state != Connecting
      modifies this
      ensures StreamOK() && LifeOK() && HalfCloseOK() && DestroyOK() && !closing && !registered && !inKernel
      ensures old(state) != Disconnecting ==> Valid() && state == Disconnected && !readInterest && !writeInterest
      ensures old(state) == Disconnecting ==>
        state == Disconnecting && readInterest == old(readInterest) && writeInterest == old(writeInterest)
      ensures Now() == Destroyed(config, old(Now()), user)
      ensures exposure.removed && exposure.again == (if old(state) == Connected then 0 else old(exposure.again))
      ensures destroyQueued == old(destroyQueued) && destroyRuns == old(destroyRuns)
      ensures downs == old(downs) + if old(state) == Connected then 1 else 0
      ensures old(wire) <= wire && old(accepted) <= accepted && old(history) <= history
    {
      hide LifeOK, HalfCloseOK, CountOK, Tracked, HonestActions;
      if state == Connected {
        GoDownUnclosed(user);
      }
      RemoveChannel();
    }

    /** Takes the next functor off the queue. */
    method PopFunctor() returns (f: Functor)
      requires Valid() && !closing && queued != []
      modifies `queued, `destroyRuns
      ensures Valid() && f == old(queued)[0] && queued == old(queued)[1..]
      ensures destroyRuns == old(destroyRuns) + if f == Destroy then 1 else 0
      ensures f == Destroy ==> state == Disconnected
    {
      hide Stream, HalfClosed, Forward, CountOK, Tracked;
      CountPop(queued, downs, torn, destroyQueued, destroyRuns);
      f := queued[0];
      queued := queued[1..];
      if f == Destroy {
        destroyRuns := destroyRuns + 1;
      }
    }

    /** The loop runs the next functor queued for the connection. */
    method RunNextFunctor(user: seq<Action>)
      requires Valid() && !closing && state != Connecting && queued != [] && HonestActions(user)
      modifies this
      ensures Valid() && !closing && state != Connecting && exposure.again == old(exposure.again)
      ensures Now() == RanNext(config, old(Now()), user)
      ensures old(wire) <= wire && old(accepted) <= accepted && old(history) <= history
      ensures old(queued)[0] in {ForceCloseInLoop, Destroy} ==> state == Disconnected
      ensures old(queued)[0] == Destroy ==> !registered && !inKernel && destroyRuns == old(destroyRuns) + 1
      ensures Rank(old(state)) in {1, 2} && old(queued)[0] == ForceCloseInLoop && user == [] ==>
        && queued == old(queued)[1..] + [Destroy] && reading == old(reading) && !exposure.removed
        && inKernel == !old(readInterest || writeInterest) && downs == old(downs) + 1
    {
      hide Valid, HonestActions, DoAll, Obeyed, Closed, Destroyed;
      var f := PopFunctor();
      match f {
        case WriteComplete => UserCode(user);
        case HighWaterMark(_) => UserCode(user);
        case ForceCloseInLoop => ForceCloseInLoopNow(user);
        case Destroy => ConnectDestroyed(user);
      }
    }

    /** The connection is or was exposed: reported by the kernel after it closed, or would have been. */
    ghost predicate Exposed()
      reads `exposure
    {
      exposure.noInterest || exposure.stopped
    }

    /** One turn of the loop thread; a closed connection is reported as long as the kernel has it. */
    method TakeTurn(step: Step)
      requires Valid() && !closing && state != Connecting && HonestActions(step.user)
      requires step.Polled? && step.event.hup && step.event.priOrRdhup ==> step.event.in_
      modifies this
      ensures Valid() && !closing && state != Connecting && Now() == Turn(config, old(Now()), step)
    {
      hide Stream, Life, HalfClosed, CountOK, Tracked, HonestActions, Handled, RanNext, Destroyed, DoAll, Obeyed,
        WentOn;
      match step {
        case Polled(event, user) =>
          if state == Connected || state == Disconnecting {
            HandleEvent(event, user);
          } else if inKernel {
            HandleEvent(Unasked(event), user);
          }
        case RunNext(user) => if queued != [] { RunNextFunctor(user); }
        case Call(user) => UserCode(user);
        case Teardown(user) => if state == Connected { ConnectDestroyed(user); }
      }
    }

    /** What a state of a run is like. */
    lemma Summary()
      requires Valid() && !closing && state != Connecting
      ensures state != Disconnected ==> accepted == wire + outputBuffer && (writeInterest <==> outputBuffer != [])
      ensures ups == 1 && downs == (if state == Disconnected then 1 + exposure.again else 0)
      ensures exposure.again <= 1 && (!Exposed() ==> exposure.again == 0)
      ensures destroyQueued <= downs <= destroyQueued + torn && destroyRuns <= destroyQueued
      ensures state == Disconnected && !Exposed() ==> downs == 1 && destroyQueued + torn == 1
      ensures state == Disconnected && !exposure.removed && exposure.again == 0 ==> (inKernel <==> Exposed())
      ensures state == Disconnected && !Exposed() ==> !inKernel
      ensures halfCloses <= 1 && (halfCloses == 1 ==> wire == wireAtHalfClose)
      ensures forall i, j :: 0 <= i < j < |history| ==> Rank(history[i]) <= Rank(history[j])
    {
    }

    /**
      Every run: whatever the kernel answers, poll reports and user code does, in any
      order the loop thread can produce.  A closed connection, until its channel is
      removed, is in the kernel's set exactly if it had no interest when it went down or
      a stopRead took effect afterwards; if it never was exposed it goes down once and
      its destruction is asked for once, and in any case at most twice.
    */
    method Run(established: seq<Action>, steps: seq<Step>)
      requires Valid() && !closing && state == Connecting && HonestActions(established)
      requires forall i :: 0 <= i < |steps| ==> HonestActions(steps[i].user)
      requires forall i :: 0 <= i < |steps| && steps[i].Polled? ==>
        steps[i].event.hup && steps[i].event.priOrRdhup ==> steps[i].event.in_
      modifies this
      ensures Valid() && Now() == Play(config, Established(config, old(Now()), established), steps)
      ensures forall i :: 0 <= i < |steps| ==>
        var start := Established(config, old(Now()), established);
        TurnObeyed(Play(config, start, steps[..i]), steps[i], Play(config, start, steps[..i + 1]))
      ensures state != Disconnected ==> accepted == wire + outputBuffer && (writeInterest <==> outputBuffer != [])
      ensures ups == 1 && downs == (if state == Disconnected then 1 + exposure.again else 0)
      ensures exposure.again <= 1 && (!Exposed() ==> exposure.again == 0)
      ensures destroyQueued <= downs <= destroyQueued + torn && destroyRuns <= destroyQueued
      ensures state == Disconnected && !Exposed() ==> downs == 1 && destroyQueued + torn == 1
      ensures state == Disconnected && !exposure.removed && exposure.again == 0 ==> (inKernel <==> Exposed())
      ensures state == Disconnected && !Exposed() ==> !inKernel
      ensures halfCloses <= 1 && (halfCloses == 1 ==> wire == wireAtHalfClose)
      ensures forall i, j :: 0 <= i < j < |history| ==> Rank(history[i]) <= Rank(history[j])
    {
      hide Valid, Established, Turn, Play, TurnObeyed, HonestActions, Exposed;
      ConnectEstablished(established);
      ghost var v := Now();
      PlayStart(config, v, steps);
      var i := 0;
      while i < |steps|
        invariant 0 <= i <= |steps| && Valid() && !closing && state != Connecting
        invariant Now() == Play(config, v, steps[..i])
        invariant forall k :: 0 <= k < i ==>
          TurnObeyed(Play(config, v, steps[..k]), steps[k], Play(config, v, steps[..k + 1]))
      {
        Consistent();
        TurnLaws(config, Now(), steps[i]);
        PlayStep(config, v, steps, i);
        TakeTurn(steps[i]);
        i := i + 1;
      }
      assert steps[..i] == steps;
      Summary();
    }
  }

  /**
    A run on which the connection goes down twice and its destruction is asked for
    twice: stopRead with nothing to write, forceClose, and a hang-up of the peer that is
    polled before the first destruction.
  */
  method ClosedTwice() returns (c: TcpConnection)
    ensures fresh(c) && c.Valid() && c.state == Disconnected && c.downs == 2 && c.destroyQueued == 2
  {
    hide Do, DoAll, Handled, RanNext, Closed, Established, WentOn, Took;
    c := new TcpConnection(Config(64 * 1024 * 1024, false, false));
    c.ConnectEstablished([]);
    c.StopReadInLoop();
    c.ForceCloseNow();
    c.RunNextFunctor([]);
    c.HandleEvent(Event(true, false, false, true, false, 0, WouldBlock), []);
  }

  /** The other way: stopRead only after the connection was closed. */
  method ClosedTwiceByStopRead() returns (c: TcpConnection)
    ensures fresh(c) && c.Valid() && c.state == Disconnected && c.downs == 2 && c.destroyQueued == 2
  {
    hide Do, DoAll, Handled, RanNext, Closed, Established, WentOn, Took;
    c := new TcpConnection(Config(64 * 1024 * 1024, false, false));
    c.ConnectEstablished([]);
    c.ForceCloseNow();
    c.RunNextFunctor([]);
    c.StopReadInLoop();
    c.HandleEvent(Event(true, false, false, true, false, 0, WouldBlock), []);
  }
}
