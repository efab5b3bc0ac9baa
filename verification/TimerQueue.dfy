/**
  The timer queue: two ordered sets that must agree, timers allocated and freed by
  hand, callbacks that add and cancel timers, and one kernel timer to keep armed.
  Timers live in an explicit heap, so using a freed timer is a proof error.
*/
module TimerQueues {

  /** Addresses of timers; a freed address may be handed out again. */
  type Ptr = nat

  datatype Timer = Timer(expiration: int, interval: nat, sequence: nat) {
    predicate Repeat() { interval > 0 }
  }

  datatype Entry = Entry(when: int, timer: Ptr)

  datatype TimerId = TimerId(timer: Ptr, sequence: nat)

  /** The one-shot kernel timer: readable from its deadline on. armedAt is when it was set. */
  datatype Kernel = Idle | Armed(deadline: int, armedAt: int)

  datatype Action = Add(address: Ptr, when: int, interval: nat, now: int) | Cancel(id: TimerId)

  datatype Step = Act(action: Action) | Fire(now: int, end: int, scripts: seq<seq<Action>>)

  /** Which timer ran in which batch. */
  datatype Run = Run(batch: nat, sequence: nat)

  // ----- std::set<Entry> as its elements in order -----

  predicate Less(a: Entry, b: Entry) {
    a.when < b.when || (a.when == b.when && a.timer < b.timer)
  }

  ghost predicate Sorted(s: seq<Entry>) {
    forall i, j :: 0 <= i < j < |s| ==> Less(s[i], s[j])
  }

  function InsertEntry(s: seq<Entry>, e: Entry): seq<Entry> {
    if s == [] || Less(e, s[0]) then [e] + s else [s[0]] + InsertEntry(s[1..], e)
  }

  function EraseEntry(s: seq<Entry>, e: Entry): seq<Entry> {
    if s == [] then [] else if s[0] == e then s[1..] else [s[0]] + EraseEntry(s[1..], e)
  }

  /** How many entries, from the first, are due. */
  function CountDue(s: seq<Entry>, now: int): (n: nat)
    ensures n <= |s|
  {
    if s == [] || s[0].when > now then 0 else 1 + CountDue(s[1..], now)
  }

  lemma {:induction false} InsertSorted(s: seq<Entry>, e: Entry)
    requires Sorted(s) && e !in s
    ensures Sorted(InsertEntry(s, e)) && |InsertEntry(s, e)| == |s| + 1
    ensures forall x :: x in InsertEntry(s, e) <==> x in s || x == e
    ensures InsertEntry(s, e)[0] == if s == [] || Less(e, s[0]) then e else s[0]
  {
    if s != [] && !Less(e, s[0]) {
      InsertSorted(s[1..], e);
      var t := InsertEntry(s[1..], e);
      assert forall x :: x in s <==> x == s[0] || x in s[1..] by { assert s == [s[0]] + s[1..]; }
      forall j | 0 <= j < |t| ensures Less(s[0], t[j]) {
        assert t[j] in t;
      }
    }
  }

  lemma {:induction false} EraseSorted(s: seq<Entry>, e: Entry)
    requires Sorted(s)
    ensures Sorted(EraseEntry(s, e)) && |EraseEntry(s, e)| == |s| - if e in s then 1 else 0
    ensures forall x :: x in EraseEntry(s, e) <==> x in s && x != e
  {
    if s != [] {
      assert forall x :: x in s <==> x == s[0] || x in s[1..] by { assert s == [s[0]] + s[1..]; }
      if s[0] == e {
        assert e !in s[1..];
      } else {
        EraseSorted(s[1..], e);
        var t := EraseEntry(s[1..], e);
        forall j | 0 <= j < |t| ensures Less(s[0], t[j]) {
          assert t[j] in t;
        }
      }
    }
  }

  /** The entries split at the count are exactly those due and those not. */
  lemma {:induction false} DueSplit(s: seq<Entry>, now: int)
    requires Sorted(s)
    ensures var n := CountDue(s, now);
      && (forall i :: 0 <= i < n ==> s[i].when <= now) && (forall i :: n <= i < |s| ==> s[i].when > now)
      && Sorted(s[..n]) && Sorted(s[n..])
  {
    if s != [] && s[0].when <= now {
      DueSplit(s[1..], now);
      var n := CountDue(s[1..], now);
      forall i | 0 <= i < n + 1 ensures s[i].when <= now {
        if i > 0 { assert s[i] == s[1..][i - 1]; }
      }
      forall i | n + 1 <= i < |s| ensures s[i].when > now {
        assert s[i] == s[1..][i - 1];
      }
    } else if s != [] {
      forall i | 0 <= i < |s| ensures s[i].when > now {
        if i > 0 { assert Less(s[0], s[i]); }
      }
    }
  }

  // ----- the invariant, on values -----

  /** Every live timer is in both sets, except those in limbo: allocated but not queued, or split off as expired. */
  ghost predicate Agree(heap: map<Ptr, Timer>, timers: seq<Entry>, active: set<TimerId>, limbo: set<Ptr>) {
    && Sorted(timers) && |timers| == |active|
    && limbo <= heap.Keys
    && (forall e :: e in timers <==> e.timer in heap && e.timer !in limbo && heap[e.timer].expiration == e.when)
    && (forall id :: id in active <==> id.timer in heap && id.timer !in limbo && heap[id.timer].sequence == id.sequence)
  }

  /** Sequence numbers are never reused, so an id names at most one live timer, wherever it lives. */
  ghost predicate IdsOK(heap: map<Ptr, Timer>, issued: map<nat, Ptr>, numCreated: nat) {
    && (forall p :: p in heap ==> heap[p].sequence in issued && issued[heap[p].sequence] == p)
    && (forall q :: q in issued ==> 0 < q <= numCreated)
  }

  /** A cancelled timer is gone, or is in the batch being called and marked to be freed after it. */
  ghost predicate CancelOK(heap: map<Ptr, Timer>, limbo: set<Ptr>, canceling: set<TimerId>,
                           issued: map<nat, Ptr>, cancelledIn: map<nat, nat>, batch: nat) {
    && (forall q :: q in cancelledIn ==> q in issued && cancelledIn[q] <= batch)
    && (forall p :: p in heap && heap[p].sequence in cancelledIn ==>
          p in limbo && TimerId(p, heap[p].sequence) in canceling && cancelledIn[heap[p].sequence] == batch)
  }

  /** No timer ran in a batch after the one it was cancelled in. */
  ghost predicate RunsOK(runs: seq<Run>, cancelledIn: map<nat, nat>, batch: nat) {
    forall i :: 0 <= i < |runs| ==>
      && runs[i].batch <= batch
      && (runs[i].sequence in cancelledIn ==> runs[i].batch <= cancelledIn[runs[i].sequence])
  }

  /**
    A timer that ran again repeats, and ran in a later batch; so will every live timer that is
    not among those done in the batch being called, when it runs in a batch from bound on.
  */
  ghost predicate OnceOK(heap: map<Ptr, Timer>, issued: map<nat, Ptr>, repeating: set<nat>, runs: seq<Run>,
                         bound: nat, done: set<Ptr>) {
    && repeating <= issued.Keys
    && (forall p :: p in heap ==> (heap[p].Repeat() <==> heap[p].sequence in repeating))
    && (forall i :: 0 <= i < |runs| ==> runs[i].sequence in issued)
    && (forall i, j :: 0 <= i < j < |runs| && runs[i].sequence == runs[j].sequence ==>
          runs[i].batch < runs[j].batch && runs[i].sequence in repeating)
    && (forall p, i :: p in heap && p !in done && 0 <= i < |runs| && runs[i].sequence == heap[p].sequence ==>
          runs[i].batch < bound && runs[i].sequence in repeating)
  }

  function Max(a: int, b: int): int { if a > b then a else b }

  /** Pending timers have the kernel timer armed, no later than the first of them, but for the 100 microsecond clamp. */
  ghost predicate KernelOK(timers: seq<Entry>, kernel: Kernel) {
    timers != [] ==> kernel.Armed? && kernel.deadline <= Max(timers[0].when, kernel.armedAt + 100)
  }

  ghost predicate PositiveTimes(heap: map<Ptr, Timer>) {
    forall p :: p in heap ==> heap[p].expiration > 0
  }

  // ----- one timer in or out -----

  lemma AgreeAlloc(heap: map<Ptr, Timer>, timers: seq<Entry>, active: set<TimerId>, limbo: set<Ptr>, p: Ptr, t: Timer)
    requires Agree(heap, timers, active, limbo) && p !in heap
    ensures Agree(heap[p := t], timers, active, limbo + {p})
  {
  }

  lemma NotListed(heap: map<Ptr, Timer>, timers: seq<Entry>, active: set<TimerId>, limbo: set<Ptr>, e: Entry)
    requires Agree(heap, timers, active, limbo) && e.timer !in heap
    ensures e !in timers && e.timer !in limbo && Sorted(timers)
  {
  }

  lemma AgreeInsert(heap: map<Ptr, Timer>, timers: seq<Entry>, active: set<TimerId>, limbo: set<Ptr>, p: Ptr)
    requires Agree(heap, timers, active, limbo) && p in limbo
    ensures p in heap
    ensures var e, id := Entry(heap[p].expiration, p), TimerId(p, heap[p].sequence);
      e !in timers && id !in active && Agree(heap, InsertEntry(timers, e), active + {id}, limbo - {p})
  {
    InsertSorted(timers, Entry(heap[p].expiration, p));
  }

  lemma AgreeErase(heap: map<Ptr, Timer>, timers: seq<Entry>, active: set<TimerId>, limbo: set<Ptr>, id: TimerId)
    requires Agree(heap, timers, active, limbo) && id in active
    ensures id.timer in heap
    ensures var e := Entry(heap[id.timer].expiration, id.timer);
      e in timers && Agree(heap - {id.timer}, EraseEntry(timers, e), active - {id}, limbo)
  {
    EraseSorted(timers, Entry(heap[id.timer].expiration, id.timer));
  }

  lemma AgreeFree(heap: map<Ptr, Timer>, timers: seq<Entry>, active: set<TimerId>, limbo: set<Ptr>, p: Ptr)
    requires Agree(heap, timers, active, limbo) && p in limbo
    ensures Agree(heap - {p}, timers, active, limbo - {p})
  {
  }

  lemma AgreeRestart(heap: map<Ptr, Timer>, timers: seq<Entry>, active: set<TimerId>, limbo: set<Ptr>, p: Ptr,
      when: int)
    requires Agree(heap, timers, active, limbo) && p in limbo
    ensures p in heap && Agree(heap[p := heap[p].(expiration := when)], timers, active, limbo)
  {
  }

  lemma IdsAlloc(heap: map<Ptr, Timer>, issued: map<nat, Ptr>, n: nat, p: Ptr, t: Timer)
    requires IdsOK(heap, issued, n) && p !in heap && t.sequence == n + 1
    ensures n + 1 !in issued && IdsOK(heap[p := t], issued[n + 1 := p], n + 1)
  {
  }

  lemma CancelAlloc(heap: map<Ptr, Timer>, limbo: set<Ptr>, canceling: set<TimerId>, issued: map<nat, Ptr>,
                    cancelledIn: map<nat, nat>, batch: nat, p: Ptr, t: Timer)
    requires CancelOK(heap, limbo, canceling, issued, cancelledIn, batch) && p !in heap && t.sequence !in issued
    ensures CancelOK(heap[p := t], limbo + {p}, canceling, issued[t.sequence := p], cancelledIn, batch)
      && t.sequence !in cancelledIn
  {
  }

  /** A timer that was not cancelled may leave limbo. */
  lemma CancelShrink(heap: map<Ptr, Timer>, limbo: set<Ptr>, canceling: set<TimerId>, issued: map<nat, Ptr>,
                     cancelledIn: map<nat, nat>, batch: nat, p: Ptr)
    requires CancelOK(heap, limbo, canceling, issued, cancelledIn, batch) && p in heap
      && heap[p].sequence !in cancelledIn
    ensures CancelOK(heap, limbo - {p}, canceling, issued, cancelledIn, batch)
  {
  }

  /** Adding keeps the kernel timer in time for the first entry. */
  lemma KernelInsert(timers: seq<Entry>, kernel: Kernel, e: Entry, now: int)
    requires Sorted(timers) && e !in timers && KernelOK(timers, kernel)
    ensures KernelOK(InsertEntry(timers, e),
              if timers == [] || e.when < timers[0].when then Armed(Max(e.when, now + 100), now) else kernel)
  {
    InsertSorted(timers, e);
  }

  /** Cancelling an id: freed if pending, marked if in the batch being called, and cancelled from this batch on. */
  lemma CancelEffect(heap: map<Ptr, Timer>, timers: seq<Entry>, active: set<TimerId>, limbo: set<Ptr>,
                     canceling: set<TimerId>, issued: map<nat, Ptr>, n: nat, cancelledIn: map<nat, nat>,
                     batch: nat, runs: seq<Run>, id: TimerId, calling: bool)
    requires Agree(heap, timers, active, limbo) && IdsOK(heap, issued, n) && (calling || limbo == {})
    requires CancelOK(heap, limbo, canceling, issued, cancelledIn, batch) && RunsOK(runs, cancelledIn, batch)
    ensures var heap' := if id in active then heap - {id.timer} else heap;
      var canceling' := if id !in active && calling then canceling + {id} else canceling;
      var cancelledIn' := if id.sequence in issued && issued[id.sequence] == id.timer && id.sequence !in cancelledIn
        then cancelledIn[id.sequence := batch] else cancelledIn;
      && IdsOK(heap', issued, n) && CancelOK(heap', limbo, canceling', issued, cancelledIn', batch)
      && RunsOK(runs, cancelledIn', batch) && (forall q :: q in cancelledIn' ==> cancelledIn'[q] <= batch)
  {
    hide Sorted;
    var heap' := if id in active then heap - {id.timer} else heap;
    forall p | p in heap' && heap'[p].sequence == id.sequence && issued[id.sequence] == id.timer
      ensures p == id.timer && p in limbo && id !in active
    {
      assert issued[heap[p].sequence] == p;
    }
    assert id in active ==> issued[id.sequence] == id.timer;
  }

  lemma ActiveLive(heap: map<Ptr, Timer>, timers: seq<Entry>, active: set<TimerId>, limbo: set<Ptr>, id: TimerId)
    requires Agree(heap, timers, active, limbo)
    ensures |timers| == |active| && Sorted(timers) && limbo <= heap.Keys
    ensures id in active <==> id.timer in heap && id.timer !in limbo && heap[id.timer].sequence == id.sequence
  {
  }

  lemma PositiveFree(heap: map<Ptr, Timer>, p: Ptr)
    requires PositiveTimes(heap)
    ensures PositiveTimes(heap - {p})
  {
  }

  /** Cancelling never makes the kernel timer late: the first entry can only move back. */
  lemma KernelErase(timers: seq<Entry>, kernel: Kernel, e: Entry)
    requires Sorted(timers) && KernelOK(timers, kernel)
    ensures KernelOK(EraseEntry(timers, e), kernel)
  {
    EraseSorted(timers, e);
    var t := EraseEntry(timers, e);
    if t != [] {
      assert t[0] in t;
      var i :| 0 <= i < |timers| && timers[i] == t[0];
      assert i == 0 || Less(timers[0], timers[i]);
    }
  }

  lemma IdsReset(heap: map<Ptr, Timer>, issued: map<nat, Ptr>, n: nat, p: Ptr, when: int)
    requires IdsOK(heap, issued, n) && p in heap
    ensures IdsOK(heap[p := heap[p].(expiration := when)], issued, n) && IdsOK(heap - {p}, issued, n)
  {
  }

  lemma CancelReset(heap: map<Ptr, Timer>, limbo: set<Ptr>, canceling: set<TimerId>, issued: map<nat, Ptr>,
                    cancelledIn: map<nat, nat>, batch: nat, p: Ptr, when: int)
    requires CancelOK(heap, limbo, canceling, issued, cancelledIn, batch) && p in heap
    ensures CancelOK(heap - {p}, limbo - {p}, canceling, issued, cancelledIn, batch)
    ensures TimerId(p, heap[p].sequence) !in canceling ==>
      CancelOK(heap[p := heap[p].(expiration := when)], limbo - {p}, canceling, issued, cancelledIn, batch)
  {
  }

  /** A timer of the current batch may run in it. */
  lemma RanInBatch(heap: map<Ptr, Timer>, limbo: set<Ptr>, canceling: set<TimerId>, issued: map<nat, Ptr>,
                   cancelledIn: map<nat, nat>, batch: nat, runs: seq<Run>, p: Ptr)
    requires CancelOK(heap, limbo, canceling, issued, cancelledIn, batch) && RunsOK(runs, cancelledIn, batch)
      && p in heap
    ensures RunsOK(runs + [Run(batch, heap[p].sequence)], cancelledIn, batch)
  {
  }

  lemma RunsLater(runs: seq<Run>, cancelledIn: map<nat, nat>, batch: nat)
    requires RunsOK(runs, cancelledIn, batch)
    ensures RunsOK(runs, cancelledIn, batch + 1)
  {
  }

  lemma OnceAlloc(heap: map<Ptr, Timer>, issued: map<nat, Ptr>, n: nat, repeating: set<nat>, runs: seq<Run>,
                  bound: nat, done: set<Ptr>, p: Ptr, t: Timer)
    requires OnceOK(heap, issued, repeating, runs, bound, done) && IdsOK(heap, issued, n) && t.sequence !in issued
    ensures OnceOK(heap[p := t], issued[t.sequence := p],
                   if t.Repeat() then repeating + {t.sequence} else repeating, runs, bound, done)
  {
  }

  lemma OnceFree(heap: map<Ptr, Timer>, issued: map<nat, Ptr>, repeating: set<nat>, runs: seq<Run>, bound: nat,
                 done: set<Ptr>, p: Ptr)
    requires OnceOK(heap, issued, repeating, runs, bound, done)
    ensures OnceOK(heap - {p}, issued, repeating, runs, bound, done)
  {
  }

  /** A timer of the batch that is not done yet runs now: the only live timer with its sequence number. */
  lemma OnceRun(heap: map<Ptr, Timer>, issued: map<nat, Ptr>, n: nat, repeating: set<nat>, runs: seq<Run>,
                batch: nat, done: set<Ptr>, p: Ptr)
    requires OnceOK(heap, issued, repeating, runs, batch, done) && IdsOK(heap, issued, n) && p in heap && p !in done
    ensures OnceOK(heap, issued, repeating, runs + [Run(batch, heap[p].sequence)], batch, done + {p})
  {
    var runs' := runs + [Run(batch, heap[p].sequence)];
    forall q, i | q in heap && q !in done + {p} && 0 <= i < |runs'| && runs'[i].sequence == heap[q].sequence
      ensures runs'[i].batch < batch && runs'[i].sequence in repeating
    {
      assert issued[heap[q].sequence] == q && issued[heap[p].sequence] == p;
      assert i < |runs| && runs'[i] == runs[i];
    }
  }

  /** After the batch only the repeating timers of it are alive, for batches to come. */
  lemma OnceSettled(heap: map<Ptr, Timer>, canceling: set<TimerId>, heap0: map<Ptr, Timer>, done: set<Ptr>, now: int,
                    issued: map<nat, Ptr>, repeating: set<nat>, runs: seq<Run>, cancelledIn: map<nat, nat>,
                    batch: nat)
    requires OnceOK(heap0, issued, repeating, runs, batch, done) && Settled(heap, canceling, heap0, done, now)
    requires RunsOK(runs, cancelledIn, batch)
    ensures OnceOK(heap, issued, repeating, runs, batch + 1, {})
  {
    assert forall p :: p in heap ==>
      && heap[p].sequence == heap0[p].sequence && heap[p].Repeat() == heap0[p].Repeat()
      && (p in done ==> heap[p].Repeat());
  }

  lemma PositiveDue(heap: map<Ptr, Timer>, timers: seq<Entry>, active: set<TimerId>, now: int)
    requires Agree(heap, timers, active, {})
    ensures PositiveTimes(heap) && CountDue(timers, now) > 0 ==> now > 0
  {
    if timers != [] { assert timers[0] in timers; }
  }

  lemma FinalKernel(heap: map<Ptr, Timer>, timers: seq<Entry>, active: set<TimerId>, kernel: Kernel, positive: bool,
      end: int)
    requires Agree(heap, timers, active, {}) && (positive ==> PositiveTimes(heap))
    requires timers != [] && timers[0].when > 0 ==> kernel == Armed(Max(timers[0].when, end + 100), end)
    ensures positive ==> KernelOK(timers, kernel)
  {
    if timers != [] { assert timers[0] in timers; }
  }

  // ----- a batch of expired timers -----

  ghost function Ptrs(es: seq<Entry>): set<Ptr> {
    set e | e in es :: e.timer
  }

  /** Splitting off the first entry puts its timer in limbo. */
  lemma AgreeExpire(heap: map<Ptr, Timer>, timers: seq<Entry>, active: set<TimerId>, limbo: set<Ptr>)
    requires Agree(heap, timers, active, limbo) && timers != []
    ensures var e := timers[0];
      && e.timer in heap && e.timer !in limbo && heap[e.timer].expiration == e.when
         && TimerId(e.timer, heap[e.timer].sequence) in active
      && Agree(heap, timers[1..], active - {TimerId(e.timer, heap[e.timer].sequence)}, limbo + {e.timer})
  {
    var e := timers[0];
    assert e in timers;
    assert forall x :: x in timers <==> x == e || x in timers[1..] by { assert timers == [e] + timers[1..]; }
    assert e !in timers[1..] by {
      forall j | 0 <= j < |timers[1..]| ensures timers[1..][j] != e { assert Less(timers[0], timers[j + 1]); }
    }
    assert forall x :: x in timers && x.timer == e.timer ==> x == e;
  }

  lemma ExpireOne(heap: map<Ptr, Timer>, expired: seq<Entry>, i: nat, timers: seq<Entry>,
                  active: set<TimerId>, limbo: set<Ptr>)
    requires i < |expired| && Agree(heap, expired[i..] + timers, active, limbo)
    ensures var p := expired[i].timer;
      && p in heap && TimerId(p, heap[p].sequence) in active
      && Agree(heap, expired[i + 1..] + timers, active - {TimerId(p, heap[p].sequence)}, limbo + {p})
  {
    hide Agree;
    AgreeExpire(heap, expired[i..] + timers, active, limbo);
    assert (expired[i..] + timers)[1..] == expired[i + 1..] + timers;
  }

  ghost predicate DistinctTimers(es: seq<Entry>) {
    forall i, j :: 0 <= i < j < |es| ==> es[i].timer != es[j].timer
  }

  lemma AgreeDistinct(heap: map<Ptr, Timer>, timers: seq<Entry>, active: set<TimerId>, limbo: set<Ptr>, n: nat)
    requires Agree(heap, timers, active, limbo) && n <= |timers|
    ensures DistinctTimers(timers[..n])
    ensures forall i :: 0 <= i < n ==> timers[i].timer in heap && heap[timers[i].timer].expiration == timers[i].when
  {
    forall i, j | 0 <= i < j < n ensures timers[i].timer != timers[j].timer {
      assert Less(timers[i], timers[j]);
      assert timers[i] in timers && timers[j] in timers;
    }
    forall i | 0 <= i < n ensures timers[i].timer in heap && heap[timers[i].timer].expiration == timers[i].when {
      assert timers[i] in timers;
    }
  }

  lemma PtrsNone(es: seq<Entry>)
    ensures Ptrs(es[..0]) == {} && es[0..] == es
  {
  }

  lemma PtrsStep(es: seq<Entry>, i: nat)
    requires i < |es|
    ensures Ptrs(es[..i + 1]) == Ptrs(es[..i]) + {es[i].timer} && Ptrs(es[..0]) == {}
    ensures Ptrs(es[i..]) == Ptrs(es[i + 1..]) + {es[i].timer} && Ptrs(es[|es|..]) == {} && es[0..] == es
      && es[..|es|] == es
    ensures DistinctTimers(es) ==> es[i].timer !in Ptrs(es[i + 1..])
  {
    assert es[..i + 1] == es[..i] + [es[i]] && es[i..] == [es[i]] + es[i + 1..];
    if DistinctTimers(es) {
      forall e | e in es[i + 1..] ensures e.timer != es[i].timer {
        var j :| 0 <= j < |es[i + 1..]| && es[i + 1..][j] == e;
        assert es[i + 1 + j] == e;
      }
    }
  }

  lemma PtrsMember(es: seq<Entry>, i: nat)
    requires i < |es|
    ensures es[i].timer in Ptrs(es)
  {
    assert es[i] in es;
  }

  lemma PtrsApart(es: seq<Entry>, i: nat)
    requires i < |es| && DistinctTimers(es)
    ensures es[i].timer !in Ptrs(es[..i])
  {
    forall e | e in es[..i] ensures e.timer != es[i].timer {
      var j :| 0 <= j < i && es[..i][j] == e;
      assert es[j] == e;
    }
  }

  /** With nothing in limbo no cancelled timer is alive. */
  lemma NoneCancelled(heap: map<Ptr, Timer>, canceling: set<TimerId>, issued: map<nat, Ptr>,
      cancelledIn: map<nat, nat>, batch: nat)
    requires CancelOK(heap, {}, canceling, issued, cancelledIn, batch)
    ensures forall limbo, c, b :: b >= batch ==> CancelOK(heap, limbo, c, issued, cancelledIn, b)
    ensures forall p :: p in heap ==> heap[p].sequence !in cancelledIn
  {
  }

  lemma LimboLive(heap: map<Ptr, Timer>, timers: seq<Entry>, active: set<TimerId>, limbo: set<Ptr>)
    requires Agree(heap, timers, active, limbo)
    ensures forall p :: p in limbo ==> p in heap
  {
  }

  /** Which timers of the batch come back, and for when: the repeating ones that were not cancelled. */
  ghost predicate Settled(heap: map<Ptr, Timer>, canceling: set<TimerId>, heap0: map<Ptr, Timer>, done: set<Ptr>,
      now: int) {
    && (forall p :: p in heap <==>
       p in heap0
       && (p in done ==> heap0[p].Repeat() && TimerId(p, heap0[p].sequence) !in canceling))
    && (forall p :: p in heap ==> heap[p] == if p in done then heap0[p].(expiration := now + heap0[p].interval)
       else heap0[p])
  }

  lemma SettledNone(heap: map<Ptr, Timer>, canceling: set<TimerId>, now: int)
    ensures Settled(heap, canceling, heap, {}, now)
  {
  }

  lemma SettledStep(heap1: map<Ptr, Timer>, heap2: map<Ptr, Timer>, canceling: set<TimerId>, heap0: map<Ptr, Timer>,
                    done: set<Ptr>, p: Ptr, now: int)
    requires Settled(heap1, canceling, heap0, done, now) && p !in done && p in heap1
    requires heap2 == if heap1[p].Repeat() && TimerId(p, heap1[p].sequence) !in canceling
                      then heap1[p := heap1[p].(expiration := now + heap1[p].interval)] else heap1 - {p}
    ensures Settled(heap2, canceling, heap0, done + {p}, now)
  {
  }

  lemma SettledComeback(heap: map<Ptr, Timer>, timers: seq<Entry>, active: set<TimerId>, canceling: set<TimerId>,
                        heap0: map<Ptr, Timer>, expired: seq<Entry>, e: Entry, now: int)
    requires Agree(heap, timers, active, {}) && Settled(heap, canceling, heap0, Ptrs(expired), now)
    requires e in expired && e.timer in heap0
    ensures e.timer in Ptrs(expired)
    ensures var p, t := e.timer, heap0[e.timer];
      if t.Repeat() && TimerId(p, t.sequence) !in canceling then
        && p in heap && heap[p] == t.(expiration := now + t.interval)
        && Entry(now + t.interval, p) in timers && TimerId(p, t.sequence) in active
      else p !in heap
  {
    hide Sorted;
  }

  lemma RunsOfStep(heap: map<Ptr, Timer>, es: seq<Entry>, i: nat, batch: nat)
    requires i < |es| && es[i].timer in heap
    ensures RunsOf(heap, es[..i + 1], batch) == RunsOf(heap, es[..i], batch) + [Run(batch, heap[es[i].timer].sequence)]
    ensures RunsOf(heap, es[..0], batch) == []
  {
  }

  /** The timers of a batch ran in the given batch, in order. */
  function RunsOf(heap: map<Ptr, Timer>, es: seq<Entry>, batch: nat): (rs: seq<Run>)
    ensures |rs| == |es|
  {
    seq(|es|, i requires 0 <= i < |es| => Run(batch, if es[i].timer in heap then heap[es[i].timer].sequence else 0))
  }

  // ----- what user code asks for, on values -----

  /** Which timers there are, and what became of every id given out. */
  datatype World = World(
    heap: map<Ptr, Timer>, limbo: set<Ptr>, canceling: set<TimerId>, calling: bool, numCreated: nat,
    issued: map<nat, Ptr>, cancelledIn: map<nat, nat>, batch: nat)

  /** The id was given out by AddTimer. */
  predicate Genuine(issued: map<nat, Ptr>, id: TimerId) {
    id.sequence in issued && issued[id.sequence] == id.timer
  }

  predicate Pending(w: World, id: TimerId) {
    id.timer in w.heap && id.timer !in w.limbo && w.heap[id.timer].sequence == id.sequence
  }

  function CancelledAs(issued: map<nat, Ptr>, cancelledIn: map<nat, nat>, batch: nat, id: TimerId): map<nat, nat> {
    if Genuine(issued, id) && id.sequence !in cancelledIn then cancelledIn[id.sequence := batch] else cancelledIn
  }

  /** Adding, at an address that must be free, and cancelling. */
  function Perform(w: World, act: Action): World {
    match act
    case Add(address, when, interval, _) =>
      if address in w.heap then w
      else
        var q := w.numCreated + 1;
        w.(heap := w.heap[address := Timer(when, interval, q)], numCreated := q, issued := w.issued[q := address])
    case Cancel(id) =>
      w.(heap := if Pending(w, id) then w.heap - {id.timer} else w.heap,
         canceling := if !Pending(w, id) && w.calling then w.canceling + {id} else w.canceling,
         cancelledIn := CancelledAs(w.issued, w.cancelledIn, w.batch, id))
  }

  function PerformAll(w: World, acts: seq<Action>): World {
    if acts == [] then w else Perform(PerformAll(w, acts[..|acts| - 1]), acts[|acts| - 1])
  }

  function Due(heap: map<Ptr, Timer>, now: int): set<Ptr> {
    set p | p in heap && heap[p].expiration <= now
  }

  /** A batch begins: what is due is taken out of the sets. */
  function Begun(w: World, due: set<Ptr>): World {
    w.(limbo := due, canceling := {}, calling := true, batch := w.batch + 1)
  }

  /** All that the callbacks of the first n timers of a batch do. */
  function Callbacks(scripts: seq<seq<Action>>, n: nat): seq<Action> {
    if n == 0 then [] else Callbacks(scripts, n - 1) + if n <= |scripts| then scripts[n - 1] else []
  }

  /** The batch is over. */
  function Over(w: World, now: int): World {
    var heap := map p | p in w.heap
                        && (p in w.limbo ==> w.heap[p].Repeat() && TimerId(p, w.heap[p].sequence) !in w.canceling) ::
                  if p in w.limbo then w.heap[p].(expiration := now + w.heap[p].interval) else w.heap[p];
    w.(heap := heap, limbo := {}, calling := false)
  }

  function InCallbacks(w: World, now: int, scripts: seq<seq<Action>>): World {
    PerformAll(Begun(w, Due(w.heap, now)), Callbacks(scripts, |Due(w.heap, now)|))
  }

  function Turn(w: World, step: Step): World {
    match step
    case Act(act) => Perform(w, act)
    case Fire(now, _, scripts) => Over(InCallbacks(w, now, scripts), now)
  }

  function Play(w: World, steps: seq<Step>): World {
    if steps == [] then w else Turn(Play(w, steps[..|steps| - 1]), steps[|steps| - 1])
  }

  // ----- what that comes to -----

  ghost predicate WorldOK(w: World) {
    w.limbo <= w.heap.Keys && IdsOK(w.heap, w.issued, w.numCreated) && w.cancelledIn.Keys <= w.issued.Keys
  }

  /** Nothing issued or cancelled is ever forgotten. */
  ghost predicate Remembers(w: World, u: World) {
    && WorldOK(u) && w.numCreated <= u.numCreated
    && (forall q :: q in w.issued ==> q in u.issued && u.issued[q] == w.issued[q])
    && (forall q :: q in w.cancelledIn ==> q in u.cancelledIn && u.cancelledIn[q] == w.cancelledIn[q])
  }

  lemma PerformRemembers(w: World, act: Action)
    requires WorldOK(w)
    ensures Remembers(w, Perform(w, act)) && Perform(w, act).limbo == w.limbo
  {
  }

  lemma {:induction false} PerformAllRemembers(w: World, acts: seq<Action>)
    requires WorldOK(w)
    ensures Remembers(w, PerformAll(w, acts)) && PerformAll(w, acts).limbo == w.limbo
  {
    if acts != [] {
      hide WorldOK, Perform;
      PerformAllRemembers(w, acts[..|acts| - 1]);
      PerformRemembers(PerformAll(w, acts[..|acts| - 1]), acts[|acts| - 1]);
    }
  }

  lemma {:induction false} PerformAllConcat(w: World, a: seq<Action>, b: seq<Action>)
    ensures PerformAll(w, a + b) == PerformAll(PerformAll(w, a), b)
  {
    hide Perform;
    if b == [] {
      assert a + b == a;
    } else {
      PerformAllConcat(w, a, b[..|b| - 1]);
      assert (a + b)[..|a + b| - 1] == a + b[..|b| - 1];
    }
  }

  /** The rest of the calls, after the first k. */
  lemma PerformRest(w: World, acts: seq<Action>, k: nat)
    requires k < |acts|
    ensures PerformAll(w, acts) == PerformAll(Perform(PerformAll(w, acts[..k]), acts[k]), acts[k + 1..])
  {
    hide Perform;
    assert acts == acts[..k + 1] + acts[k + 1..] && acts[..k + 1][..k] == acts[..k];
    PerformAllConcat(w, acts[..k + 1], acts[k + 1..]);
  }

  /** Every cancel of an id that was given out takes, and is never undone. */
  lemma CancelTakes(w: World, acts: seq<Action>, k: nat, id: TimerId)
    requires WorldOK(w) && k < |acts| && acts[k] == Cancel(id) && Genuine(PerformAll(w, acts[..k]).issued, id)
    ensures id.sequence in PerformAll(w, acts).cancelledIn
  {
    hide WorldOK;
    var u := PerformAll(w, acts[..k]);
    PerformAllRemembers(w, acts[..k]);
    PerformRemembers(u, acts[k]);
    PerformAllRemembers(Perform(u, acts[k]), acts[k + 1..]);
    PerformRest(w, acts, k);
  }

  /** Nothing else is taken for cancelled. */
  lemma {:induction false} OnlyCancelled(w: World, acts: seq<Action>, q: nat) returns (k: nat, id: TimerId)
    requires q in PerformAll(w, acts).cancelledIn && q !in w.cancelledIn
    ensures k < |acts| && acts[k] == Cancel(id) && id.sequence == q && Genuine(PerformAll(w, acts[..k]).issued, id)
  {
    var n := |acts| - 1;
    if q in PerformAll(w, acts[..n]).cancelledIn {
      k, id := OnlyCancelled(w, acts[..n], q);
      assert acts[..n][..k] == acts[..k];
    } else {
      k, id := n, acts[n].id;
    }
  }

  /** The timer with this id is pending, or was cancelled. */
  ghost predicate PendingOrCancelled(w: World, id: TimerId, t: Timer) {
    (Pending(w, id) && w.heap[id.timer] == t) || id.sequence in w.cancelledIn
  }

  lemma {:induction false} StaysPending(w: World, acts: seq<Action>, id: TimerId, t: Timer)
    requires WorldOK(w) && Genuine(w.issued, id) && PendingOrCancelled(w, id, t)
    ensures PendingOrCancelled(PerformAll(w, acts), id, t)
  {
    if acts != [] {
      hide WorldOK;
      StaysPending(w, acts[..|acts| - 1], id, t);
      PerformAllRemembers(w, acts[..|acts| - 1]);
    }
  }

  /** Every timer added, at an address free at that moment, is pending afterwards unless it was cancelled. */
  lemma AddTakes(w: World, acts: seq<Action>, k: nat)
    requires WorldOK(w) && k < |acts| && acts[k].Add? && acts[k].address !in PerformAll(w, acts[..k]).heap
    ensures var a, q := acts[k], PerformAll(w, acts[..k]).numCreated + 1;
      && Genuine(PerformAll(w, acts).issued, TimerId(a.address, q))
      && PendingOrCancelled(PerformAll(w, acts), TimerId(a.address, q), Timer(a.when, a.interval, q))
  {
    var u := PerformAll(w, acts[..k]);
    PerformAllRemembers(w, acts[..k]);
    PerformRemembers(u, acts[k]);
    var id := TimerId(acts[k].address, u.numCreated + 1);
    StaysPending(Perform(u, acts[k]), acts[k + 1..], id, Timer(acts[k].when, acts[k].interval, id.sequence));
    PerformAllRemembers(Perform(u, acts[k]), acts[k + 1..]);
    PerformRest(w, acts, k);
  }

  lemma OverRemembers(w: World, now: int)
    requires WorldOK(w)
    ensures Remembers(w, Over(w, now))
  {
  }

  lemma DueLive(w: World, now: int)
    requires WorldOK(w)
    ensures WorldOK(Begun(w, Due(w.heap, now)))
  {
  }

  lemma TurnRemembers(w: World, step: Step)
    requires WorldOK(w)
    ensures Remembers(w, Turn(w, step))
  {
    hide WorldOK, Perform, Over, Due;
    match step {
      case Act(act) => PerformRemembers(w, act);
      case Fire(now, _, scripts) =>
        var due := Due(w.heap, now);
        DueLive(w, now);
        PerformAllRemembers(Begun(w, due), Callbacks(scripts, |due|));
        OverRemembers(InCallbacks(w, now, scripts), now);
    }
  }

  lemma {:induction false} PlayRemembers(w: World, steps: seq<Step>, i: nat)
    requires WorldOK(w) && i <= |steps|
    ensures WorldOK(Play(w, steps[..i])) && Remembers(Play(w, steps[..i]), Play(w, steps))
    decreases |steps|
  {
    hide WorldOK, Turn;
    var n := |steps| - 1;
    if i < |steps| {
      PlayRemembers(w, steps[..n], i);
      assert steps[..n][..i] == steps[..i];
      TurnRemembers(Play(w, steps[..n]), steps[n]);
    } else {
      assert steps[..i] == steps;
      if i > 0 {
        PlayRemembers(w, steps[..n], n);
        TurnRemembers(Play(w, steps[..n]), steps[n]);
      }
    }
  }

  /** The cancel is a step of the run, or a call of a callback of one of its batches. */
  ghost predicate AsksToCancel(w: World, step: Step, id: TimerId) {
    match step
    case Act(act) => act == Cancel(id) && Genuine(w.issued, id)
    case Fire(now, _, scripts) =>
      var due := Due(w.heap, now);
      var acts := Callbacks(scripts, |due|);
      exists k :: 0 <= k < |acts| && acts[k] == Cancel(id) && Genuine(PerformAll(Begun(w, due), acts[..k]).issued, id)
  }

  lemma TurnCancels(w: World, step: Step, id: TimerId)
    requires WorldOK(w) && AsksToCancel(w, step, id)
    ensures id.sequence in Turn(w, step).cancelledIn
  {
    hide WorldOK, PerformAll, Due;
    if step.Fire? {
      var due := Due(w.heap, step.now);
      var acts := Callbacks(step.scripts, |due|);
      DueLive(w, step.now);
      var k :| 0 <= k < |acts| && acts[k] == Cancel(id) && Genuine(PerformAll(Begun(w, due), acts[..k]).issued, id);
      CancelTakes(Begun(w, due), acts, k, id);
    }
  }

  /** Whoever cancels an id that was given out, and whenever in the run, it counts as cancelled from then on. */
  lemma CancelledForGood(w: World, steps: seq<Step>, i: nat, id: TimerId)
    requires WorldOK(w) && i < |steps| && AsksToCancel(Play(w, steps[..i]), steps[i], id)
    ensures id.sequence in Play(w, steps).cancelledIn
  {
    hide WorldOK, Turn, AsksToCancel;
    PlayRemembers(w, steps, i);
    TurnCancels(Play(w, steps[..i]), steps[i], id);
    PlayRemembers(w, steps, i + 1);
    assert steps[..i + 1][..i] == steps[..i];
  }

  /** A timer disappears in a turn only by being cancelled or, with no interval, by having run. */
  lemma TimerStays(w: World, step: Step, p: Ptr)
    requires WorldOK(w) && w.limbo == {} && !w.calling && p in w.heap
    ensures var u, t := Turn(w, step), w.heap[p];
      || t.sequence in u.cancelledIn
      || (step.Fire? && t.expiration <= step.now && !t.Repeat())
      || (p in u.heap && u.heap[p] ==
          if step.Fire? && t.expiration <= step.now then t.(expiration := step.now + t.interval) else t)
  {
    var t := w.heap[p];
    if step.Fire? {
      var due := Due(w.heap, step.now);
      var acts := Callbacks(step.scripts, |due|);
      DueLive(w, step.now);
      if p in due {
        LimboStays(Begun(w, due), acts, p);
      } else {
        StaysPending(Begun(w, due), acts, TimerId(p, t.sequence), t);
        PerformAllRemembers(Begun(w, due), acts);
      }
    }
  }

  /** A batch leaves no timer behind that was due: it is gone, or repeats and has its next time. */
  lemma TurnFires(w: World, now: int, end: int, scripts: seq<seq<Action>>, p: Ptr)
    requires WorldOK(w) && w.limbo == {} && !w.calling
    ensures var u := Turn(w, Fire(now, end, scripts));
      && u.batch == w.batch + 1 && u.limbo == {} && !u.calling
      && (p in w.heap && w.heap[p].expiration <= now && p in u.heap ==>
         var t := w.heap[p]; t.Repeat() && u.heap[p] == t.(expiration := now + t.interval))
  {
    var due := Due(w.heap, now);
    var acts := Callbacks(scripts, |due|);
    DueLive(w, now);
    LimboKept(Begun(w, due), acts);
    PerformAllRemembers(Begun(w, due), acts);
  }

  /** A timer of the batch is left alone by callbacks; cancelling it marks it, and counts as cancelled. */
  lemma {:induction false} LimboStays(w: World, acts: seq<Action>, p: Ptr)
    requires WorldOK(w) && p in w.limbo && w.calling
    requires TimerId(p, w.heap[p].sequence) in w.canceling ==> w.heap[p].sequence in w.cancelledIn
    ensures var u := PerformAll(w, acts);
      && u.calling && p in u.limbo && p in u.heap && u.heap[p] == w.heap[p]
      && (TimerId(p, w.heap[p].sequence) in u.canceling ==> w.heap[p].sequence in u.cancelledIn)
  {
    if acts != [] {
      LimboStays(w, acts[..|acts| - 1], p);
      PerformAllRemembers(w, acts[..|acts| - 1]);
    }
  }

  lemma {:induction false} PtrsSize(es: seq<Entry>)
    requires DistinctTimers(es)
    ensures |Ptrs(es)| == |es|
  {
    if es != [] {
      hide Ptrs;
      var n := |es| - 1;
      assert DistinctTimers(es[..n]);
      PtrsSize(es[..n]);
      PtrsStep(es, n);
      PtrsApart(es, n);
      assert es[..n + 1] == es;
    } else {
      assert Ptrs(es) == {};
    }
  }

  /** The entries split off are those of the timers that are due. */
  lemma DueIs(heap: map<Ptr, Timer>, timers: seq<Entry>, active: set<TimerId>, now: int)
    requires Agree(heap, timers, active, {})
    ensures var es := timers[..CountDue(timers, now)];
      Ptrs(es) == Due(heap, now) && |Due(heap, now)| == |es|
  {
    var n := CountDue(timers, now);
    var es := timers[..n];
    DueSplit(timers, now);
    AgreeDistinct(heap, timers, active, {}, n);
    PtrsSize(es);
    forall p ensures p in Ptrs(es) <==> p in Due(heap, now) {
      DueMember(heap, timers, active, now, p);
    }
  }

  lemma DueMember(heap: map<Ptr, Timer>, timers: seq<Entry>, active: set<TimerId>, now: int, p: Ptr)
    requires Agree(heap, timers, active, {})
    ensures p in Ptrs(timers[..CountDue(timers, now)]) <==> p in Due(heap, now)
  {
    var n := CountDue(timers, now);
    DueSplit(timers, now);
    if p in Ptrs(timers[..n]) {
      var e :| e in timers[..n] && e.timer == p;
      var i :| 0 <= i < n && timers[..n][i] == e;
      assert timers[i] == e && e in timers;
    }
    if p in Due(heap, now) {
      var e := Entry(heap[p].expiration, p);
      assert e in timers;
      var i :| 0 <= i < |timers| && timers[i] == e;
      assert i < n && timers[..n][i] == e;
    }
  }

  /** Every call of every callback that ran is among them, callback after callback. */
  lemma {:induction false} CallbackOf(scripts: seq<seq<Action>>, n: nat, i: nat, j: nat)
    requires i < n && i < |scripts| && j < |scripts[i]|
    ensures var all, k := Callbacks(scripts, n), |Callbacks(scripts, i)| + j;
      k < |all| && all[k] == scripts[i][j] && all[..k] == Callbacks(scripts, i) + scripts[i][..j]
  {
    var k := |Callbacks(scripts, i)| + j;
    if i == n - 1 {
      assert Callbacks(scripts, n)[..k] == Callbacks(scripts, i) + scripts[i][..j];
    } else {
      CallbackOf(scripts, n - 1, i, j);
      assert Callbacks(scripts, n)[..k] == Callbacks(scripts, n - 1)[..k];
    }
  }

  /** Ids given out before the batch and cancelled in one of its callbacks. */
  lemma ScriptsCancel(scripts: seq<seq<Action>>, n: nat, issued: map<nat, Ptr>, cancelledIn: map<nat, nat>)
    requires var all := Callbacks(scripts, n);
      forall k, id :: 0 <= k < |all| && all[k] == Cancel(id) && Genuine(issued, id) ==> id.sequence in cancelledIn
    ensures forall i, j, id ::
      (0 <= i < n && i < |scripts| && 0 <= j < |scripts[i]| && scripts[i][j] == Cancel(id) && Genuine(issued, id)) ==>
        id.sequence in cancelledIn
  {
    hide Callbacks;
    forall i, j, id | 0 <= i < n && i < |scripts| && 0 <= j < |scripts[i]| && scripts[i][j] == Cancel(id)
                      && Genuine(issued, id)
      ensures id.sequence in cancelledIn
    {
      CallbackOf(scripts, n, i, j);
    }
  }

  /** Callbacks leave the timers of the batch where they are. */
  lemma {:induction false} LimboKept(w: World, acts: seq<Action>)
    requires WorldOK(w)
    ensures forall p :: p in w.limbo ==>
      p in w.heap && p in PerformAll(w, acts).heap && PerformAll(w, acts).heap[p] == w.heap[p]
    ensures PerformAll(w, acts).calling == w.calling && PerformAll(w, acts).batch == w.batch
  {
    if acts != [] {
      LimboKept(w, acts[..|acts| - 1]);
      PerformAllRemembers(w, acts[..|acts| - 1]);
    }
  }

  /** Of the ids given out before, exactly those that are cancelled count as cancelled. */
  lemma EarlierCancelled(w: World, acts: seq<Action>)
    requires WorldOK(w)
    ensures forall k, id :: 0 <= k < |acts| && acts[k] == Cancel(id) && Genuine(w.issued, id) ==>
      id.sequence in PerformAll(w, acts).cancelledIn
  {
    hide WorldOK, PerformAll;
    forall k, id | 0 <= k < |acts| && acts[k] == Cancel(id) && Genuine(w.issued, id)
      ensures id.sequence in PerformAll(w, acts).cancelledIn
    {
      PerformAllRemembers(w, acts[..k]);
      CancelTakes(w, acts, k, id);
    }
  }

  lemma CallbacksStep(w: World, scripts: seq<seq<Action>>, i: nat)
    ensures PerformAll(w, Callbacks(scripts, i + 1)) ==
      if i < |scripts| then PerformAll(PerformAll(w, Callbacks(scripts, i)), scripts[i])
      else PerformAll(w, Callbacks(scripts, i))
    ensures PerformAll(w, Callbacks(scripts, 0)) == w
  {
    hide Perform;
    PerformAllConcat(w, Callbacks(scripts, i), if i < |scripts| then scripts[i] else []);
    assert Callbacks(scripts, i) + [] == Callbacks(scripts, i);
  }

  /** Settled says what Over computes. */
  lemma OverIs(heap: map<Ptr, Timer>, w: World, now: int)
    requires Settled(heap, w.canceling, w.heap, w.limbo, now)
    ensures Over(w, now) == w.(heap := heap, limbo := {}, calling := false)
  {
    assert heap == Over(w, now).heap;
  }

  lemma PerformStep(w: World, acts: seq<Action>, i: nat)
    requires i < |acts|
    ensures PerformAll(w, acts[..i + 1]) == Perform(PerformAll(w, acts[..i]), acts[i]) && PerformAll(w, acts[..0]) == w
  {
    assert acts[..i + 1][..i] == acts[..i];
  }

  lemma PlayStep(w: World, steps: seq<Step>, i: nat)
    requires i < |steps|
    ensures Play(w, steps[..i + 1]) == Turn(Play(w, steps[..i]), steps[i]) && Play(w, steps[..0]) == w
  {
    assert steps[..i + 1][..i] == steps[..i];
  }

  lemma NothingDone(w: World, acts: seq<Action>, steps: seq<Step>)
    ensures PerformAll(w, acts[..0]) == w && Play(w, steps[..0]) == w
  {
  }

  /** Every cancel of the run, whoever asked for it, is remembered. */
  lemma AllCancelled(w: World, steps: seq<Step>)
    requires WorldOK(w)
    ensures forall i, id :: 0 <= i < |steps| && AsksToCancel(Play(w, steps[..i]), steps[i], id) ==>
      id.sequence in Play(w, steps).cancelledIn
  {
    hide WorldOK, AsksToCancel, Play;
    forall i, id | 0 <= i < |steps| && AsksToCancel(Play(w, steps[..i]), steps[i], id)
      ensures id.sequence in Play(w, steps).cancelledIn
    {
      CancelledForGood(w, steps, i, id);
    }
  }

  class TimerQueue {
    var heap: map<Ptr, Timer>
    var timers: seq<Entry>
    var active: set<TimerId>
    var canceling: set<TimerId>
    var calling: bool
    var kernel: Kernel
    var numCreated: nat

    ghost var limbo: set<Ptr>
    ghost var issued: map<nat, Ptr>
    ghost var batch: nat
    ghost var runs: seq<Run>
    ghost var cancelledIn: map<nat, nat>
    /** The sequence numbers of the timers made with an interval. */
    ghost var repeating: set<nat>
    /** The timers that have run in the batch being called. */
    ghost var done: set<Ptr>
    /** No timer was ever set for a time that is not after the epoch. */
    ghost var positive: bool

    ghost predicate Structure()
      reads `heap, `timers, `active, `limbo, `issued, `numCreated
    {
      Agree(heap, timers, active, limbo) && IdsOK(heap, issued, numCreated)
    }

    ghost predicate Cancels()
      reads `heap, `limbo, `canceling, `issued, `cancelledIn, `batch, `runs
    {
      CancelOK(heap, limbo, canceling, issued, cancelledIn, batch) && RunsOK(runs, cancelledIn, batch)
    }

    ghost function Now(): World
      reads `heap, `limbo, `canceling, `calling, `numCreated, `issued, `cancelledIn, `batch
    {
      World(heap, limbo, canceling, calling, numCreated, issued, cancelledIn, batch)
    }

    ghost predicate Once()
      reads `heap, `issued, `repeating, `runs, `batch, `calling, `done
    {
      OnceOK(heap, issued, repeating, runs, if calling then batch else batch + 1, done)
    }

    /** Between operations: nothing in limbo, and whatever is pending will be seen in time. */
    ghost predicate Valid()
      reads this
    {
      && Structure() && Cancels() && Once() && limbo == {} && done == {} && !calling
      && (positive ==> PositiveTimes(heap) && KernelOK(timers, kernel))
    }

    /** Inside the expired-callback batch. */
    ghost predicate InBatch()
      reads this
    {
      Structure() && Cancels() && Once() && calling && (positive ==> PositiveTimes(heap))
    }

    constructor ()
      ensures Valid() && positive && timers == [] && runs == [] && cancelledIn == map[] && repeating == {}
    {
      heap, timers, active, canceling, calling, kernel, numCreated := map[], [], {}, {}, false, Idle, 0;
      limbo, issued, batch, runs, cancelledIn, positive := {}, map[], 0, [], map[], true;
      repeating, done := {}, {};
    }

    /** timerfd_settime: never less than 100 microseconds from now. */
    method ResetTimerfd(expiration: int, now: int)
      modifies `kernel
      ensures kernel == Armed(Max(expiration, now + 100), now)
    {
      var microseconds := expiration - now;
      if microseconds < 100 {
        microseconds := 100;
      }
      kernel := Armed(now + microseconds, now);
    }

    /** A read consumes the expiration, if there is one. */
    method ReadTimerfd(now: int)
      modifies `kernel
      ensures kernel == if old(kernel).Armed? && old(kernel).deadline <= now then Idle else old(kernel)
    {
      if kernel.Armed? && kernel.deadline <= now {
        kernel := Idle;
      }
    }

    /** Puts a timer that is in neither set into both. */
    method Insert(p: Ptr) returns (earliestChanged: bool)
      requires Structure() && p in limbo
      modifies `timers, `active, `limbo
      ensures Structure() && limbo == old(limbo) - {p} && p in heap
      ensures timers == InsertEntry(old(timers), Entry(heap[p].expiration, p))
      ensures active == old(active) + {TimerId(p, heap[p].sequence)}
      ensures earliestChanged <==> old(timers) == [] || heap[p].expiration < old(timers)[0].when
    {
      assert |timers| == |active|;
      AgreeInsert(heap, timers, active, limbo, p);
      earliestChanged := false;
      var when := heap[p].expiration;
      if |timers| == 0 || when < timers[0].when {
        earliestChanged := true;
      }
      assert Entry(when, p) !in timers;
      timers := InsertEntry(timers, Entry(when, p));
      assert TimerId(p, heap[p].sequence) !in active;
      active := active + {TimerId(p, heap[p].sequence)};
      limbo := limbo - {p};
      assert |timers| == |active|;
    }

    method AddTimerInLoop(p: Ptr, now: int)
      requires Structure() && Cancels() && p in limbo && p in heap && heap[p].sequence !in cancelledIn
      modifies this
      ensures unchanged(`heap, `canceling, `calling, `numCreated, `issued, `batch, `runs, `cancelledIn, `repeating,
                        `done, `positive)
      ensures Structure() && Cancels() && limbo == old(limbo) - {p}
      ensures timers == InsertEntry(old(timers), Entry(heap[p].expiration, p))
      ensures active == old(active) + {TimerId(p, heap[p].sequence)}
      ensures kernel == if old(timers) == [] || heap[p].expiration < old(timers)[0].when
                        then Armed(Max(heap[p].expiration, now + 100), now) else old(kernel)
    {
      hide Agree, IdsOK, CancelOK, RunsOK, InsertEntry;
      CancelShrink(heap, limbo, canceling, issued, cancelledIn, batch, p);
      var earliestChanged := Insert(p);
      if earliestChanged {
        ResetTimerfd(heap[p].expiration, now);
      }
    }

    /** new Timer: a fresh sequence number, at any address that is free; the timer is in neither set yet. */
    method NewTimer(address: Ptr, when: int, interval: nat)
      requires Structure() && Cancels() && Once() && address !in heap
      modifies this
      ensures unchanged(`timers, `active, `canceling, `calling, `kernel, `batch, `runs, `cancelledIn, `done, `positive)
      ensures Once()
      ensures repeating == if interval > 0 then old(repeating) + {numCreated} else old(repeating)
      ensures Structure() && Cancels() && numCreated == old(numCreated) + 1 && numCreated !in old(issued)
      ensures heap == old(heap)[address := Timer(when, interval, numCreated)]
      ensures issued == old(issued)[numCreated := address] && address !in old(limbo) && limbo == old(limbo) + {address}
      ensures Entry(when, address) !in timers && Sorted(timers)
      ensures numCreated !in cancelledIn && (old(PositiveTimes(heap)) && when > 0 ==> PositiveTimes(heap))
    {
      hide Agree, IdsOK, CancelOK, RunsOK, OnceOK;
      ghost var t := Timer(when, interval, numCreated + 1);
      IdsAlloc(heap, issued, numCreated, address, t);
      OnceAlloc(heap, issued, numCreated, repeating, runs, if calling then batch else batch + 1, done, address, t);
      AgreeAlloc(heap, timers, active, limbo, address, t);
      CancelAlloc(heap, limbo, canceling, issued, cancelledIn, batch, address, t);
      NotListed(heap, timers, active, limbo, Entry(when, address));
      numCreated := numCreated + 1;
      heap := heap[address := Timer(when, interval, numCreated)];
      limbo := limbo + {address};
      issued := issued[numCreated := address];
      repeating := if interval > 0 then repeating + {numCreated} else repeating;
    }

    method AddTimer(address: Ptr, when: int, interval: nat, now: int) returns (id: TimerId)
      requires (Valid() || InBatch()) && address !in heap
      modifies this
      ensures Now() == Perform(old(Now()), Add(address, when, interval, now))
      ensures id == TimerId(address, numCreated) && numCreated == old(numCreated) + 1 && id.sequence !in old(issued)
      ensures heap == old(heap)[address := Timer(when, interval, id.sequence)]
        && issued == old(issued)[id.sequence := address]
      ensures timers == InsertEntry(old(timers), Entry(when, address)) && id in active
      ensures unchanged(`limbo, `calling, `batch, `runs, `cancelledIn, `canceling, `done)
      ensures positive == (old(positive) && when > 0)
      ensures repeating == if interval > 0 then old(repeating) + {id.sequence} else old(repeating)
      ensures if old(calling) then InBatch() else Valid()
    {
      hide Structure, Cancels, Once, KernelOK, PositiveTimes, InsertEntry, Sorted;
      NewTimer(address, when, interval);
      if !calling && positive {
        KernelInsert(timers, kernel, Entry(when, address), now);
      }
      positive := positive && when > 0;
      AddTimerInLoop(address, now);
      assert limbo == old(limbo);
      id := TimerId(address, numCreated);
    }

    /** Takes a pending timer out of both sets and frees it. */
    method Free(id: TimerId)
      requires Agree(heap, timers, active, limbo) && id in active
      modifies `heap, `timers, `active
      ensures Agree(heap, timers, active, limbo) && id.timer in old(heap)
      ensures timers == EraseEntry(old(timers), Entry(old(heap)[id.timer].expiration, id.timer))
      ensures heap == old(heap) - {id.timer} && active == old(active) - {id}
    {
      hide Agree, EraseEntry;
      AgreeErase(heap, timers, active, limbo, id);
      assert Entry(heap[id.timer].expiration, id.timer) in timers;
      timers := EraseEntry(timers, Entry(heap[id.timer].expiration, id.timer));
      heap := heap - {id.timer};
      active := active - {id};
    }

    /** A pending timer is freed; one in the batch being called is marked; any other id is ignored. */
    method CancelInLoop(id: TimerId)
      requires Structure() && Cancels() && (calling || limbo == {})
      modifies `heap, `timers, `active, `canceling, `cancelledIn
      ensures Structure() && Cancels()
      ensures heap == (if id in old(active) then old(heap) - {id.timer} else old(heap))
      ensures active == old(active) - {id} && (id in old(active) ==> id.timer in old(heap) && id.timer !in limbo)
      ensures timers == if id in old(active)
        then EraseEntry(old(timers), Entry(old(heap)[id.timer].expiration, id.timer)) else old(timers)
      ensures canceling == if id !in old(active) && calling then old(canceling) + {id} else old(canceling)
      ensures cancelledIn == CancelledAs(issued, old(cancelledIn), batch, id)
    {
      hide Agree, IdsOK, CancelOK, RunsOK, EraseEntry, Sorted;
      CancelEffect(heap, timers, active, limbo, canceling, issued, numCreated, cancelledIn, batch, runs, id, calling);
      ActiveLive(heap, timers, active, limbo, id);
      assert |timers| == |active|;
      if id in active {
        Free(id);
      } else if calling {
        canceling := canceling + {id};
      }
      cancelledIn := CancelledAs(issued, cancelledIn, batch, id);
    }

    method CancelTimer(id: TimerId)
      requires Valid() || InBatch()
      modifies this
      ensures unchanged(`limbo, `calling, `kernel, `numCreated, `issued, `batch, `runs, `repeating, `done, `positive)
      ensures if calling then InBatch() else Valid()
      ensures Now() == Perform(old(Now()), Cancel(id))
      ensures id !in active && (id in old(active) ==> id.timer !in heap && id.timer !in limbo)
      ensures forall p :: p in old(heap) && p != id.timer ==> p in heap && heap[p] == old(heap)[p]
      ensures forall p :: p in heap ==> p in old(heap) && heap[p] == old(heap)[p]
      ensures forall p :: p in limbo ==> p in heap
      ensures old(canceling) <= canceling
      ensures cancelledIn == CancelledAs(issued, old(cancelledIn), batch, id)
    {
      hide Agree, PositiveTimes, IdsOK, CancelOK, RunsOK, OnceOK, KernelOK, EraseEntry, Sorted;
      OnceFree(heap, issued, repeating, runs, if calling then batch else batch + 1, done, id.timer);
      ActiveLive(heap, timers, active, limbo, id);
      if positive {
        PositiveFree(heap, id.timer);
        if !calling && id in active { KernelErase(timers, kernel, Entry(heap[id.timer].expiration, id.timer)); }
      }
      CancelInLoop(id);
    }

    lemma WorldFine()
      requires Structure() && Cancels()
      ensures WorldOK(Now())
    {
    }

    /** addTimer at an address that is free, or cancel with any id, from outside or from a callback. */
    method UserCall(act: Action)
      requires Valid() || InBatch()
      modifies this
      ensures if calling then InBatch() else Valid()
      ensures unchanged(`calling, `batch, `runs, `limbo, `done)
      ensures Now() == Perform(old(Now()), act)
      ensures old(repeating) <= repeating && (positive ==> old(positive))
    {
      hide Structure, Cancels, Once, KernelOK, PositiveTimes, Pending, CancelledAs, InsertEntry;
      match act {
        case Add(address, when, interval, now) =>
          if address !in heap {
            var id := AddTimer(address, when, interval, now);
          }
        case Cancel(id) =>
          CancelTimer(id);
      }
    }

    /** What a callback does: each Add at an address that is free at that moment, each Cancel with an id given out. */
    method UserCode(acts: seq<Action>)
      requires InBatch()
      modifies this
      ensures InBatch() && unchanged(`batch, `runs, `limbo, `done)
      ensures Now() == PerformAll(old(Now()), acts)
      ensures forall k, id :: 0 <= k < |acts| && acts[k] == Cancel(id) && Genuine(old(issued), id) ==>
        id.sequence in cancelledIn
      ensures forall q :: q in old(cancelledIn) ==> q in cancelledIn && cancelledIn[q] == old(cancelledIn)[q]
      ensures forall p :: p in limbo ==> p in heap && p in old(heap) && heap[p] == old(heap)[p]
      ensures old(repeating) <= repeating && (positive ==> old(positive))
    {
      hide Agree, IdsOK, CancelOK, RunsOK, OnceOK, PositiveTimes, Perform, PerformAll;
      ghost var w := Now();
      WorldFine();
      PerformAllRemembers(w, acts);
      LimboKept(w, acts);
      EarlierCancelled(w, acts);
      hide Structure, Cancels, Once, WorldOK;
      NothingDone(w, acts, []);
      var i := 0;
      while i < |acts|
        invariant 0 <= i <= |acts|
        invariant InBatch() && unchanged(`batch, `runs, `limbo, `done)
        invariant Now() == PerformAll(w, acts[..i])
        invariant old(repeating) <= repeating && (positive ==> old(positive))
        decreases |acts| - i
      {
        PerformStep(w, acts, i);
        UserCall(acts[i]);
        i := i + 1;
      }
      assert acts[..i] == acts;
    }

    /** Takes the timers of the split-off entries out of the second set. */
    method EraseActive(expired: seq<Entry>)
      requires Agree(heap, expired + timers, active, {}) && limbo == {}
      modifies `active, `limbo
      ensures Agree(heap, timers, active, limbo) && limbo == Ptrs(expired)
    {
      hide Agree, Ptrs;
      var i := 0;
      PtrsNone(expired);
      while i < |expired|
        invariant 0 <= i <= |expired|
        invariant Agree(heap, expired[i..] + timers, active, limbo) && limbo == Ptrs(expired[..i])
      {
        ExpireOne(heap, expired, i, timers, active, limbo);
        PtrsStep(expired, i);
        var timer := TimerId(expired[i].timer, heap[expired[i].timer].sequence);
        assert timer in active;
        active := active - {timer};
        limbo := limbo + {expired[i].timer};
        i := i + 1;
      }
      assert expired[..i] == expired && expired[i..] + timers == timers;
    }

    /** Splits off exactly the timers due by now, earliest first. */
    method GetExpired(now: int) returns (expired: seq<Entry>)
      requires Structure() && limbo == {}
      modifies this
      ensures unchanged(`heap, `canceling, `calling, `kernel, `numCreated, `issued, `batch, `runs, `cancelledIn,
                        `repeating, `done, `positive)
      ensures Structure() && limbo == Ptrs(expired) && DistinctTimers(expired)
      ensures expired + timers == old(timers) && |expired| == CountDue(old(timers), now)
      ensures forall i :: 0 <= i < |expired| ==>
        expired[i].when <= now && expired[i].timer in heap && heap[expired[i].timer].expiration == expired[i].when
      ensures forall i :: 0 <= i < |timers| ==> timers[i].when > now
    {
      hide Agree, IdsOK, Ptrs, DistinctTimers, Sorted, CountDue;
      ActiveLive(heap, timers, active, limbo, TimerId(0, 0));
      assert |timers| == |active|;
      var end := CountDue(timers, now);
      DueSplit(timers, now);
      AgreeDistinct(heap, timers, active, limbo, end);
      assert end == |timers| || now < timers[end].when;
      expired := timers[..end];
      assert expired + timers[end..] == timers;
      timers := timers[end..];
      EraseActive(expired);
      ActiveLive(heap, timers, active, limbo, TimerId(0, 0));
      assert |timers| == |active|;
    }

    /** Timer::restart: the next expiration counts from now. */
    method Restart(p: Ptr, now: int)
      requires Structure() && p in limbo
      modifies `heap
      ensures Structure() && p in old(heap) && p in heap
      ensures heap == old(heap)[p :=
        old(heap)[p].(expiration := if old(heap)[p].Repeat() then now + old(heap)[p].interval else 0)]
    {
      var when := if heap[p].Repeat() then now + heap[p].interval else 0;
      hide Agree;
      AgreeRestart(heap, timers, active, limbo, p, when);
      heap := heap[p := heap[p].(expiration := when)];
    }

    /** One timer of the batch: restarted and queued again, or freed. */
    method ResetOne(p: Ptr, now: int)
      requires Structure() && Cancels() && p in limbo
      requires positive ==> PositiveTimes(heap) && now > 0
      modifies `heap, `timers, `active, `limbo
      ensures Structure() && Cancels() && limbo == old(limbo) - {p} && (positive ==> PositiveTimes(heap))
      ensures p in old(heap)
      ensures var t := old(heap)[p];
        heap == if t.Repeat() && TimerId(p, t.sequence) !in canceling
          then old(heap)[p := t.(expiration := now + t.interval)] else old(heap) - {p}
    {
      hide IdsOK, RunsOK, Sorted, InsertEntry;
      var timer := TimerId(p, heap[p].sequence);
      IdsReset(heap, issued, numCreated, p, now + heap[p].interval);
      CancelReset(heap, limbo, canceling, issued, cancelledIn, batch, p, now + heap[p].interval);
      if heap[p].Repeat() && timer !in canceling {
        Restart(p, now);
        var earliestChanged := Insert(p);
      } else {
        AgreeFree(heap, timers, active, limbo, p);
        heap := heap - {p};
        limbo := limbo - {p};
      }
    }

    /** The batch is over: repeating timers are queued again, the others freed. */
    method SettleBatch(expired: seq<Entry>, now: int)
      requires Structure() && Cancels() && limbo == Ptrs(expired) && DistinctTimers(expired)
      requires positive ==> PositiveTimes(heap) && (expired != [] ==> now > 0)
      modifies `heap, `timers, `active, `limbo
      ensures Structure() && Cancels() && limbo == {} && (positive ==> PositiveTimes(heap))
      ensures Settled(heap, canceling, old(heap), Ptrs(expired), now)
    {
      hide Settled, Structure, Cancels, PositiveTimes;
      ghost var heap0 := heap;
      var i := 0;
      assert Ptrs(expired[..0]) == {} && expired[0..] == expired;
      SettledNone(heap, canceling, now);
      while i < |expired|
        invariant 0 <= i <= |expired|
        invariant Structure() && Cancels() && limbo == Ptrs(expired[i..]) && (positive ==> PositiveTimes(heap))
        invariant Settled(heap, canceling, heap0, Ptrs(expired[..i]), now)
      {
        PtrsStep(expired, i);
        PtrsApart(expired, i);
        ghost var heap1 := heap;
        ResetOne(expired[i].timer, now);
        SettledStep(heap1, heap, canceling, heap0, Ptrs(expired[..i]), expired[i].timer, now);
        i := i + 1;
      }
      assert expired[..i] == expired && Ptrs(expired[i..]) == {};
    }

    /** ... and the kernel timer is set for the first pending one. */
    method Reset(expired: seq<Entry>, now: int, end: int)
      requires Structure() && Cancels() && limbo == Ptrs(expired) && DistinctTimers(expired)
      requires positive ==> PositiveTimes(heap) && (expired != [] ==> now > 0)
      modifies this
      ensures unchanged(`canceling, `calling, `numCreated, `issued, `batch, `runs, `cancelledIn, `repeating, `done,
                        `positive)
      ensures Structure() && Cancels() && limbo == {} && (positive ==> PositiveTimes(heap))
      ensures Settled(heap, canceling, old(heap), Ptrs(expired), now)
      ensures kernel == if timers != [] && timers[0].when > 0 then Armed(Max(timers[0].when, end + 100), end)
        else old(kernel)
    {
      hide Agree, IdsOK, Cancels, PositiveTimes, Settled;
      SettleBatch(expired, now);
      if |timers| > 0 {
        AgreeDistinct(heap, timers, active, limbo, 1);
        var nextExpire := heap[timers[0].timer].expiration;
        if nextExpire > 0 {
          ResetTimerfd(nextExpire, end);
        }
      }
    }

    /** The start of a batch: what is due is split off and belongs to a batch of its own. */
    method StartBatch(now: int) returns (expired: seq<Entry>)
      requires Valid()
      modifies this
      ensures unchanged(`heap, `numCreated, `issued, `runs, `cancelledIn, `repeating, `positive)
      ensures InBatch() && limbo == Ptrs(expired) && DistinctTimers(expired) && batch == old(batch) + 1
      ensures done == {} && Now() == Begun(old(Now()), Due(heap, now)) && |expired| == |Due(heap, now)|
      ensures expired == old(timers)[..CountDue(old(timers), now)] && timers == old(timers)[|expired|..]
      ensures positive && expired != [] ==> now > 0
      ensures kernel == if old(kernel).Armed? && old(kernel).deadline <= now then Idle else old(kernel)
    {
      hide Agree, IdsOK, CancelOK, RunsOK, OnceOK, KernelOK, PositiveTimes, Ptrs, DistinctTimers, CountDue, Due;
      ReadTimerfd(now);
      NoneCancelled(heap, canceling, issued, cancelledIn, batch);
      PositiveDue(heap, timers, active, now);
      RunsLater(runs, cancelledIn, batch);
      DueIs(heap, timers, active, now);
      expired := GetExpired(now);
      assert expired == old(timers)[..|expired|] && timers == old(timers)[|expired|..];
      calling := true;
      canceling := {};
      batch := batch + 1;
    }

    /** it->second->run(), one after the other, with whatever the callbacks do. */
    method RunBatch(expired: seq<Entry>, scripts: seq<seq<Action>>)
      requires InBatch() && limbo == Ptrs(expired) && DistinctTimers(expired) && done == {}
      modifies this
      ensures done == Ptrs(expired) && old(repeating) <= repeating
      ensures Now() == PerformAll(old(Now()), Callbacks(scripts, |expired|))
      ensures var acts := Callbacks(scripts, |expired|);
        forall k, id :: 0 <= k < |acts| && acts[k] == Cancel(id) && Genuine(old(issued), id) ==>
          id.sequence in cancelledIn
      ensures InBatch() && limbo == Ptrs(expired) && batch == old(batch) && (positive ==> old(positive))
      ensures runs == old(runs) + RunsOf(old(heap), expired, batch)
      ensures forall p :: p in limbo ==> p in heap && p in old(heap) && heap[p] == old(heap)[p]
      ensures forall q :: q in old(cancelledIn) ==> q in cancelledIn && cancelledIn[q] == old(cancelledIn)[q]
    {
      hide Agree, IdsOK, CancelOK, RunsOK, OnceOK, PositiveTimes, Ptrs, DistinctTimers, PerformAll, Callbacks, WorldOK;
      ghost var heap0 := heap;
      ghost var w := Now();
      WorldFine();
      EarlierCancelled(w, Callbacks(scripts, |expired|));
      PtrsNone(expired);
      CallbacksStep(w, scripts, 0);
      LimboLive(heap, timers, active, limbo);
      var i := 0;
      while i < |expired|
        invariant 0 <= i <= |expired| && InBatch() && limbo == Ptrs(expired) && batch == old(batch)
        invariant done == Ptrs(expired[..i]) && old(repeating) <= repeating
        invariant Now() == PerformAll(w, Callbacks(scripts, i))
        invariant forall p :: p in limbo ==> p in heap && p in heap0 && heap[p] == heap0[p]
        invariant runs == old(runs) + RunsOf(heap0, expired[..i], batch)
        invariant forall q :: q in old(cancelledIn) ==> q in cancelledIn && cancelledIn[q] == old(cancelledIn)[q]
        invariant positive ==> old(positive)
      {
        var p := expired[i].timer;
        PtrsMember(expired, i);
        PtrsApart(expired, i);
        PtrsStep(expired, i);
        assert p in heap;  // run() touches the timer, so it must be alive
        RanInBatch(heap, limbo, canceling, issued, cancelledIn, batch, runs, p);
        RunsOfStep(heap0, expired, i, batch);
        OnceRun(heap, issued, numCreated, repeating, runs, batch, done, p);
        runs := runs + [Run(batch, heap[p].sequence)];
        done := done + {p};
        CallbacksStep(w, scripts, i);
        if i < |scripts| {
          UserCode(scripts[i]);
        }
        i := i + 1;
      }
      assert expired[..i] == expired;
    }

    /**
      After its batch a timer is pending again for now plus its interval if it repeats and was not
      cancelled, else freed.
    */
    ghost predicate Comeback(t: Timer, p: Ptr, now: int)
      reads `heap, `timers, `active, `canceling
    {
      if t.Repeat() && TimerId(p, t.sequence) !in canceling then
        && p in heap && heap[p] == t.(expiration := now + t.interval)
        && Entry(now + t.interval, p) in timers && TimerId(p, t.sequence) in active
      else p !in heap
    }

    /** The kernel timer fired (or nearly): run what is due, with whatever the callbacks do, then settle the batch. */
    method HandleRead(now: int, end: int, scripts: seq<seq<Action>>)
      requires Valid()
      modifies this
      ensures Valid() && batch == old(batch) + 1 && old(repeating) <= repeating
      ensures Now() == Turn(old(Now()), Fire(now, end, scripts))
      ensures timers != [] && timers[0].when > 0 ==> kernel == Armed(Max(timers[0].when, end + 100), end)
      ensures forall i, j, id ::
        (0 <= i < CountDue(old(timers), now) && i < |scripts| && 0 <= j < |scripts[i]| && scripts[i][j] == Cancel(id)
         && Genuine(old(issued), id)) ==>
          id.sequence in cancelledIn
      ensures forall p :: p in heap ==> heap[p].sequence !in cancelledIn
      ensures runs == old(runs) + RunsOf(old(heap), old(timers)[..CountDue(old(timers), now)], batch)
      ensures forall e :: e in old(timers)[..CountDue(old(timers), now)] ==>
        e.timer in old(heap) && Comeback(old(heap)[e.timer], e.timer, now)
      ensures forall q :: q in old(cancelledIn) ==> q in cancelledIn && cancelledIn[q] == old(cancelledIn)[q]
    {
      hide Valid, InBatch, Over, Comeback, PerformAll, Callbacks, Due, Ptrs;
      var expired := StartBatch(now);
      BatchLive(expired);
      RunBatch(expired, scripts);
      ScriptsCancel(scripts, |expired|, old(issued), cancelledIn);
      EndBatch(expired, now, end);
    }

    lemma BatchLive(expired: seq<Entry>)
      requires InBatch() && limbo == Ptrs(expired)
      ensures forall e :: e in expired ==> e.timer in heap && e.timer in limbo
    {
      hide Agree;
      LimboLive(heap, timers, active, limbo);
    }

    /** The callbacks have run: the batch is settled. */
    method EndBatch(expired: seq<Entry>, now: int, end: int)
      requires InBatch() && limbo == Ptrs(expired) && done == Ptrs(expired) && DistinctTimers(expired)
      requires positive && expired != [] ==> now > 0
      modifies this
      ensures unchanged(`numCreated, `issued, `batch, `runs, `cancelledIn, `repeating, `canceling)
      ensures Valid() && Now() == Over(old(Now()), now)
      ensures kernel == if timers != [] && timers[0].when > 0 then Armed(Max(timers[0].when, end + 100), end)
        else old(kernel)
      ensures forall e :: e in expired ==> e.timer in old(heap) && Comeback(old(heap)[e.timer], e.timer, now)
      ensures forall p :: p in heap ==> heap[p].sequence !in cancelledIn
    {
      hide Agree, IdsOK, CancelOK, RunsOK, OnceOK, KernelOK, PositiveTimes, Over;
      ghost var w := Now();
      LimboLive(heap, timers, active, limbo);
      calling := false;
      Reset(expired, now, end);
      OnceSettled(heap, canceling, w.heap, done, now, issued, repeating, runs, cancelledIn, batch);
      done := {};
      OverIs(heap, w, now);
      NoneCancelled(heap, canceling, issued, cancelledIn, batch);
      forall e | e in expired ensures e.timer in w.heap && Comeback(w.heap[e.timer], e.timer, now) {
        SettledComeback(heap, timers, active, canceling, w.heap, expired, e, now);
      }
      FinalKernel(heap, timers, active, kernel, positive, end);
    }

    method TakeTurn(step: Step)
      requires Valid()
      modifies this
      ensures Valid() && Now() == Turn(old(Now()), step)
    {
      hide Structure, Cancels, Once, KernelOK, PositiveTimes, Perform, Over, InCallbacks;
      match step {
        case Act(act) => UserCall(act);
        case Fire(now, end, scripts) => HandleRead(now, end, scripts);
      }
    }

    /** What a state of a run is like. */
    lemma Summary()
      requires Valid()
      ensures forall p :: p in heap ==> heap[p].sequence !in cancelledIn
      ensures forall i :: 0 <= i < |runs| && runs[i].sequence in cancelledIn ==>
        runs[i].batch <= cancelledIn[runs[i].sequence]
      ensures forall i, j :: 0 <= i < j < |runs| && runs[i].sequence == runs[j].sequence ==>
        runs[i].batch < runs[j].batch && runs[i].sequence in repeating
      ensures positive && timers != [] ==> kernel.Armed? && kernel.deadline <= Max(timers[0].when, kernel.armedAt + 100)
      ensures forall p :: p in heap <==> exists e :: e in timers && e.timer == p
    {
      NoneCancelled(heap, canceling, issued, cancelledIn, batch);
      forall p | p in heap ensures exists e :: e in timers && e.timer == p {
        assert Entry(heap[p].expiration, p) in timers;
      }
    }

    /**
      Every run from an empty queue: after any sequence of operations, however
      callbacks re-enter, the queue is valid; in particular no timer ran in a batch
      after the one it was cancelled in, and only a repeating timer ran more than once,
      each time in a later batch.
    */
    method Operate(steps: seq<Step>)
      requires Valid()
      modifies this
      ensures Valid() && Now() == Play(old(Now()), steps)
      ensures forall i, id :: 0 <= i < |steps| && AsksToCancel(Play(old(Now()), steps[..i]), steps[i], id) ==>
        id.sequence in cancelledIn
      ensures forall p :: p in heap ==> heap[p].sequence !in cancelledIn
      ensures forall i :: 0 <= i < |runs| && runs[i].sequence in cancelledIn ==>
        runs[i].batch <= cancelledIn[runs[i].sequence]
      ensures forall i, j :: 0 <= i < j < |runs| && runs[i].sequence == runs[j].sequence ==>
        runs[i].batch < runs[j].batch && runs[i].sequence in repeating
      ensures positive && timers != [] ==> kernel.Armed? && kernel.deadline <= Max(timers[0].when, kernel.armedAt + 100)
      ensures forall p :: p in heap <==> exists e :: e in timers && e.timer == p
    {
      ghost var w := Now();
      hide Structure, Cancels, WorldOK, AsksToCancel;
      WorldFine();
      AllCancelled(w, steps);
      NothingDone(w, [], steps);
      hide Valid, Turn, Play;
      var i := 0;
      while i < |steps|
        invariant 0 <= i <= |steps| && Valid() && Now() == Play(w, steps[..i])
      {
        PlayStep(w, steps, i);
        TakeTurn(steps[i]);
        i := i + 1;
      }
      assert steps[..i] == steps;
      Summary();
    }
  }
}
