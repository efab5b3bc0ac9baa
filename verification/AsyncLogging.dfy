/**
  The double-buffered log: FixedBuffer over its array, and the exchange of buffers
  between appending threads and the backend thread, as interleaved atomic steps.
*/
module AsyncLoggings {

  import Buffers

  type Byte = Buffers.Byte
  type Line = seq<Byte>
  /** A buffer is known by the whole lines copied into it; FixedBuffer below ties that to its bytes. */
  type Lines = seq<Line>

  const LARGE_BUFFER := 4000 * 1000

  function Bytes(lines: Lines): seq<Byte> {
    if lines == [] then [] else Bytes(lines[..|lines| - 1]) + lines[|lines| - 1]
  }

  /** A line is copied whole or not at all, and a buffer is never filled to the last byte. */
  function Copied(size: nat, lines: Lines, line: Line): Lines {
    if size - |Bytes(lines)| > |line| then lines + [line] else lines
  }

  class FixedBuffer {
    const data: array<Byte>
    var cur: nat
    ghost var lines: Lines

    ghost predicate Valid()
      reads this, data
    {
      cur < data.Length && data[..cur] == Bytes(lines)
    }

    constructor (size: nat)
      requires size > 0
      ensures Valid() && data.Length == size && lines == [] && fresh(data)
    {
      data := new Byte[size];
      cur := 0;
      lines := [];
    }

    function Length(): nat
      reads `cur
    {
      cur
    }

    function Avail(): int
      reads `cur
    {
      data.Length - cur
    }

    /** What is held is exactly the lines copied so far, one after the other. */
    method Append(buf: Line)
      requires Valid()
      modifies this, data
      ensures Valid() && lines == Copied(data.Length, old(lines), buf)
    {
      if Avail() > |buf| {
        forall k | 0 <= k < |buf| {
          data[cur + k] := buf[k];
        }
        assert data[..cur + |buf|] == old(data[..cur]) + buf;
        cur := cur + |buf|;
        assert (lines + [buf])[..|lines|] == lines;
        lines := lines + [buf];
      }
    }

    method Reset()
      requires Valid()
      modifies this
      ensures Valid() && lines == []
    {
      cur := 0;
      lines := [];
    }
  }

  // ----- the exchange -----

  datatype Pointer = Null | To(lines: Lines)

  /**
    Where the backend is.  Waiting: in the timed wait, the mutex released.  Taken:
    out of the critical section with a batch.  Writing(i): the first i buffers of
    the batch are in the file.
  */
  datatype Phase = Top | Waiting | Taken | Writing(i: nat) | Done

  datatype Record = Chunk(lines: Lines) | DropNotice(count: int)

  datatype State = State(
    current: Pointer, next: Pointer, buffers: seq<Lines>, running: bool,       // shared
    phase: Phase, new1: Pointer, new2: Pointer, toWrite: seq<Lines>,           // the backend's locals
    file: seq<Record>,
    accepted: Lines,          // history: the lines copied into a buffer, in the order of the critical sections
    batches: seq<seq<Lines>>  // history: what each swap handed to the backend
  )

  datatype Action = Append(line: Line) | Enter | WakeUp | DropExcess | WriteOne | Recycle | Stop | Exit

  function Init(): State {
    State(To([]), To([]), [], true, Top, To([]), To([]), [], [], [], [])
  }

  function Content(p: Pointer): Lines {
    if p.Null? then [] else p.lines
  }

  function AppendStep(s: State, line: Line): State {
    var cur := Content(s.current);
    if LARGE_BUFFER - |Bytes(cur)| > |line| then
      s.(current := To(Copied(LARGE_BUFFER, cur, line)), accepted := s.accepted + [line])
    else
      var spare := if s.next != Null then Content(s.next) else [];
      var filled := Copied(LARGE_BUFFER, spare, line);
      s.(buffers := s.buffers + [cur], current := To(filled), next := Null,
         accepted := s.accepted + filled[|spare|..])
  }

  /** The rest of the critical section once any wait is over. */
  function Take(s: State): State {
    var batch := s.buffers + [Content(s.current)];
    var t := s.(phase := Taken, toWrite := batch, buffers := [], current := s.new1, new1 := Null,
                batches := s.batches + [batch]);
    if s.next == Null then t.(next := s.new2, new2 := Null) else t
  }

  /** Refills the two spares from the back of the batch, of which at most two buffers are kept. */
  function RecycleStep(s: State): State {
    var w := if |s.toWrite| > 2 then s.toWrite[..2] else s.toWrite;
    var (n1, w1) := if s.new1 == Null then (To([]), Pop(w)) else (s.new1, w);
    var n2 := if s.new2 == Null then To([]) else s.new2;
    s.(phase := Top, new1 := n1, new2 := n2, toWrite := [])
  }

  function Pop<T>(w: seq<T>): seq<T> {
    if w == [] then [] else w[..|w| - 1]
  }

  predicate Enabled(s: State, a: Action) {
    match a
    case Append(_) => true
    case Enter => s.phase == Top && s.running
    case WakeUp => s.phase == Waiting
    case DropExcess => s.phase == Taken
    case WriteOne => s.phase.Writing? && s.phase.i < |s.toWrite|
    case Recycle => s.phase == Writing(|s.toWrite|)
    case Stop => true
    case Exit => s.phase == Top && !s.running
  }

  function Step(s: State, a: Action): State
    requires Enabled(s, a)
  {
    match a
    case Append(line) => AppendStep(s, line)
    case Enter => if s.buffers == [] then s.(phase := Waiting) else Take(s)
    case WakeUp => Take(s)
    case DropExcess =>
      if |s.toWrite| > 25
      then s.(phase := Writing(0), file := s.file + [DropNotice(|s.toWrite| - 2)], toWrite := s.toWrite[..2])
      else s.(phase := Writing(0))
    case WriteOne => s.(phase := Writing(s.phase.i + 1), file := s.file + [Chunk(s.toWrite[s.phase.i])])
    case Recycle => RecycleStep(s)
    case Stop => s.(running := false)
    case Exit => s.(phase := Done)
  }

  /** The assertions and dereferences of the source at this step. */
  predicate AssertsHold(s: State, a: Action) {
    match a
    case Append(_) => s.current != Null
    case Enter => s.new1 == To([]) && s.new2 == To([]) && s.toWrite == [] && s.current != Null
    case WakeUp => s.current != Null
    case DropExcess => s.toWrite != []
    case WriteOne => true
    case Recycle =>
      var w := if |s.toWrite| > 2 then s.toWrite[..2] else s.toWrite;
      var w1 := if s.new1 == Null then Pop(w) else w;
      (s.new1 == Null ==> w != []) && (s.new2 == Null ==> w1 != [])
    case Stop => true
    case Exit => true
  }

  // ----- what the file should hold -----

  function Kept(batch: seq<Lines>): seq<Lines> {
    if |batch| > 25 then batch[..2] else batch
  }

  function Lost(batch: seq<Lines>): seq<Lines> {
    if |batch| > 25 then batch[2..] else []
  }

  function Chunks(buffers: seq<Lines>): (r: seq<Record>)
    ensures |r| == |buffers|
  {
    if buffers == [] then [] else Chunks(buffers[..|buffers| - 1]) + [Chunk(buffers[|buffers| - 1])]
  }

  function Notice(batch: seq<Lines>): seq<Record> {
    if |batch| > 25 then [DropNotice(|batch| - 2)] else []
  }

  /** The file a list of batches leaves behind. */
  function Output(batches: seq<seq<Lines>>): seq<Record> {
    if batches == [] then []
    else
      var last := batches[|batches| - 1];
      Output(batches[..|batches| - 1]) + Notice(last) + Chunks(Kept(last))
  }

  function Flat(buffers: seq<Lines>): Lines {
    if buffers == [] then [] else Flat(buffers[..|buffers| - 1]) + buffers[|buffers| - 1]
  }

  function FlatAll(batches: seq<seq<Lines>>): Lines {
    if batches == [] then [] else FlatAll(batches[..|batches| - 1]) + Flat(batches[|batches| - 1])
  }

  function FileLines(file: seq<Record>): Lines {
    if file == [] then []
    else
      FileLines(file[..|file| - 1]) + (match file[|file| - 1] case Chunk(lines) => lines case DropNotice(_) => [])
  }

  ghost predicate Small(p: Pointer) {
    p != Null && |Bytes(p.lines)| < LARGE_BUFFER
  }

  /** Where the spare buffers are, phase by phase. */
  ghost predicate Spares(s: State) {
    && Small(s.current)
    && (s.next != Null ==> s.next == To([]))
    && (s.next == Null ==> s.buffers != [])
    && (s.new2 != Null ==> s.new2 == To([]))
    && (match s.phase
        case Top => s.new1 == To([]) && s.new2 == To([]) && s.toWrite == []
        case Waiting => s.new1 == To([]) && s.new2 == To([]) && s.toWrite == []
        case Taken => s.new1 == Null && |s.toWrite| >= (if s.new2 == Null then 2 else 1)
        case Writing(_) => s.new1 == Null && |s.toWrite| >= (if s.new2 == Null then 2 else 1)
        case Done => true)
  }

  /** Every accepted line is in a batch handed over, a full buffer or the current one, in order. */
  ghost predicate Conserves(s: State) {
    s.accepted == FlatAll(s.batches) + Flat(s.buffers) + Content(s.current)
  }

  ghost predicate FileOK(s: State) {
    var n := |s.batches|;
    match s.phase
    case Top => s.file == Output(s.batches)
    case Waiting => s.file == Output(s.batches)
    case Done => s.file == Output(s.batches)
    case Taken => n > 0 && s.toWrite == s.batches[n - 1] && s.file == Output(s.batches[..n - 1])
    case Writing(i) =>
      && n > 0 && s.toWrite == Kept(s.batches[n - 1]) && i <= |s.toWrite|
      && s.file == Output(s.batches[..n - 1]) + Notice(s.batches[n - 1]) + Chunks(s.toWrite[..i])
  }

  ghost predicate Inv(s: State) {
    Spares(s) && Conserves(s) && FileOK(s)
  }

  lemma BytesAppend(lines: Lines, line: Line)
    ensures Bytes(lines + [line]) == Bytes(lines) + line
  {
    assert (lines + [line])[..|lines|] == lines;
  }

  lemma FlatAppend(buffers: seq<Lines>, b: Lines)
    ensures Flat(buffers + [b]) == Flat(buffers) + b
  {
    assert (buffers + [b])[..|buffers|] == buffers;
  }

  /** Exactly the lines shorter than a whole buffer are accepted. */
  lemma Accepted(s: State, line: Line)
    requires Spares(s)
    ensures AppendStep(s, line).accepted == if |line| < LARGE_BUFFER then s.accepted + [line] else s.accepted
  {
    assert Bytes([]) == [];
    assert ([] + [line])[0..] == [line];
  }

  /** A line goes behind those in the current buffer as long as there is room; only then is another one begun. */
  lemma RoomFirst(s: State, line: Line)
    requires Spares(s)
    ensures var t, cur := AppendStep(s, line), Content(s.current);
      if |Bytes(cur)| + |line| < 4000000 then t == s.(current := To(cur + [line]), accepted := s.accepted + [line])
      else
        && t.buffers == s.buffers + [cur] && t.next == Null
        && t.current == To(if |line| < 4000000 then [line] else [])
  {
    assert Bytes([]) == [];
    assert [] + [line] == [line];
  }

  lemma AppendSpares(s: State, line: Line)
    requires Spares(s)
    ensures Spares(AppendStep(s, line))
  {
    BytesAppend(Content(s.current), line);
    BytesAppend([], line);
  }

  lemma AppendConserves(s: State, line: Line)
    requires Conserves(s) && s.current != Null && (s.next != Null ==> s.next == To([]))
    ensures Conserves(AppendStep(s, line))
  {
    hide FlatAll, Flat, Bytes;
    var g, b, cur := FlatAll(s.batches), Flat(s.buffers), Content(s.current);
    FlatAppend(s.buffers, cur);
    assert g + b + cur + [line] == g + b + (cur + [line]);
    var filled := Copied(LARGE_BUFFER, [], line);
    assert filled[0..] == filled && g + b + cur + filled == g + (b + cur) + filled;
  }

  lemma AppendKeeps(s: State, line: Line)
    requires Inv(s)
    ensures Inv(AppendStep(s, line))
  {
    hide FlatAll, Flat, Bytes, Output, Chunks, Conserves;
    AppendSpares(s, line);
    AppendConserves(s, line);
  }

  lemma FlatNone()
    ensures Flat([]) == []
  {
  }

  lemma TakeConserves(s: State)
    requires Conserves(s) && s.new1 == To([])
    ensures Conserves(Take(s))
  {
    hide Flat, Bytes;
    var batch := s.buffers + [Content(s.current)];
    FlatAppend(s.buffers, Content(s.current));
    assert (s.batches + [batch])[..|s.batches|] == s.batches;
    FlatNone();
    var g, b, c := FlatAll(s.batches), Flat(s.buffers), Content(s.current);
    assert g + (b + c) + [] + [] == g + b + c;
  }

  lemma TakeKeeps(s: State)
    requires Inv(s) && (s.phase == Top || s.phase == Waiting)
    ensures Inv(Take(s))
  {
    hide Output, Chunks, Flat, FlatAll, Conserves;
    var batch := s.buffers + [Content(s.current)];
    TakeConserves(s);
    assert Bytes([]) == [];
    assert (s.batches + [batch])[..|s.batches|] == s.batches;
  }

  lemma WriteKeeps(s: State)
    requires Inv(s) && Enabled(s, WriteOne)
    ensures Inv(Step(s, WriteOne))
  {
    hide Output, FlatAll, Flat, Kept;
    var i := s.phase.i;
    assert s.toWrite[..i + 1][..i] == s.toWrite[..i];
  }

  lemma RecycleKeeps(s: State)
    requires Inv(s) && Enabled(s, Recycle)
    ensures Inv(Step(s, Recycle))
  {
    hide FlatAll, Flat, Chunks;
    assert s.toWrite[..|s.toWrite|] == s.toWrite;
  }

  lemma StepKeepsInv(s: State, a: Action)
    requires Inv(s) && Enabled(s, a)
    ensures AssertsHold(s, a) && Inv(Step(s, a))
  {
    hide Output, FlatAll, Flat, Bytes;
    match a
    case Append(line) => AppendKeeps(s, line);
    case Enter => TakeKeeps(s);
    case WakeUp => TakeKeeps(s);
    case DropExcess => assert s.file + Notice(s.toWrite) + Chunks([]) == s.file + Notice(s.toWrite);
    case WriteOne => WriteKeeps(s);
    case Recycle => RecycleKeeps(s);
    case Stop =>
    case Exit =>
  }

  // ----- runs -----

  /** Actions that are not enabled do nothing. */
  function Exec(schedule: seq<Action>): State {
    if schedule == [] then Init()
    else
      var t := Exec(schedule[..|schedule| - 1]);
      var a := schedule[|schedule| - 1];
      if Enabled(t, a) then Step(t, a) else t
  }

  lemma {:induction false} EveryRun(schedule: seq<Action>)
    ensures Inv(Exec(schedule))
  {
    if schedule != [] {
      EveryRun(schedule[..|schedule| - 1]);
      var t := Exec(schedule[..|schedule| - 1]);
      var a := schedule[|schedule| - 1];
      if Enabled(t, a) {
        StepKeepsInv(t, a);
      }
    }
  }

  /** The assertions about the spare buffers never fail, whatever the interleaving. */
  lemma AssertionsNeverFail(schedule: seq<Action>, a: Action)
    requires Enabled(Exec(schedule), a)
    ensures AssertsHold(Exec(schedule), a)
  {
    EveryRun(schedule);
    StepKeepsInv(Exec(schedule), a);
  }

  /** No line is lost, duplicated, split or reordered on its way to the backend. */
  lemma AllLinesInOrder(schedule: seq<Action>)
    ensures var s := Exec(schedule);
      s.accepted == FlatAll(s.batches) + Flat(s.buffers) + Content(s.current)
  {
    EveryRun(schedule);
  }

  /** Whenever the backend is between batches, the file is exactly what the batches call for. */
  lemma FileIsOutput(schedule: seq<Action>)
    requires Exec(schedule).phase in {Top, Waiting, Done}
    ensures Exec(schedule).file == Output(Exec(schedule).batches)
  {
    EveryRun(schedule);
  }

  lemma {:induction false} FileLinesConcat(f: seq<Record>, g: seq<Record>)
    ensures FileLines(f + g) == FileLines(f) + FileLines(g)
  {
    if g == [] {
      assert f + g == f;
    } else {
      FileLinesConcat(f, g[..|g| - 1]);
      assert (f + g)[..|f + g| - 1] == f + g[..|g| - 1];
    }
  }

  lemma {:induction false} ChunkLines(buffers: seq<Lines>)
    ensures FileLines(Chunks(buffers)) == Flat(buffers)
  {
    if buffers != [] {
      ChunkLines(buffers[..|buffers| - 1]);
      FileLinesConcat(Chunks(buffers[..|buffers| - 1]), [Chunk(buffers[|buffers| - 1])]);
      assert FileLines([Chunk(buffers[|buffers| - 1])]) == FileLines([]) + buffers[|buffers| - 1];
    }
  }

  lemma {:induction false} FlatConcat(a: seq<Lines>, b: seq<Lines>)
    ensures Flat(a + b) == Flat(a) + Flat(b)
  {
    if b == [] {
      assert a + b == a;
    } else {
      FlatConcat(a, b[..|b| - 1]);
      assert (a + b)[..|a + b| - 1] == a + b[..|b| - 1];
    }
  }

  lemma BatchSplits(batch: seq<Lines>)
    ensures Flat(batch) == Flat(Kept(batch)) + Flat(Lost(batch))
    ensures FileLines(Notice(batch) + Chunks(Kept(batch))) == Flat(Kept(batch))
  {
    if |batch| > 25 {
      assert batch == batch[..2] + batch[2..];
      FlatConcat(batch[..2], batch[2..]);
    }
    FileLinesConcat(Notice(batch), Chunks(Kept(batch)));
    ChunkLines(Kept(batch));
    assert FileLines(Notice(batch)) == [];
  }

  /** Of more than 25 buffers all but two are dropped, and the file says how many. */
  lemma DropsAreCounted(batch: seq<Lines>)
    ensures batch == Kept(batch) + Lost(batch)
    ensures |Lost(batch)| == if |batch| > 25 then |batch| - 2 else 0
    ensures Notice(batch) == if Lost(batch) == [] then [] else [DropNotice(|Lost(batch)|)]
  {
  }

  /** Some line was in a buffer after the second of a batch of more than 25. */
  ghost predicate LostLine(batches: seq<seq<Lines>>) {
    exists k :: 0 <= k < |batches| && Flat(Lost(batches[k])) != []
  }

  lemma NothingMissing(f: Lines, g: Lines, x: Lines, y: Lines)
    requires |f| <= |g|
    ensures f + x == g + (x + y) <==> f == g && y == []
  {
    if f + x == g + (x + y) {
      assert |f| + |x| == |g| + |x| + |y|;
      assert f == (f + x)[..|f|] && g == (g + (x + y))[..|f|];
    }
  }

  lemma OutputStep(front: seq<seq<Lines>>, last: seq<Lines>)
    ensures FileLines(Output(front + [last])) == FileLines(Output(front)) + Flat(Kept(last))
    ensures FlatAll(front + [last]) == FlatAll(front) + (Flat(Kept(last)) + Flat(Lost(last)))
  {
    hide Flat, Lost, Kept, Notice, Chunks, FileLines;
    var batches := front + [last];
    assert batches[..|front|] == front;
    BatchSplits(last);
    assert Output(front) + Notice(last) + Chunks(Kept(last)) == Output(front) + (Notice(last) + Chunks(Kept(last)));
    FileLinesConcat(Output(front), Notice(last) + Chunks(Kept(last)));
  }

  lemma {:induction false} OutputLines(batches: seq<seq<Lines>>)
    ensures |FileLines(Output(batches))| <= |FlatAll(batches)|
    ensures FileLines(Output(batches)) == FlatAll(batches) <==> !LostLine(batches)
  {
    if batches != [] {
      hide *;
      var n := |batches| - 1;
      var front, last := batches[..n], batches[n];
      OutputLines(front);
      assert batches == front + [last];
      OutputStep(front, last);
      LostLineStep(batches);
      NothingMissing(FileLines(Output(front)), FlatAll(front), Flat(Kept(last)), Flat(Lost(last)));
    }
  }

  lemma LostLineStep(batches: seq<seq<Lines>>)
    requires batches != []
    ensures LostLine(batches) <==> LostLine(batches[..|batches| - 1]) || Flat(Lost(batches[|batches| - 1])) != []
  {
    hide Flat, Lost;
    var n := |batches| - 1;
    if LostLine(batches[..n]) {
      var k :| 0 <= k < n && Flat(Lost(batches[..n][k])) != [];
      assert Flat(Lost(batches[k])) != [];
    }
    if LostLine(batches) {
      var k :| 0 <= k < |batches| && Flat(Lost(batches[k])) != [];
      assert k < n ==> Flat(Lost(batches[..n][k])) != [];
    }
  }

  /** The buffers handed to the backend and not yet in the file. */
  function InFlight(s: State): seq<Lines> {
    match s.phase
    case Taken => s.toWrite
    case Writing(i) => if i <= |s.toWrite| then s.toWrite[i..] else []
    case _ => []
  }

  /** The batches for which it is settled what is kept. */
  function Decided(s: State): seq<seq<Lines>> {
    if s.phase.Taken? && s.batches != [] then s.batches[..|s.batches| - 1] else s.batches
  }

  /** The batch just taken, about which nothing is settled. */
  function Undecided(s: State): Lines {
    if s.phase.Taken? && s.batches != [] then Flat(s.batches[|s.batches| - 1]) else []
  }

  lemma WrittenAndInFlight(s: State)
    requires FileOK(s)
    ensures FileLines(s.file) + Flat(InFlight(s)) == FileLines(Output(Decided(s))) + Undecided(s)
    ensures FlatAll(s.batches) == FlatAll(Decided(s)) + Undecided(s)
  {
    hide Output, FileLines, Chunks, Kept, Notice, Flat;
    FlatNone();
    if s.phase.Writing? {
      var n, i := |s.batches| - 1, s.phase.i;
      var front, last := s.batches[..n], s.batches[n];
      assert s.batches == front + [last];
      OutputStep(front, last);
      assert s.toWrite == s.toWrite[..i] + s.toWrite[i..];
      FlatConcat(s.toWrite[..i], s.toWrite[i..]);
      NoticeLines(last);
      FileLinesConcat(Output(front), Notice(last));
      FileLinesConcat(Output(front) + Notice(last), Chunks(s.toWrite[..i]));
      ChunkLines(s.toWrite[..i]);
    }
  }

  lemma NoticeLines(batch: seq<Lines>)
    ensures FileLines(Notice(batch)) == []
  {
  }

  lemma SameEnd(f: Lines, g: Lines, x: Lines)
    ensures f + x == g + x <==> f == g
  {
    if f + x == g + x {
      assert |f| == |g|;
      assert f == (f + x)[..|f|] && g == (g + x)[..|g|];
    }
  }

  /**
    At every moment of every run the file, the buffers in flight, the full buffers and
    the current one hold every accepted line in order, exactly if no batch of more than
    25 whose fate is settled had lines after its second buffer.
  */
  lemma CompleteIffNothingDropped(schedule: seq<Action>)
    ensures var s := Exec(schedule);
      FileLines(s.file) + Flat(InFlight(s)) + Flat(s.buffers) + Content(s.current) == s.accepted
      <==> !LostLine(Decided(s))
  {
    hide Exec, Flat, FlatAll, FileLines, Output, Decided, InFlight, Undecided, LostLine;
    EveryRun(schedule);
    var s := Exec(schedule);
    WrittenAndInFlight(s);
    OutputLines(Decided(s));
    var f, g := FileLines(Output(Decided(s))), FlatAll(Decided(s));
    var x, b, c := Undecided(s), Flat(s.buffers), Content(s.current);
    assert f + x + b + c == f + (x + b + c);
    assert g + x + b + c == g + (x + b + c);
    SameEnd(f, g, x + b + c);
  }

  // ----- what is in memory -----

  /** Step j of the schedule is the backend taking a batch. */
  predicate Takes(schedule: seq<Action>, j: nat)
    requires j < |schedule|
  {
    var t := Exec(schedule[..j]);
    Enabled(t, schedule[j]) && (schedule[j].WakeUp? || (schedule[j].Enter? && t.buffers != []))
  }

  /** The lines accepted since the last batch was taken. */
  function SinceTake(schedule: seq<Action>): Lines {
    if schedule == [] then []
    else
      var n := |schedule| - 1;
      var before := SinceTake(schedule[..n]);
      if Takes(schedule, n) then []
      else if schedule[n].Append? && |schedule[n].line| < LARGE_BUFFER then before + [schedule[n].line]
      else before
  }

  lemma AppendMemory(s: State, line: Line)
    requires Spares(s)
    ensures var t := AppendStep(s, line);
      Flat(t.buffers) + Content(t.current) ==
        Flat(s.buffers) + Content(s.current) + if |line| < LARGE_BUFFER then [line] else []
  {
    hide Flat;
    var cur := Content(s.current);
    FlatAppend(s.buffers, cur);
    assert Bytes([]) == [];
    assert Flat(s.buffers) + (cur + [line]) == Flat(s.buffers) + cur + [line];
  }

  /** Outside the backend, memory gains the accepted lines and is emptied when a batch is taken. */
  lemma MemoryStep(s: State, a: Action)
    requires Spares(s) && Enabled(s, a)
    ensures var t := Step(s, a);
      Flat(t.buffers) + Content(t.current) ==
        if a.WakeUp? || (a.Enter? && s.buffers != []) then []
        else if a.Append? && |a.line| < LARGE_BUFFER then Flat(s.buffers) + Content(s.current) + [a.line]
        else Flat(s.buffers) + Content(s.current)
  {
    hide Flat, Bytes, AppendStep;
    FlatNone();
    if a.Append? {
      AppendMemory(s, a.line);
    }
  }

  /** What is in memory outside the backend is what was accepted since it last took a batch. */
  lemma {:induction false} MemoryIsSinceTake(schedule: seq<Action>)
    ensures var s := Exec(schedule); Flat(s.buffers) + Content(s.current) == SinceTake(schedule)
  {
    hide Flat, Bytes, Step, Inv, Enabled;
    FlatNone();
    if schedule != [] {
      var n := |schedule| - 1;
      MemoryIsSinceTake(schedule[..n]);
      EveryRun(schedule[..n]);
      var t := Exec(schedule[..n]);
      InvSpares(t);
      AlwaysEnabled(t, schedule[n]);
      if Enabled(t, schedule[n]) {
        MemoryStep(t, schedule[n]);
      }
    }
  }

  lemma AlwaysEnabled(s: State, a: Action)
    ensures a.Append? ==> Enabled(s, a)
  {
  }

  lemma InvSpares(s: State)
    requires Inv(s)
    ensures Spares(s)
  {
  }

  /** Every accepted line was followed by the backend taking a batch. */
  ghost predicate AllTaken(schedule: seq<Action>) {
    forall k :: 0 <= k < |schedule| && schedule[k].Append? && |schedule[k].line| < LARGE_BUFFER ==>
      exists j :: k < j < |schedule| && Takes(schedule, j)
  }

  lemma TakesPrefix(schedule: seq<Action>, n: nat, j: nat)
    requires j < n <= |schedule|
    ensures Takes(schedule[..n], j) == Takes(schedule, j)
  {
    hide Exec, Enabled;
    assert schedule[..n][..j] == schedule[..j];
  }

  lemma TakesIsTake(schedule: seq<Action>, j: nat)
    requires j < |schedule|
    ensures Takes(schedule, j) ==> !schedule[j].Append?
  {
  }

  lemma AllTakenStep(schedule: seq<Action>)
    requires schedule != []
    ensures var n := |schedule| - 1; var a := schedule[n];
      AllTaken(schedule) <==>
        Takes(schedule, n) || (AllTaken(schedule[..n]) && !(a.Append? && |a.line| < LARGE_BUFFER))
  {
    hide Takes;
    var n := |schedule| - 1;
    TakesIsTake(schedule, n);
    forall j | 0 <= j < n ensures Takes(schedule[..n], j) == Takes(schedule, j) {
      TakesPrefix(schedule, n, j);
    }
    if AllTaken(schedule[..n]) {
      forall k | 0 <= k < n && schedule[k].Append? && |schedule[k].line| < LARGE_BUFFER
        ensures exists j :: k < j < |schedule| && Takes(schedule, j)
      {
        assert schedule[..n][k] == schedule[k];
        var j :| k < j < n && Takes(schedule[..n], j);
        assert Takes(schedule, j);
      }
    }
    if AllTaken(schedule) && !Takes(schedule, n) {
      forall k | 0 <= k < n && schedule[..n][k].Append? && |schedule[..n][k].line| < LARGE_BUFFER
        ensures exists j :: k < j < n && Takes(schedule[..n], j)
      {
        assert schedule[..n][k] == schedule[k];
        var j :| k < j < |schedule| && Takes(schedule, j);
        assert Takes(schedule[..n], j);
      }
    }
  }

  lemma {:induction false} SinceTakeEmpty(schedule: seq<Action>)
    ensures SinceTake(schedule) == [] <==> AllTaken(schedule)
  {
    if schedule != [] {
      hide Takes, AllTaken;
      SinceTakeEmpty(schedule[..|schedule| - 1]);
      AllTakenStep(schedule);
    }
  }

  /**
    When the log has stopped, the file holds every accepted line exactly if nothing was
    dropped and the backend took a batch after the last accepted line.
  */
  lemma StopKeepsAllIff(schedule: seq<Action>)
    requires Exec(schedule).phase.Done?
    ensures var s := Exec(schedule);
      FileLines(s.file) == s.accepted <==> !LostLine(s.batches) && AllTaken(schedule)
  {
    hide Exec, Flat, FlatAll, FileLines, Output, LostLine, AllTaken, SinceTake;
    EveryRun(schedule);
    MemoryIsSinceTake(schedule);
    SinceTakeEmpty(schedule);
    var s := Exec(schedule);
    OutputLines(s.batches);
    var f, g, rest := FileLines(s.file), FlatAll(s.batches), Flat(s.buffers) + Content(s.current);
    assert s.accepted == g + rest;
    assert f + [] == f && g + ([] + rest) == g + rest;
    NothingMissing(f, g, [], rest);
  }

  /** Lines still in memory when the log is stopped are never written. */
  lemma StopLosesMemory(line: Line)
    requires |line| < LARGE_BUFFER
    ensures var s := Exec([Append(line), Stop, Exit]);
      s.phase == Done && s.accepted == [line] && s.file == []
  {
    var all := [Append(line), Stop, Exit];
    assert all[..2] == [Append(line), Stop];
    assert all[..2][..1] == [Append(line)];
    assert all[..2][..1][..0] == [];
    Accepted(Init(), line);
    assert Exec(all[..2][..1]) == AppendStep(Init(), line);
    assert Exec(all[..2]) == AppendStep(Init(), line).(running := false);
  }

  // ----- progress -----

  /** What the backend does next. */
  function NextStep(s: State): Action
    requires s.phase != Done && (s.phase.Writing? ==> s.phase.i <= |s.toWrite|)
  {
    match s.phase
    case Top => if s.running then Enter else Exit
    case Waiting => WakeUp
    case Taken => DropExcess
    case Writing(i) => if i < |s.toWrite| then WriteOne else Recycle
  }

  lemma ExecStep(schedule: seq<Action>, a: Action)
    ensures Exec(schedule + [a]) == if Enabled(Exec(schedule), a) then Step(Exec(schedule), a) else Exec(schedule)
  {
    assert (schedule + [a])[..|schedule|] == schedule;
  }

  /** Steps of the backend left until it is between batches. */
  function Left(s: State): nat {
    match s.phase
    case Waiting => |s.buffers| + 5
    case Taken => |s.toWrite| + 3
    case Writing(i) => if i <= |s.toWrite| then |s.toWrite| - i + 1 else 0
    case _ => 0
  }

  /** The backend is never stuck: on its own it gets back between batches, and whatever it had taken is in the file. */
  lemma {:induction false} BackendReturns(schedule: seq<Action>) returns (q: seq<Action>)
    requires Exec(schedule).phase !in {Top, Done}
    ensures var s, t := Exec(schedule), Exec(schedule + q);
      && t.phase == Top && t.running == s.running && t.accepted == s.accepted
      && (if s.phase == Waiting then t.buffers == [] && t.current == To([])
          else t.buffers == s.buffers && t.current == s.current)
    decreases Left(Exec(schedule))
  {
    var s := Exec(schedule);
    EveryRun(schedule);
    var a := NextStep(s);
    ExecStep(schedule, a);
    var t := Step(s, a);
    BackendStep(s);
    if t.phase == Top {
      q := [a];
    } else {
      q := BackendReturns(schedule + [a]);
      assert schedule + [a] + q == schedule + ([a] + q);
      q := [a] + q;
    }
  }

  lemma BackendStep(s: State)
    requires Spares(s) && s.phase !in {Top, Done} && (s.phase.Writing? ==> s.phase.i <= |s.toWrite|)
    ensures Enabled(s, NextStep(s))
    ensures var t := Step(s, NextStep(s));
      && Left(t) < Left(s) && t.phase != Done && t.phase != Waiting
      && t.running == s.running && t.accepted == s.accepted
      && (if s.phase == Waiting then t.buffers == [] && t.current == To([])
          else t.buffers == s.buffers && t.current == s.current)
  {
    hide Small;
  }

  /** As long as the log is running, everything appended so far can get out of memory and to the backend's file. */
  lemma AllCanBeTaken(schedule: seq<Action>) returns (q: seq<Action>)
    requires Exec(schedule).running && Exec(schedule).phase != Done
    ensures var s, t := Exec(schedule), Exec(schedule + q);
      && t.phase == Top && t.accepted == s.accepted && t.buffers == [] && t.current == To([])
      && t.accepted == FlatAll(t.batches) && t.file == Output(t.batches)
  {
    hide Exec, Inv;
    var back: seq<Action> := [];
    assert schedule + back == schedule;
    if Exec(schedule).phase != Top {
      back := BackendReturns(schedule);
    }
    var top := schedule + back;
    var enter := Exec(top + [Enter]);
    ExecStep(top, Enter);
    EnterTakes(top);
    var rest := BackendReturns(top + [Enter]);
    q := back + [Enter] + rest;
    assert schedule + q == top + [Enter] + rest;
    AllLinesInOrder(schedule + q);
    FileIsOutput(schedule + q);
    var t := Exec(schedule + q);
    FlatNone();
    assert FlatAll(t.batches) + [] + [] == FlatAll(t.batches);
  }

  /** Between batches the backend waits for buffers, or takes what is there at once. */
  lemma EnterTakes(schedule: seq<Action>)
    requires Exec(schedule).phase == Top && Exec(schedule).running
    ensures var s := Exec(schedule); var t := Step(s, Enter);
      && Enabled(s, Enter) && t.running && t.accepted == s.accepted
      && (t.phase == Waiting <==> s.buffers == []) && (t.phase == Taken <==> s.buffers != [])
      && (t.phase == Taken ==> t.buffers == [] && t.current == To([]))
  {
    EveryRun(schedule);
  }

  /** A log that was stopped comes to its end. */
  lemma StopCanFinish(schedule: seq<Action>) returns (q: seq<Action>)
    requires !Exec(schedule).running && Exec(schedule).phase != Done
    ensures Exec(schedule + q).phase == Done
  {
    hide Exec;
    q := [];
    assert schedule + [] == schedule;
    if Exec(schedule).phase != Top {
      q := BackendReturns(schedule);
    }
    ExecStep(schedule + q, Exit);
    assert schedule + q + [Exit] == schedule + (q + [Exit]);
    q := q + [Exit];
  }

  /** The backend ends only when the log was stopped, and then begins nothing more once it is between batches. */
  lemma {:induction false} DoneOnlyIfStopped(schedule: seq<Action>)
    ensures var s := Exec(schedule);
      && (s.running <==> Stop !in schedule) && (s.phase == Done ==> Stop in schedule)
      && (!s.running && s.phase in {Top, Done} ==> forall a :: Enabled(s, a) ==> a.Append? || a.Stop? || a.Exit?)
  {
    if !Exec(schedule).running && Exec(schedule).phase in {Top, Done} {
      NothingBegun(Exec(schedule));
    }
    if schedule != [] {
      hide Step, Enabled;
      var n := |schedule| - 1;
      DoneOnlyIfStopped(schedule[..n]);
      assert schedule == schedule[..n] + [schedule[n]];
      RunningStep(Exec(schedule[..n]), schedule[n]);
    }
  }

  lemma NothingBegun(s: State)
    requires !s.running && s.phase in {Top, Done}
    ensures forall a :: Enabled(s, a) ==> a.Append? || a.Stop? || a.Exit?
  {
  }

  lemma RunningStep(s: State, a: Action)
    ensures a.Stop? ==> Enabled(s, a)
    ensures Enabled(s, a) ==> var t := Step(s, a);
      && t.running == (s.running && !a.Stop?)
      && (t.phase == Done ==> s.phase == Done || (a.Exit? && !s.running))
  {
    hide AppendStep, RecycleStep;
    if a.Append? {
      AppendRuns(s, a.line);
    }
    if a.Recycle? {
      RecycleRuns(s);
    }
  }

  lemma AppendRuns(s: State, line: Line)
    ensures AppendStep(s, line).running == s.running && AppendStep(s, line).phase == s.phase
  {
  }

  lemma RecycleRuns(s: State)
    ensures RecycleStep(s).running == s.running && RecycleStep(s).phase == Top
  {
  }

  /** An append and a stop are always possible; a stop changes nothing but what it is for. */
  lemma AlwaysOpen(s: State, line: Line)
    ensures Enabled(s, Append(line)) && Step(s, Append(line)) == AppendStep(s, line)
    ensures Enabled(s, Stop) && Step(s, Stop) == s.(running := false)
  {
  }
}
