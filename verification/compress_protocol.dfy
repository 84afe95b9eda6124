/** Overlapping compress_chunk calls with their threads, as a transition system over shared state
    (src/lib/storage/table.cpp:101-142). One schedule entry lets one caller or one worker thread take its
    next step; reading a chunk pointer and replacing it are single steps. */
module CompressProtocol {
  import opened Wrappers
  import opened Values
  import opened DictionaryEncoding
  import opened TableModel

  /** A shared segment pointer: None is the null pointer that a fresh vector slot holds. */
  type Slot = Option<SegmentView>

  datatype ThreadState = Unstarted | Running | Written | Exited

  /** Where a caller stands: before the chunk is read, up to the last join, holding the mutex before and after
      the swap, returned, or ended by the out_of_range exception. */
  datatype Phase = Reading | Building | Holding | Swapped | Done | Failed

  datatype Call = Call(id: ChunkID, phase: Phase, source: seq<Slot>, threads: seq<ThreadState>, slots: seq<Slot>,
                       started: nat, joined: nat, built: seq<Slot>)

  datatype State = State(chunks: seq<seq<Slot>>, mutex: Option<nat>, calls: seq<Call>)

  datatype Actor = Caller(c: nat) | Worker(c: nat, column: nat)

  ghost function CompressSlot(slot: Slot): Slot {
    match slot
    case None => None
    case Some(s) => if s.InRange() then Some(Compress(s.ty, s.Contents())) else None
  }

  ghost function Start(init: seq<ChunkView>, ids: seq<ChunkID>): State {
    State(seq(|init|, i requires 0 <= i < |init| => Wrap(init[i])), None,
          seq(|ids|, c requires 0 <= c < |ids| => Call(ids[c], Reading, [], [], [], 0, 0, [])))
  }

  ghost function Wrap(c: ChunkView): (w: seq<Slot>)
    ensures |w| == |c|
  {
    seq(|c|, k requires 0 <= k < |c| => Some(c[k]))
  }

  // ---------------------------------------------------------------- steps (None: not enabled)

  ghost function AfterRead(call: Call, chunk: seq<Slot>): Call {
    Call(call.id, Building, chunk, seq(|chunk|, k => Unstarted), seq(|chunk|, k => None), 0, 0, [])
  }

  ghost function CallerStep(s: State, c: nat): Option<State>
    requires c < |s.calls|
  {
    var call := s.calls[c];
    match call.phase
    case Reading =>
      if call.id < |s.chunks| then Some(s.(calls := s.calls[c := AfterRead(call, s.chunks[call.id])]))
      else Some(s.(calls := s.calls[c := call.(phase := Failed)]))
    case Building =>
      if call.started < |call.threads| then
        Some(s.(calls := s.calls[c := call.(started := call.started + 1,
                                            threads := call.threads[call.started := Running])]))
      else if call.joined < |call.threads| then
        if call.threads[call.joined] == Exited && call.joined < |call.slots| then
          Some(s.(calls := s.calls[c := call.(joined := call.joined + 1,
                                              built := call.built + [call.slots[call.joined]])]))
        else None
      else if s.mutex == None then
        Some(s.(mutex := Some(c), calls := s.calls[c := call.(phase := Holding)]))
      else None
    case Holding =>
      if call.id < |s.chunks| then
        Some(s.(chunks := s.chunks[call.id := call.built], calls := s.calls[c := call.(phase := Swapped)]))
      else None
    case Swapped => Some(s.(mutex := None, calls := s.calls[c := call.(phase := Done)]))
    case Done => None
    case Failed => None
  }

  ghost function WorkerStep(s: State, c: nat, k: nat): Option<State>
    requires c < |s.calls|
  {
    var call := s.calls[c];
    if k < |call.threads| && k < |call.slots| && k < |call.source| then
      match call.threads[k]
      case Running =>
        Some(s.(calls := s.calls[c := call.(slots := call.slots[k := CompressSlot(call.source[k])],
                                            threads := call.threads[k := Written])]))
      case Written => Some(s.(calls := s.calls[c := call.(threads := call.threads[k := Exited])]))
      case _ => None
    else None
  }

  ghost function Step(s: State, a: Actor): Option<State> {
    if a.c >= |s.calls| then None
    else
      match a
      case Caller(c) => CallerStep(s, c)
      case Worker(c, k) => WorkerStep(s, c, k)
  }

  /** A schedule is any sequence of enabled actors. */
  ghost function Execute(s: State, schedule: seq<Actor>): Option<State>
    decreases |schedule|
  {
    if schedule == [] then Some(s)
    else
      match Step(s, schedule[0])
      case None => None
      case Some(next) => Execute(next, schedule[1..])
  }

  // ---------------------------------------------------------------- the invariant

  /** The chunks the calls start from: what a good table holds. */
  ghost predicate Initial(types: seq<DataType>, init: seq<ChunkView>) {
    && |types| <= UINT16_MAX && |init| < TWO_TO_32
    && AllGood(types, init) && forall i :: 0 <= i < |init| ==> ChunkSize(init[i]) <= TWO_TO_32
  }

  ghost predicate OriginalOrCompressed(chunk: seq<Slot>, original: ChunkView)
    requires Readable(original)
  {
    chunk == Wrap(original) || chunk == Wrap(CompressChunk(original))
  }

  /** A slot holds the compression of its own column once its thread has written it, and nothing before. */
  ghost predicate SlotsAgree(call: Call, original: ChunkView)
    requires Readable(original)
  {
    && |call.threads| == |call.slots| == |call.source| == |original|
    && (forall k :: 0 <= k < |original| ==> (call.threads[k].Unstarted? <==> call.started <= k))
    && (forall k :: 0 <= k < |original| ==>
          call.slots[k] == (if call.threads[k].Written? || call.threads[k].Exited?
                            then Some(CompressChunk(original)[k]) else None))
  }

  ghost predicate JoinsAgree(call: Call, original: ChunkView)
    requires Readable(original)
  {
    && call.joined <= |call.threads| == |original|
    && call.started <= |original|
    && (call.joined > 0 ==> call.started == |original|)
    && (forall k :: 0 <= k < call.joined ==> call.threads[k].Exited?)
    && call.built == Wrap(CompressChunk(original))[..call.joined]
    && (!call.phase.Building? ==> call.joined == |original|)
  }

  ghost predicate CallInv(init: seq<ChunkView>, call: Call)
    requires forall i :: 0 <= i < |init| ==> Readable(init[i])
  {
    match call.phase
    case Reading => call.threads == []
    case Failed => call.threads == [] && call.id >= |init|
    case _ =>
      && call.id < |init|
      && OriginalOrCompressed(call.source, init[call.id])
      && SlotsAgree(call, init[call.id])
      && JoinsAgree(call, init[call.id])
  }

  ghost predicate ChunksInv(init: seq<ChunkView>, ids: seq<ChunkID>, s: State)
    requires forall i :: 0 <= i < |init| ==> Readable(init[i])
  {
    && |s.chunks| == |init|
    && (forall i :: 0 <= i < |init| ==> OriginalOrCompressed(s.chunks[i], init[i]))
    && (forall i :: 0 <= i < |init| && i !in ids ==> s.chunks[i] == Wrap(init[i]))
  }

  ghost predicate MutexInv(s: State) {
    && (s.mutex.Some? ==> s.mutex.value < |s.calls|)
    && (forall c :: 0 <= c < |s.calls| ==>
          (s.mutex == Some(c) <==> s.calls[c].phase.Holding? || s.calls[c].phase.Swapped?))
  }

  ghost predicate Inv(types: seq<DataType>, init: seq<ChunkView>, ids: seq<ChunkID>, s: State) {
    && Initial(types, init)
    && |s.calls| == |ids|
    && (forall c :: 0 <= c < |ids| ==> s.calls[c].id == ids[c] && CallInv(init, s.calls[c]))
    && ChunksInv(init, ids, s)
    && MutexInv(s)
    && (forall c :: 0 <= c < |ids| && (s.calls[c].phase.Swapped? || s.calls[c].phase.Done?) ==>
          s.chunks[ids[c]] == Wrap(CompressChunk(init[ids[c]])))
  }

  // ---------------------------------------------------------------- the invariant is kept

  /** Whether a thread finds the old column or an already compressed one, it writes the same segment. */
  lemma WorkerWritesTheSame(types: seq<DataType>, c: ChunkView, source: seq<Slot>, k: nat)
    requires GoodChunk(types, c) && ChunkSize(c) <= TWO_TO_32 && k < |c|
    requires OriginalOrCompressed(source, c)
    ensures CompressSlot(source[k]) == Some(CompressChunk(c)[k])
  {
    CompressChunkKeepsRows(types, c);
    assert CompressChunk(c)[k].Contents() == c[k].Contents();
  }

  lemma StartInv(types: seq<DataType>, init: seq<ChunkView>, ids: seq<ChunkID>)
    requires Initial(types, init)
    ensures Inv(types, init, ids, Start(init, ids))
  {
  }

  /** Replacing one call record: the parts of the invariant that speak about calls. */
  lemma CallReplaced(types: seq<DataType>, init: seq<ChunkView>, ids: seq<ChunkID>, s: State, c: nat, call: Call)
    requires Inv(types, init, ids, s) && c < |ids|
    requires call.id == ids[c] && CallInv(init, call)
    requires call.phase.Holding? || call.phase.Swapped? <==> s.mutex == Some(c)
    requires call.phase.Swapped? || call.phase.Done? ==> s.chunks[ids[c]] == Wrap(CompressChunk(init[ids[c]]))
    ensures Inv(types, init, ids, s.(calls := s.calls[c := call]))
  {
  }

  lemma {:induction false} WorkerKeepsInv(types: seq<DataType>, init: seq<ChunkView>, ids: seq<ChunkID>, s: State,
                                          c: nat, k: nat)
    requires Inv(types, init, ids, s) && c < |ids| && WorkerStep(s, c, k).Some?
    ensures Inv(types, init, ids, WorkerStep(s, c, k).value)
  {
    var call := s.calls[c];
    var next := WorkerStep(s, c, k).value.calls[c];
    WorkerWritesTheSame(types, init[ids[c]], call.source, k);
    assert SlotsAgree(next, init[ids[c]]);
    assert JoinsAgree(next, init[ids[c]]);
    CallReplaced(types, init, ids, s, c, next);
  }

  lemma StartKeepsInv(types: seq<DataType>, init: seq<ChunkView>, ids: seq<ChunkID>, s: State, c: nat)
    requires Inv(types, init, ids, s) && c < |ids|
    requires s.calls[c].phase.Building? && s.calls[c].started < |s.calls[c].threads|
    ensures CallerStep(s, c).Some? && Inv(types, init, ids, CallerStep(s, c).value)
  {
    var next := CallerStep(s, c).value.calls[c];
    assert SlotsAgree(next, init[ids[c]]);
    assert JoinsAgree(next, init[ids[c]]);
    CallReplaced(types, init, ids, s, c, next);
  }

  lemma JoinKeepsInv(types: seq<DataType>, init: seq<ChunkView>, ids: seq<ChunkID>, s: State, c: nat)
    requires Inv(types, init, ids, s) && c < |ids| && CallerStep(s, c).Some?
    requires s.calls[c].phase.Building? && s.calls[c].started == |s.calls[c].threads| > s.calls[c].joined
    ensures Inv(types, init, ids, CallerStep(s, c).value)
  {
    var next := CallerStep(s, c).value.calls[c];
    assert SlotsAgree(next, init[ids[c]]);
    assert JoinsAgree(next, init[ids[c]]);
    CallReplaced(types, init, ids, s, c, next);
  }

  lemma LockKeepsInv(types: seq<DataType>, init: seq<ChunkView>, ids: seq<ChunkID>, s: State, c: nat)
    requires Inv(types, init, ids, s) && c < |ids| && CallerStep(s, c).Some?
    requires s.calls[c].phase.Building? && s.calls[c].started == |s.calls[c].threads| == s.calls[c].joined
    ensures Inv(types, init, ids, CallerStep(s, c).value)
  {
  }

  lemma {:induction false} BuildingKeepsInv(types: seq<DataType>, init: seq<ChunkView>, ids: seq<ChunkID>, s: State,
                                            c: nat)
    requires Inv(types, init, ids, s) && c < |ids| && CallerStep(s, c).Some?
    requires s.calls[c].phase.Building?
    ensures Inv(types, init, ids, CallerStep(s, c).value)
  {
    var call := s.calls[c];
    if call.started < |call.threads| {
      StartKeepsInv(types, init, ids, s, c);
    } else if call.joined < |call.threads| {
      JoinKeepsInv(types, init, ids, s, c);
    } else {
      LockKeepsInv(types, init, ids, s, c);
    }
  }

  lemma {:induction false} CallerKeepsInv(types: seq<DataType>, init: seq<ChunkView>, ids: seq<ChunkID>, s: State,
                                          c: nat)
    requires Inv(types, init, ids, s) && c < |ids| && CallerStep(s, c).Some?
    ensures Inv(types, init, ids, CallerStep(s, c).value)
  {
    var call := s.calls[c];
    var next := CallerStep(s, c).value.calls[c];
    match call.phase
    case Reading =>
      if call.id < |init| {
        assert SlotsAgree(next, init[ids[c]]);
        assert JoinsAgree(next, init[ids[c]]);
      }
      CallReplaced(types, init, ids, s, c, next);
    case Building => BuildingKeepsInv(types, init, ids, s, c);
    case Holding => SwapKeepsInv(types, init, ids, s, c);
    case Swapped =>
    case _ =>
  }

  lemma SwapKeepsInv(types: seq<DataType>, init: seq<ChunkView>, ids: seq<ChunkID>, s: State, c: nat)
    requires Inv(types, init, ids, s) && c < |ids| && s.calls[c].phase.Holding?
    ensures CallerStep(s, c).Some? && Inv(types, init, ids, CallerStep(s, c).value)
  {
    var call := s.calls[c];
    assert call.built == Wrap(CompressChunk(init[ids[c]]));
  }

  lemma {:induction false} StepKeepsInv(types: seq<DataType>, init: seq<ChunkView>, ids: seq<ChunkID>, s: State,
                                        a: Actor)
    requires Inv(types, init, ids, s) && Step(s, a).Some?
    ensures Inv(types, init, ids, Step(s, a).value)
  {
    match a
    case Caller(c) => CallerKeepsInv(types, init, ids, s, c);
    case Worker(c, k) => WorkerKeepsInv(types, init, ids, s, c, k);
  }

  // ---------------------------------------------------------------- safety of every schedule

  /** The join that reads slot k finds it written, with the compression of column k. */
  lemma {:induction false} NoSlotIsReadEarly(types: seq<DataType>, init: seq<ChunkView>, ids: seq<ChunkID>, s: State,
                                             c: nat)
    requires Inv(types, init, ids, s) && c < |ids|
    requires CallerStep(s, c).Some? && |CallerStep(s, c).value.calls[c].built| > |s.calls[c].built|
    ensures var k := |s.calls[c].built|;
      k < |init[ids[c]]| && CallerStep(s, c).value.calls[c].built[k] == Some(CompressChunk(init[ids[c]])[k])
  {
  }

  /** The rows a reader sees: those of the segments behind the slots. */
  ghost function Unwrap(chunks: seq<seq<Slot>>): (r: seq<ChunkView>)
    requires forall i, k :: 0 <= i < |chunks| && 0 <= k < |chunks[i]| ==> chunks[i][k].Some?
    ensures |r| == |chunks|
  {
    seq(|chunks|, i requires 0 <= i < |chunks| =>
      seq(|chunks[i]|, k requires 0 <= k < |chunks[i]| => chunks[i][k].value))
  }

  lemma {:induction false} RowsAreConstant(types: seq<DataType>, init: seq<ChunkView>, ids: seq<ChunkID>, s: State)
    requires Inv(types, init, ids, s)
    ensures forall i, k :: 0 <= i < |s.chunks| && 0 <= k < |s.chunks[i]| ==> s.chunks[i][k].Some?
    ensures AllGood(types, Unwrap(s.chunks))
    ensures RowsOf(types, Unwrap(s.chunks)) == RowsOf(types, init)
  {
    var now := Unwrap(s.chunks);
    forall i | 0 <= i < |init| ensures GoodChunk(types, now[i]) && ChunkRows(now[i]) == ChunkRows(init[i]) {
      CompressChunkKeepsRows(types, init[i]);
      assert now[i] == init[i] || now[i] == CompressChunk(init[i]);
    }
    SameRows(types, now, init);
  }

  // ---------------------------------------------------------------- progress and termination

  ghost predicate Finished(call: Call) {
    call.phase.Done? || call.phase.Failed?
  }

  /** No deadlock: while some call has not returned, some caller or thread can move. */
  lemma SomeoneCanMove(types: seq<DataType>, init: seq<ChunkView>, ids: seq<ChunkID>, s: State, c: nat)
    returns (a: Actor)
    requires Inv(types, init, ids, s) && c < |ids| && !Finished(s.calls[c])
    ensures Step(s, a).Some?
  {
    var call := s.calls[c];
    if call.phase.Building? && call.started == |call.threads| && call.joined < |call.threads|
       && !call.threads[call.joined].Exited? {
      a := Worker(c, call.joined);
    } else if call.phase.Building? && call.joined == |call.threads| && s.mutex.Some? {
      a := Caller(s.mutex.value);
    } else {
      a := Caller(c);
    }
  }

  function Sum(s: seq<nat>): nat {
    if s == [] then 0 else Sum(s[..|s| - 1]) + s[|s| - 1]
  }

  lemma {:induction false} SumUpdate(s: seq<nat>, i: nat, v: nat)
    requires i < |s|
    ensures Sum(s[i := v]) == Sum(s) - s[i] + v
  {
    var front := s[..|s| - 1];
    var t := s[i := v];
    if i < |front| {
      SumUpdate(front, i, v);
      assert t[..|t| - 1] == front[i := v];
    } else {
      assert t[..|t| - 1] == front;
    }
  }

  function ThreadWork(t: ThreadState): nat {
    match t
    case Unstarted => 2
    case Running => 2
    case Written => 1
    case Exited => 0
  }

  function ThreadWorks(threads: seq<ThreadState>): seq<nat> {
    seq(|threads|, k requires 0 <= k < |threads| => ThreadWork(threads[k]))
  }

  /** The number of steps a call and its threads still take. */
  function CallWork(columns: nat, call: Call): nat {
    match call.phase
    case Reading => 4 * columns + 4
    case Building =>
      (if call.started <= |call.threads| then |call.threads| - call.started else 0)
      + (if call.joined <= |call.threads| then |call.threads| - call.joined else 0)
      + Sum(ThreadWorks(call.threads)) + 3
    case Holding => 2
    case Swapped => 1
    case Done => 0
    case Failed => 0
  }

  function CallWorks(columns: nat, calls: seq<Call>): seq<nat> {
    seq(|calls|, c requires 0 <= c < |calls| => CallWork(columns, calls[c]))
  }

  function Work(columns: nat, s: State): nat {
    Sum(CallWorks(columns, s.calls))
  }

  lemma CallMoved(columns: nat, calls: seq<Call>, c: nat, call: Call)
    requires c < |calls| && CallWork(columns, call) < CallWork(columns, calls[c])
    ensures Sum(CallWorks(columns, calls[c := call])) < Sum(CallWorks(columns, calls))
  {
    SumUpdate(CallWorks(columns, calls), c, CallWork(columns, call));
    assert CallWorks(columns, calls[c := call]) == CallWorks(columns, calls)[c := CallWork(columns, call)];
  }

  lemma {:induction false} FreshThreads(n: nat)
    ensures Sum(ThreadWorks(seq(n, k => Unstarted))) == 2 * n
  {
    var works := ThreadWorks(seq(n, k => Unstarted));
    if n > 0 {
      FreshThreads(n - 1);
      assert works[..|works| - 1] == ThreadWorks(seq(n - 1, k => Unstarted));
    }
  }

  lemma ThreadMoved(threads: seq<ThreadState>, k: nat, t: ThreadState)
    requires k < |threads|
    ensures Sum(ThreadWorks(threads[k := t])) == Sum(ThreadWorks(threads)) - ThreadWork(threads[k]) + ThreadWork(t)
  {
    SumUpdate(ThreadWorks(threads), k, ThreadWork(t));
    assert ThreadWorks(threads[k := t]) == ThreadWorks(threads)[k := ThreadWork(t)];
  }

  lemma WorkerUsesWork(types: seq<DataType>, init: seq<ChunkView>, ids: seq<ChunkID>, s: State, c: nat, k: nat)
    requires Inv(types, init, ids, s) && c < |ids| && WorkerStep(s, c, k).Some?
    ensures CallWork(|types|, WorkerStep(s, c, k).value.calls[c]) < CallWork(|types|, s.calls[c])
  {
    var call := s.calls[c];
    var call' := WorkerStep(s, c, k).value.calls[c];
    ThreadMoved(call.threads, k, call'.threads[k]);
    assert call'.threads == call.threads[k := call'.threads[k]];
    assert call.phase.Building?;
  }

  lemma CallerUsesWork(types: seq<DataType>, init: seq<ChunkView>, ids: seq<ChunkID>, s: State, c: nat)
    requires Inv(types, init, ids, s) && c < |ids| && CallerStep(s, c).Some?
    ensures CallWork(|types|, CallerStep(s, c).value.calls[c]) < CallWork(|types|, s.calls[c])
  {
    var call := s.calls[c];
    if call.phase.Reading? && call.id < |s.chunks| {
      FreshThreads(|types|);
    } else if call.phase.Building? && call.started < |call.threads| {
      ThreadMoved(call.threads, call.started, Running);
    }
  }

  /** Every step uses up work, so every schedule is finite. */
  lemma StepUsesWork(types: seq<DataType>, init: seq<ChunkView>, ids: seq<ChunkID>, s: State, a: Actor)
    requires Inv(types, init, ids, s) && Step(s, a).Some?
    ensures Work(|types|, Step(s, a).value) < Work(|types|, s)
  {
    match a {
      case Worker(c, k) => WorkerUsesWork(types, init, ids, s, c, k);
      case Caller(c) => CallerUsesWork(types, init, ids, s, c);
    }
    var next := Step(s, a).value;
    CallMoved(|types|, s.calls, a.c, next.calls[a.c]);
    assert next.calls == s.calls[a.c := next.calls[a.c]];
  }

  // ---------------------------------------------------------------- main results

  lemma {:induction false} ExecuteKeepsInv(types: seq<DataType>, init: seq<ChunkView>, ids: seq<ChunkID>, s: State,
                                           schedule: seq<Actor>)
    requires Inv(types, init, ids, s) && Execute(s, schedule).Some?
    ensures Inv(types, init, ids, Execute(s, schedule).value)
    ensures |schedule| + Work(|types|, Execute(s, schedule).value) <= Work(|types|, s)
    decreases |schedule|
  {
    if schedule != [] {
      StepKeepsInv(types, init, ids, s, schedule[0]);
      StepUsesWork(types, init, ids, s, schedule[0]);
      ExecuteKeepsInv(types, init, ids, Step(s, schedule[0]).value, schedule[1..]);
    }
  }

  /** Any number of overlapping compress_chunk calls, under every interleaving: at every moment every chunk is
      either untouched or wholly compressed, the table reads as the same rows, and the number of steps is bounded. */
  lemma {:induction false} EveryInterleavingIsSafe(types: seq<DataType>, init: seq<ChunkView>, ids: seq<ChunkID>,
                                                   schedule: seq<Actor>)
    requires Initial(types, init) && Execute(Start(init, ids), schedule).Some?
    ensures var s := Execute(Start(init, ids), schedule).value;
      && Inv(types, init, ids, s)
      && AllGood(types, Unwrap(s.chunks))
      && RowsOf(types, Unwrap(s.chunks)) == RowsOf(types, init)
    ensures |schedule| <= Work(|types|, Start(init, ids))
  {
    StartInv(types, init, ids);
    ExecuteKeepsInv(types, init, ids, Start(init, ids), schedule);
    RowsAreConstant(types, init, ids, Execute(Start(init, ids), schedule).value);
  }

  /** A schedule that cannot be continued has run every call to its end, and its outcome does not depend on the
      interleaving: exactly the requested chunks are compressed. */
  lemma EveryInterleavingEndsAlike(types: seq<DataType>, init: seq<ChunkView>, ids: seq<ChunkID>, schedule: seq<Actor>)
    requires Initial(types, init) && Execute(Start(init, ids), schedule).Some?
    requires forall a :: Step(Execute(Start(init, ids), schedule).value, a).None?
    ensures var s := Execute(Start(init, ids), schedule).value;
      && |s.calls| == |ids|
      && (forall c :: 0 <= c < |ids| ==> if ids[c] < |init| then s.calls[c].phase.Done? else s.calls[c].phase.Failed?)
      && s.mutex == None
      && |s.chunks| == |init|
      && forall i :: 0 <= i < |init| ==> s.chunks[i] == Wrap(if i in ids then CompressChunk(init[i]) else init[i])
  {
    EveryInterleavingIsSafe(types, init, ids, schedule);
    var s := Execute(Start(init, ids), schedule).value;
    forall c | 0 <= c < |ids|
      ensures if ids[c] < |init| then s.calls[c].phase.Done? else s.calls[c].phase.Failed?
    {
      if !Finished(s.calls[c]) {
        var a := SomeoneCanMove(types, init, ids, s, c);
      }
    }
    forall i | 0 <= i < |init| && i in ids ensures s.chunks[i] == Wrap(CompressChunk(init[i])) {
      var c :| 0 <= c < |ids| && ids[c] == i;
      assert s.calls[c].phase.Done?;
    }
  }
}
