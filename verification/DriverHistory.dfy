/** What the renaming of the test bench driver is for: over every run, each instruction is sent
    the tags of the youngest earlier writers of its sources.  The statements speak of the
    instructions that were sent, not of the driver's steps. */
module DriverHistory {

  import opened RenamingDriver

  const NOP := DecInst(0, Instruction(Alu, 0, 0, 0), 0, MapEntry(true, 0), MapEntry(true, 0))

  type Sent = d: DecInst | d.DecInst? witness NOP

  /** All instructions sent so far, and for each whether its tag was broadcast after that. */
  datatype History = History(sent: seq<Sent>, complete: seq<bool>)

  /** None of the instructions from `i` up to, not including, `n` writes register `m`. */
  ghost predicate NoWriter(sent: seq<Sent>, i: nat, n: nat, m: nat)
    requires n <= |sent|
  {
    forall j :: i <= j < n ==> sent[j].inst.rd != m
  }

  /** Of the first `n` instructions, `i` is the youngest that writes register `m`. */
  ghost predicate IsWriter(sent: seq<Sent>, n: nat, m: nat, i: nat)
    requires n <= |sent|
  {
    i < n && sent[i].inst.rd == m && NoWriter(sent, i + 1, n, m)
  }

  /** After the first `n` instructions register `m` has the tag of its youngest writer, or without
      one its own first tag. */
  ghost predicate HasTag(sent: seq<Sent>, n: nat, m: nat, tag: nat)
    requires n <= |sent|
  {
    && (forall i :: 0 <= i < n && IsWriter(sent, n, m, i) ==> tag == sent[i].tag)
    && (NoWriter(sent, 0, n, m) ==> tag == m)
  }

  /** Moreover it is ready exactly if that writer, if any, has completed by now. */
  ghost predicate StandsFor(h: History, m: nat, e: MapEntry)
    requires |h.complete| == |h.sent|
  {
    && HasTag(h.sent, |h.sent|, m, e.tag)
    && (forall i :: 0 <= i < |h.sent| && IsWriter(h.sent, |h.sent|, m, i) ==> e.ready == h.complete[i])
    && (NoWriter(h.sent, 0, |h.sent|, m) ==> e.ready)
  }

  // ---- the history of a run ---------------------------------------------------------

  ghost predicate CanSend(s: State, insts: seq<Instruction>) {
    |insts| <= |s.freeList| && InstsOk(|s.mapTable|, insts)
  }

  function Append(h: History, d: Sent): History { History(h.sent + [d], h.complete + [false]) }

  /** After the first `n` instructions of a dispatch group. */
  ghost function AfterDispatch(h: History, s: State, insts: seq<Instruction>, n: nat): History
    requires CanSend(s, insts) && n <= |insts|
  {
    if n == 0 then h
    else Append(AfterDispatch(h, s, insts, n - 1), DecOf(DispatchMany(s, insts, n - 1), insts[n - 1]))
  }

  ghost function AfterBroadcast(h: History, tags: seq<nat>): (g: History)
    requires |h.complete| == |h.sent|
    ensures g.sent == h.sent && |g.complete| == |g.sent|
  {
    History(h.sent, seq(|h.sent|, i requires 0 <= i < |h.sent| => h.complete[i] || h.sent[i].tag in tags))
  }

  ghost function AfterTask(h: History, s: State, t: Task): History
    requires Possible(s, t) && |h.complete| == |h.sent|
  {
    match t
    case DispatchTask(insts) => AfterDispatch(h, s, insts, |insts|)
    case CompleteTask(tags) => AfterBroadcast(h, tags)
    case RetireTask(_) => h
  }

  /** The history of a run from state `s`, with `h` before it. */
  ghost predicate Records(h: History, s: State, tasks: seq<Task>, g: History)
    decreases |tasks|
  {
    if tasks == [] then g == h
    else |h.complete| == |h.sent| && Possible(s, tasks[0])
         && Records(AfterTask(h, s, tasks[0]), Perform(s, tasks[0]), tasks[1..], g)
  }

  function Asked(t: Task): seq<Instruction> { if t.DispatchTask? then t.insts else [] }

  /** The instructions that a run asks for, in order. */
  function Program(tasks: seq<Task>): seq<Instruction>
    decreases |tasks|
  {
    if tasks == [] then [] else Asked(tasks[0]) + Program(tasks[1..])
  }

  // ---- what every step keeps -----------------------------------------------------------

  /** Entry `k` of the reorder buffer is the instruction sent as number `i`. */
  ghost predicate IsEntry(h: History, i: nat, e: RobEntry)
    requires i < |h.sent| == |h.complete|
  {
    && e.pc == h.sent[i].pc && e.rd == h.sent[i].inst.rd && e.tag == h.sent[i].tag
    && (e.complete <==> h.complete[i]) && HasTag(h.sent, i, e.rd, e.tagOld)
  }

  /** Instruction number `i` was sent the tags of its sources. */
  ghost predicate ReadsWriters(sent: seq<Sent>, i: nat)
    requires i < |sent|
  {
    && sent[i].pc == 4 * i
    && HasTag(sent, i, sent[i].inst.rs1, sent[i].src1.tag)
    && HasTag(sent, i, sent[i].inst.rs2, sent[i].src2.tag)
  }

  /** The tag for instruction number `i`: the tags that are free at the start come first, in order, and
      then the tags that the instructions overwrote, in program order. */
  ghost predicate IsHandedOut(arch: nat, phys: nat, sent: seq<Sent>, i: nat, tag: nat) {
    if i < phys - arch then tag == arch + i
    else arch <= phys && i - (phys - arch) < |sent|
         && HasTag(sent, i - (phys - arch), sent[i - (phys - arch)].inst.rd, tag)
  }

  /** The tables of the driver are what the history says. */
  ghost predicate Agrees(arch: nat, phys: nat, h: History, s: State) {
    && |h.complete| == |h.sent| >= |s.rob| && s.pc == 4 * |h.sent|
    && |s.freeList| + |s.rob| == phys - arch
    && (forall k :: 0 <= k < |s.freeList| ==> IsHandedOut(arch, phys, h.sent, |h.sent| + k, s.freeList[k]))
    && (forall i :: 0 <= i < |h.sent| ==> IsHandedOut(arch, phys, h.sent, i, h.sent[i].tag))
    && (forall m :: 0 <= m < |s.mapTable| ==> StandsFor(h, m, s.mapTable[m]))
    && (forall k :: 0 <= k < |s.rob| ==> IsEntry(h, |h.sent| - |s.rob| + k, s.rob[k]))
    && (forall i :: 0 <= i < |h.sent| ==> ReadsWriters(h.sent, i))
  }

  lemma NoWriterOfPrefix(sent: seq<Sent>, d: Sent, i: nat, n: nat, m: nat)
    requires n <= |sent|
    ensures NoWriter(sent + [d], i, n, m) <==> NoWriter(sent, i, n, m)
  {
    var more := sent + [d];
    if NoWriter(more, i, n, m) {
      forall j | i <= j < n ensures sent[j].inst.rd != m {
        assert more[j] == sent[j];
      }
    }
  }

  lemma TagOfPrefix(sent: seq<Sent>, d: Sent, n: nat, m: nat, tag: nat)
    requires n <= |sent|
    ensures HasTag(sent + [d], n, m, tag) <==> HasTag(sent, n, m, tag)
  {
    var more := sent + [d];
    assert forall j :: 0 <= j < |sent| ==> more[j] == sent[j];
    NoWriterOfPrefix(sent, d, 0, n, m);
    forall i | 0 <= i < n ensures IsWriter(more, n, m, i) <==> IsWriter(sent, n, m, i) {
      NoWriterOfPrefix(sent, d, i + 1, n, m);
    }
    if HasTag(more, n, m, tag) {
      forall i | 0 <= i < n && IsWriter(sent, n, m, i) ensures tag == sent[i].tag {
        assert IsWriter(more, n, m, i);
      }
    }
  }

  lemma WriterAfter(sent: seq<Sent>, d: Sent, m: nat, i: nat)
    requires i <= |sent|
    ensures IsWriter(sent + [d], |sent| + 1, m, i)
       <==> if d.inst.rd == m then i == |sent| else IsWriter(sent, |sent|, m, i)
    ensures NoWriter(sent + [d], 0, |sent| + 1, m) <==> d.inst.rd != m && NoWriter(sent, 0, |sent|, m)
  {
    var more := sent + [d];
    assert more[|sent|] == d;
    assert forall j :: 0 <= j < |sent| ==> more[j] == sent[j];
  }

  lemma StandsAfter(h: History, d: Sent, m: nat, e: MapEntry)
    requires |h.complete| == |h.sent|
    requires if d.inst.rd == m then e == MapEntry(false, d.tag) else StandsFor(h, m, e)
    ensures StandsFor(Append(h, d), m, e)
  {
    var g := Append(h, d);
    WriterAfter(h.sent, d, m, 0);
    forall i | 0 <= i < |g.sent| && IsWriter(g.sent, |g.sent|, m, i)
      ensures e.tag == g.sent[i].tag && e.ready == g.complete[i]
    {
      WriterAfter(h.sent, d, m, i);
    }
  }

  lemma EntryAfter(h: History, d: Sent, i: nat, e: RobEntry)
    requires i < |h.sent| == |h.complete| && IsEntry(h, i, e)
    ensures IsEntry(Append(h, d), i, e)
  {
    TagOfPrefix(h.sent, d, i, e.rd, e.tagOld);
  }

  lemma ReadsAfter(h: History, d: Sent, i: nat)
    requires i < |h.sent| && ReadsWriters(h.sent, i)
    ensures ReadsWriters(h.sent + [d], i)
  {
    TagOfPrefix(h.sent, d, i, h.sent[i].inst.rs1, h.sent[i].src1.tag);
    TagOfPrefix(h.sent, d, i, h.sent[i].inst.rs2, h.sent[i].src2.tag);
  }

  lemma HandedOutAfter(arch: nat, phys: nat, sent: seq<Sent>, d: Sent, i: nat, tag: nat)
    requires IsHandedOut(arch, phys, sent, i, tag)
    ensures IsHandedOut(arch, phys, sent + [d], i, tag)
  {
    if i >= phys - arch {
      var j := i - (phys - arch);
      assert (sent + [d])[j] == sent[j];
      TagOfPrefix(sent, d, j, sent[j].inst.rd, tag);
    }
  }

  lemma NewAgrees(arch: nat, phys: nat, h: History, s: State, r: Instruction)
    requires Agrees(arch, phys, h, s) && s.freeList != []
    requires r.rd < |s.mapTable| && r.rs1 < |s.mapTable| && r.rs2 < |s.mapTable|
    ensures var g, s' := Append(h, DecOf(s, r)), DispatchOne(s, r.rd);
            IsEntry(g, |h.sent|, s'.rob[|s.rob|]) && ReadsWriters(g.sent, |h.sent|)
  {
    var d, n := DecOf(s, r), |h.sent|;
    TagOfPrefix(h.sent, d, n, r.rd, s.mapTable[r.rd].tag);
    TagOfPrefix(h.sent, d, n, r.rs1, d.src1.tag);
    TagOfPrefix(h.sent, d, n, r.rs2, d.src2.tag);
  }

  lemma DispatchAgrees(arch: nat, phys: nat, h: History, s: State, r: Instruction)
    requires Agrees(arch, phys, h, s) && s.freeList != []
    requires r.rd < |s.mapTable| && r.rs1 < |s.mapTable| && r.rs2 < |s.mapTable|
    ensures Agrees(arch, phys, Append(h, DecOf(s, r)), DispatchOne(s, r.rd))
  {
    hide StandsFor, IsEntry, ReadsWriters, IsHandedOut;
    var d := DecOf(s, r);
    var g, s' := Append(h, d), DispatchOne(s, r.rd);
    forall m | 0 <= m < |s'.mapTable| ensures StandsFor(g, m, s'.mapTable[m]) {
      StandsAfter(h, d, m, s'.mapTable[m]);
    }
    forall k | 0 <= k < |s.rob| ensures IsEntry(g, |g.sent| - |s'.rob| + k, s'.rob[k]) {
      EntryAfter(h, d, |h.sent| - |s.rob| + k, s.rob[k]);
    }
    NewAgrees(arch, phys, h, s, r);
    forall k | 0 <= k < |s'.freeList| ensures IsHandedOut(arch, phys, g.sent, |g.sent| + k, s'.freeList[k]) {
      assert IsHandedOut(arch, phys, h.sent, |h.sent| + (k + 1), s.freeList[k + 1]);
      HandedOutAfter(arch, phys, h.sent, d, |h.sent| + (k + 1), s.freeList[k + 1]);
    }
    forall i | 0 <= i < |g.sent| ensures IsHandedOut(arch, phys, g.sent, i, g.sent[i].tag) {
      if i < |h.sent| {
        HandedOutAfter(arch, phys, h.sent, d, i, h.sent[i].tag);
      } else {
        assert IsHandedOut(arch, phys, h.sent, |h.sent| + 0, s.freeList[0]);
        HandedOutAfter(arch, phys, h.sent, d, i, d.tag);
      }
    }
    forall i | 0 <= i < |h.sent| ensures ReadsWriters(g.sent, i) {
      ReadsAfter(h, d, i);
    }
  }

  lemma {:induction false} DispatchesAgree(arch: nat, phys: nat, h: History, s: State, insts: seq<Instruction>, n: nat)
    requires Agrees(arch, phys, h, s) && CanSend(s, insts) && n <= |insts|
    ensures Agrees(arch, phys, AfterDispatch(h, s, insts, n), DispatchMany(s, insts, n))
    ensures |AfterDispatch(h, s, insts, n).sent| == |h.sent| + n
  {
    hide Agrees, DispatchOne;
    if n > 0 {
      DispatchesAgree(arch, phys, h, s, insts, n - 1);
      DispatchAgrees(arch, phys, AfterDispatch(h, s, insts, n - 1), DispatchMany(s, insts, n - 1), insts[n - 1]);
    }
  }

  function ReadyAfter(e: MapEntry, tags: seq<nat>): MapEntry { MapEntry(e.ready || e.tag in tags, e.tag) }

  function CompleteAfter(e: RobEntry, tags: seq<nat>): RobEntry {
    e.(complete := e.complete || e.tag in tags)
  }

  lemma TagsAppend(tags: seq<nat>, n: nat, x: nat)
    requires 0 < n <= |tags|
    ensures x in tags[..n] <==> x in tags[..n - 1] || x == tags[n - 1]
  {
    assert tags[..n] == tags[..n - 1] + [tags[n - 1]];
  }

  /** What a broadcast changes: ready bits and completion, by tag. */
  ghost predicate IsBroadcast(s: State, r: State, tags: seq<nat>) {
    && r.freeList == s.freeList && r.pc == s.pc && |r.mapTable| == |s.mapTable| && |r.rob| == |s.rob|
    && (forall m :: 0 <= m < |s.mapTable| ==> r.mapTable[m] == ReadyAfter(s.mapTable[m], tags))
    && (forall k :: 0 <= k < |s.rob| ==> r.rob[k] == CompleteAfter(s.rob[k], tags))
  }

  lemma {:induction false} BroadcastIs(s: State, tags: seq<nat>, n: nat)
    requires n <= |tags|
    ensures IsBroadcast(s, CompleteMany(s, tags, n), tags[..n])
  {
    if n > 0 {
      BroadcastIs(s, tags, n - 1);
      var r := CompleteMany(s, tags, n);
      forall m | 0 <= m < |s.mapTable| ensures r.mapTable[m] == ReadyAfter(s.mapTable[m], tags[..n]) {
        TagsAppend(tags, n, s.mapTable[m].tag);
      }
      forall k | 0 <= k < |s.rob| ensures r.rob[k] == CompleteAfter(s.rob[k], tags[..n]) {
        TagsAppend(tags, n, s.rob[k].tag);
      }
    }
  }

  lemma BroadcastStands(h: History, tags: seq<nat>, m: nat, e: MapEntry)
    requires |h.complete| == |h.sent| && StandsFor(h, m, e)
    ensures StandsFor(AfterBroadcast(h, tags), m, ReadyAfter(e, tags))
  {
    hide NoWriter;
  }

  lemma BroadcastEntry(h: History, tags: seq<nat>, i: nat, e: RobEntry)
    requires i < |h.sent| == |h.complete| && IsEntry(h, i, e)
    ensures IsEntry(AfterBroadcast(h, tags), i, CompleteAfter(e, tags))
  {
    hide HasTag;
  }

  lemma BroadcastKeeps(arch: nat, phys: nat, h: History, s: State, r: State, tags: seq<nat>)
    requires Agrees(arch, phys, h, s) && IsBroadcast(s, r, tags)
    ensures Agrees(arch, phys, AfterBroadcast(h, tags), r)
  {
    hide StandsFor, IsEntry, ReadsWriters, IsHandedOut, AfterBroadcast, ReadyAfter, CompleteAfter;
    var g, first := AfterBroadcast(h, tags), |h.sent| - |s.rob|;
    forall m | 0 <= m < |r.mapTable| ensures StandsFor(g, m, r.mapTable[m]) {
      BroadcastStands(h, tags, m, s.mapTable[m]);
    }
    forall k | 0 <= k < |r.rob| ensures IsEntry(g, first + k, r.rob[k]) {
      BroadcastEntry(h, tags, first + k, s.rob[k]);
    }
  }

  lemma BroadcastAgrees(arch: nat, phys: nat, h: History, s: State, tags: seq<nat>)
    requires Agrees(arch, phys, h, s)
    ensures Agrees(arch, phys, AfterBroadcast(h, tags), CompleteMany(s, tags, |tags|))
  {
    hide IsBroadcast, Agrees, AfterBroadcast, CompleteMany;
    BroadcastIs(s, tags, |tags|);
    assert tags[..|tags|] == tags;
    BroadcastKeeps(arch, phys, h, s, CompleteMany(s, tags, |tags|), tags);
  }

  lemma FreedTag(arch: nat, phys: nat, h: History, i: nat, e: RobEntry)
    requires arch <= phys && i < |h.sent| == |h.complete| && IsEntry(h, i, e)
    ensures IsHandedOut(arch, phys, h.sent, i + (phys - arch), e.tagOld)
  {
  }

  lemma RetireAgrees(arch: nat, phys: nat, h: History, s: State)
    requires Agrees(arch, phys, h, s) && s.rob != []
    ensures Agrees(arch, phys, h, RetireOne(s))
  {
    hide StandsFor, IsEntry, ReadsWriters, IsHandedOut;
    var first, rest := |h.sent| - |s.rob|, s.rob[1..];
    var free := RetireOne(s).freeList;
    forall k | 0 <= k < |free| ensures IsHandedOut(arch, phys, h.sent, |h.sent| + k, free[k]) {
      if k < |s.freeList| {
        assert free[k] == s.freeList[k];
      } else {
        assert IsEntry(h, first + 0, s.rob[0]);
        FreedTag(arch, phys, h, first, s.rob[0]);
      }
    }
    forall k | 0 <= k < |rest| ensures IsEntry(h, first + 1 + k, rest[k]) {
      assert rest[k] == s.rob[k + 1];
      assert IsEntry(h, first + (k + 1), s.rob[k + 1]);
    }
  }

  lemma {:induction false} RetiresAgree(arch: nat, phys: nat, h: History, s: State, n: nat)
    requires Agrees(arch, phys, h, s) && n <= |s.rob|
    ensures Agrees(arch, phys, h, RetireMany(s, n))
  {
    hide Agrees, RetireOne;
    if n > 0 {
      RetiresAgree(arch, phys, h, s, n - 1);
      RetireAgrees(arch, phys, h, RetireMany(s, n - 1));
    }
  }

  lemma TaskAgrees(arch: nat, phys: nat, h: History, s: State, t: Task)
    requires Agrees(arch, phys, h, s) && Possible(s, t)
    ensures Agrees(arch, phys, AfterTask(h, s, t), Perform(s, t))
  {
    match t {
      case DispatchTask(insts) => DispatchesAgree(arch, phys, h, s, insts, |insts|);
      case CompleteTask(tags) => BroadcastAgrees(arch, phys, h, s, tags);
      case RetireTask(limit) => RetiresAgree(arch, phys, h, s, Completed(s.rob, limit));
    }
  }

  lemma {:induction false} RunAgrees(arch: nat, phys: nat, h: History, s: State, tasks: seq<Task>, r: State, g: History)
    requires Agrees(arch, phys, h, s) && Runs(s, tasks, r) && Records(h, s, tasks, g)
    ensures Agrees(arch, phys, g, r)
    decreases |tasks|
  {
    hide Agrees, AfterTask, Perform;
    if tasks != [] {
      TaskAgrees(arch, phys, h, s, tasks[0]);
      RunAgrees(arch, phys, AfterTask(h, s, tasks[0]), Perform(s, tasks[0]), tasks[1..], r, g);
    }
  }

  // ---- whole runs -----------------------------------------------------------------------

  lemma {:induction false} HistoryExists(arch: nat, phys: nat, h: History, s: State, tasks: seq<Task>, r: State)
    returns (g: History)
    requires Agrees(arch, phys, h, s) && Runs(s, tasks, r)
    ensures Records(h, s, tasks, g)
    decreases |tasks|
  {
    if tasks == [] {
      g := h;
    } else {
      TaskAgrees(arch, phys, h, s, tasks[0]);
      g := HistoryExists(arch, phys, AfterTask(h, s, tasks[0]), Perform(s, tasks[0]), tasks[1..], r);
    }
  }

  /** The history up to here lists the instructions of `program`. */
  ghost predicate Lists(h: History, program: seq<Instruction>) {
    |h.sent| == |program| && forall i :: 0 <= i < |program| ==> h.sent[i].inst == program[i]
  }

  lemma {:induction false} DispatchLists(h: History, s: State, program: seq<Instruction>,
                                         insts: seq<Instruction>, n: nat)
    requires Lists(h, program) && CanSend(s, insts) && n <= |insts|
    ensures Lists(AfterDispatch(h, s, insts, n), program + insts[..n])
  {
    if n > 0 {
      DispatchLists(h, s, program, insts, n - 1);
      assert program + insts[..n] == (program + insts[..n - 1]) + [insts[n - 1]];
    }
  }

  lemma TaskLists(h: History, s: State, program: seq<Instruction>, t: Task)
    requires Lists(h, program) && Possible(s, t) && |h.complete| == |h.sent|
    ensures Lists(AfterTask(h, s, t), program + Asked(t))
  {
    if t.DispatchTask? {
      DispatchLists(h, s, program, t.insts, |t.insts|);
      assert t.insts[..|t.insts|] == t.insts;
    } else {
      assert program + Asked(t) == program;
    }
  }

  lemma {:induction false} RunLists(h: History, s: State, program: seq<Instruction>, tasks: seq<Task>, g: History)
    requires Lists(h, program) && Records(h, s, tasks, g)
    ensures Lists(g, program + Program(tasks))
    decreases |tasks|
  {
    hide Lists, AfterTask, Perform, Asked;
    if tasks == [] {
      assert program + Program(tasks) == program;
    } else {
      TaskLists(h, s, program, tasks[0]);
      RunLists(AfterTask(h, s, tasks[0]), Perform(s, tasks[0]), program + Asked(tasks[0]), tasks[1..], g);
      assert program + Program(tasks) == (program + Asked(tasks[0])) + Program(tasks[1..]);
    }
  }

  const NOTHING := History([], [])

  lemma InitAgrees(arch: nat, phys: nat)
    requires arch <= phys
    ensures Agrees(arch, phys, NOTHING, InitState(arch, phys))
  {
  }

  lemma StartLists()
    ensures Lists(NOTHING, [])
  {
  }

  /** However the driver is used: the instructions are sent in program order, with consecutive
      addresses, and each with the tags of the youngest earlier writers of its sources.  The map
      table names the youngest writer of every register, and is ready exactly if that has
      completed.  The reorder buffer holds the youngest instructions, in order, and
      each entry remembers the tag that its register had before.  These tags are handed out
      again in the same order. */
  lemma EachReadsYoungestWriters(arch: nat, phys: nat, tasks: seq<Task>, r: State) returns (h: History)
    requires arch <= phys && Runs(InitState(arch, phys), tasks, r)
    ensures Records(NOTHING, InitState(arch, phys), tasks, h) && Lists(h, Program(tasks))
    ensures forall i :: 0 <= i < |h.sent| ==> ReadsWriters(h.sent, i)
    ensures forall i :: 0 <= i < |h.sent| ==> IsHandedOut(arch, phys, h.sent, i, h.sent[i].tag)
    ensures |h.complete| == |h.sent| >= |r.rob|
    ensures forall m :: 0 <= m < |r.mapTable| ==> StandsFor(h, m, r.mapTable[m])
    ensures forall k :: 0 <= k < |r.rob| ==> IsEntry(h, |h.sent| - |r.rob| + k, r.rob[k])
  {
    hide Records, Lists, Runs;
    InitAgrees(arch, phys);
    h := HistoryExists(arch, phys, NOTHING, InitState(arch, phys), tasks, r);
    RunAgrees(arch, phys, NOTHING, InitState(arch, phys), tasks, r, h);
    StartLists();
    RunLists(NOTHING, InitState(arch, phys), [], tasks, h);
    assert [] + Program(tasks) == Program(tasks);
  }

  /** Also within a dispatch group: what is sent on channel `k` is instruction `k` with the tags
      and ready bits that its sources have after all instructions before it. */
  lemma ChannelReadsYoungestWriters(arch: nat, phys: nat, h: History, s: State, insts: seq<Instruction>, k: nat)
    requires Agrees(arch, phys, h, s) && CanSend(s, insts) && k < |insts|
    ensures var g, d := AfterDispatch(h, s, insts, k), DecOf(DispatchMany(s, insts, k), insts[k]);
            && |g.complete| == |g.sent| == |h.sent| + k
            && d.pc == 4 * |g.sent| && d.inst == insts[k]
            && StandsFor(g, insts[k].rs1, d.src1) && StandsFor(g, insts[k].rs2, d.src2)
  {
    hide StandsFor;
    DispatchesAgree(arch, phys, h, s, insts, k);
  }
}
