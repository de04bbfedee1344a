/** The driver of the reservation-station test bench: it renames random
    instructions with a map table, a free list queue and a reorder buffer queue, and
    thereby imitates dispatch, completion and retirement of the core. */
module RenamingDriver {

  import opened CoreConfig

  datatype MapEntry = MapEntry(ready: bool, tag: nat)

  datatype RobEntry = RobEntry(pc: nat, rd: nat, tagOld: nat, tag: nat, complete: bool)

  /** The kinds of random instructions. */
  datatype Kind = Alu | Mult | CondBr | UncondBr | RdMem | WrMem

  /** What a channel of the reservation station receives: an instruction, or all zeros. */
  datatype DecInst =
    | NoInst
    | DecInst(pc: nat, inst: Instruction, tag: nat, src1: MapEntry, src2: MapEntry)

  /** A random instruction with its destination and source registers. */
  datatype Instruction = Instruction(kind: Kind, rd: nat, rs1: nat, rs2: nat)

  datatype State = State(mapTable: seq<MapEntry>, freeList: seq<nat>, rob: seq<RobEntry>, pc: nat)

  // ---- steps ------------------------------------------------------------------

  function InitState(arch: nat, phys: nat): State
    requires arch <= phys
  {
    State(seq(arch, i requires 0 <= i => MapEntry(true, i)),
          seq(phys - arch, i requires 0 <= i => arch + i), [], 0)
  }

  function DispatchOne(s: State, rd: nat): State
    requires s.freeList != [] && rd < |s.mapTable|
  {
    var tag := s.freeList[0];
    State(s.mapTable[rd := MapEntry(false, tag)], s.freeList[1..],
          s.rob + [RobEntry(s.pc, rd, s.mapTable[rd].tag, tag, false)], s.pc + 4)
  }

  function DispatchMany(s: State, insts: seq<Instruction>, n: nat): (r: State)
    requires n <= |insts| && n <= |s.freeList|
    requires forall k :: 0 <= k < |insts| ==> insts[k].rd < |s.mapTable|
    ensures |r.mapTable| == |s.mapTable| && |r.freeList| == |s.freeList| - n && |r.rob| == |s.rob| + n
  {
    if n == 0 then s else DispatchOne(DispatchMany(s, insts, n - 1), insts[n - 1].rd)
  }

  ghost predicate InstsOk(arch: nat, insts: seq<Instruction>) {
    forall k :: 0 <= k < |insts| ==> insts[k].rd < arch && insts[k].rs1 < arch && insts[k].rs2 < arch
  }

  /** What is sent for an instruction `r` in state `s`. */
  function DecOf(s: State, r: Instruction): DecInst
    requires s.freeList != [] && r.rs1 < |s.mapTable| && r.rs2 < |s.mapTable|
  {
    DecInst(s.pc, r, s.freeList[0], s.mapTable[r.rs1], s.mapTable[r.rs2])
  }

  function CompleteEntry(e: RobEntry, tag: nat): RobEntry {
    if e.tag == tag then e.(complete := true) else e
  }

  function ReadyEntry(e: MapEntry, tag: nat): MapEntry {
    if e.tag == tag then e.(ready := true) else e
  }

  function CompleteOne(s: State, tag: nat): (r: State)
    ensures |r.mapTable| == |s.mapTable| && |r.rob| == |s.rob|
  {
    s.(rob := seq(|s.rob|, k requires 0 <= k < |s.rob| => CompleteEntry(s.rob[k], tag)),
       mapTable := seq(|s.mapTable|, m requires 0 <= m < |s.mapTable| => ReadyEntry(s.mapTable[m], tag)))
  }

  function CompleteMany(s: State, tags: seq<nat>, n: nat): State
    requires n <= |tags|
  {
    if n == 0 then s else CompleteOne(CompleteMany(s, tags, n - 1), tags[n - 1])
  }

  function RetireOne(s: State): State
    requires s.rob != []
  {
    s.(freeList := s.freeList + [s.rob[0].tagOld], rob := s.rob[1..])
  }

  function RetireMany(s: State, n: nat): (r: State)
    requires n <= |s.rob|
    ensures r.rob == s.rob[n..]
  {
    if n == 0 then s else RetireOne(RetireMany(s, n - 1))
  }

  /** How many of the oldest instructions are complete, up to `limit`. */
  function Completed(rob: seq<RobEntry>, limit: nat): (n: nat)
    ensures n <= |rob| && n <= limit
    ensures forall k :: 0 <= k < n ==> rob[k].complete
    ensures n < limit && n < |rob| ==> !rob[n].complete
  {
    if limit == 0 || rob == [] || !rob[0].complete then 0 else 1 + Completed(rob[1..], limit - 1)
  }

  /** The retire loop empties the queue before it has used all its channels. */
  predicate Underruns(rob: seq<RobEntry>, limit: nat) {
    0 < |rob| < limit && forall k :: 0 <= k < |rob| ==> rob[k].complete
  }

  // ---- invariant ----------------------------------------------------------------

  function InQueue(q: seq<nat>, x: nat): nat {
    if q == [] then 0 else One(q[0] == x) + InQueue(q[1..], x)
  }

  function InMap(map_: seq<MapEntry>, x: nat, m: nat): nat
    requires m <= |map_|
  {
    if m == 0 then 0 else InMap(map_, x, m - 1) + One(map_[m - 1].tag == x)
  }

  function InOld(rob: seq<RobEntry>, x: nat): nat {
    if rob == [] then 0 else One(rob[0].tagOld == x) + InOld(rob[1..], x)
  }

  /** Places that own tag `x`: free list, map table, and tags waiting to be freed. */
  function Owners(s: State, x: nat): nat {
    InQueue(s.freeList, x) + InMap(s.mapTable, x, |s.mapTable|) + InOld(s.rob, x)
  }

  ghost predicate Pending(rob: seq<RobEntry>, x: nat) {
    exists k :: 0 <= k < |rob| && !rob[k].complete && rob[k].tag == x
  }

  ghost predicate ReadyOk(s: State) {
    forall m :: 0 <= m < |s.mapTable| ==> (!s.mapTable[m].ready <==> Pending(s.rob, s.mapTable[m].tag))
  }

  /** Every physical tag has exactly one owner, and a map entry is not ready exactly
      when an incomplete instruction is going to write its tag. */
  ghost predicate Inv(phys: nat, s: State) {
    && (forall x: nat :: Owners(s, x) == One(x < phys))
    && ReadyOk(s)
  }

  // ---- counting -----------------------------------------------------------------

  lemma {:induction false} QueueAppend(q: seq<nat>, y: nat, x: nat)
    ensures InQueue(q + [y], x) == InQueue(q, x) + One(y == x)
  {
    if q == [] {
      assert q + [y] == [y];
    } else {
      assert (q + [y])[1..] == q[1..] + [y];
      QueueAppend(q[1..], y, x);
    }
  }

  lemma {:induction false} OldAppend(rob: seq<RobEntry>, e: RobEntry, x: nat)
    ensures InOld(rob + [e], x) == InOld(rob, x) + One(e.tagOld == x)
  {
    if rob == [] {
      assert rob + [e] == [e];
    } else {
      assert (rob + [e])[1..] == rob[1..] + [e];
      OldAppend(rob[1..], e, x);
    }
  }

  lemma {:induction false} MapUpdate(map_: seq<MapEntry>, rd: nat, e: MapEntry, x: nat, m: nat)
    requires rd < |map_| && m <= |map_|
    ensures InMap(map_[rd := e], x, m)
         == InMap(map_, x, m) + (if rd < m then One(e.tag == x) - One(map_[rd].tag == x) else 0)
  {
    if m > 0 {
      MapUpdate(map_, rd, e, x, m - 1);
    }
  }

  lemma {:induction false} MapHas(map_: seq<MapEntry>, i: nat, m: nat)
    requires i < m <= |map_|
    ensures InMap(map_, map_[i].tag, m) > 0
  {
    if i < m - 1 {
      MapHas(map_, i, m - 1);
    }
  }

  lemma {:induction false} InitQueue(arch: nat, n: nat, x: nat)
    ensures InQueue(seq(n, i requires 0 <= i => arch + i), x) == One(arch <= x < arch + n)
    decreases n
  {
    var q := seq(n, i requires 0 <= i => arch + i);
    if n > 0 {
      assert q[1..] == seq(n - 1, i requires 0 <= i => arch + 1 + i);
      InitQueue(arch + 1, n - 1, x);
    }
  }

  lemma {:induction false} InitMap(arch: nat, phys: nat, m: nat, x: nat)
    requires m <= arch <= phys
    ensures InMap(InitState(arch, phys).mapTable, x, m) == One(x < m)
  {
    if m > 0 {
      InitMap(arch, phys, m - 1, x);
    }
  }

  // ---- every step keeps the invariant --------------------------------------------

  lemma InitKeeps(arch: nat, phys: nat)
    requires arch <= phys
    ensures Inv(phys, InitState(arch, phys))
  {
    forall x: nat ensures Owners(InitState(arch, phys), x) == One(x < phys) {
      InitQueue(arch, phys - arch, x);
      InitMap(arch, phys, arch, x);
    }
  }

  lemma FreshNotMapped(phys: nat, s: State)
    requires Inv(phys, s) && s.freeList != []
    ensures forall m :: 0 <= m < |s.mapTable| ==> s.mapTable[m].tag != s.freeList[0]
  {
    forall m | 0 <= m < |s.mapTable| ensures s.mapTable[m].tag != s.freeList[0] {
      MapHas(s.mapTable, m, |s.mapTable|);
      assert Owners(s, s.freeList[0]) <= 1;
    }
  }

  lemma PendingAppend(rob: seq<RobEntry>, e: RobEntry, x: nat)
    requires e.tag != x
    ensures Pending(rob + [e], x) <==> Pending(rob, x)
  {
    if Pending(rob, x) {
      var k :| 0 <= k < |rob| && !rob[k].complete && rob[k].tag == x;
      assert (rob + [e])[k] == rob[k];
    }
  }

  lemma DispatchOneKeeps(phys: nat, s: State, rd: nat)
    requires Inv(phys, s) && s.freeList != [] && rd < |s.mapTable|
    ensures Inv(phys, DispatchOne(s, rd))
  {
    var tag := s.freeList[0];
    var e := RobEntry(s.pc, rd, s.mapTable[rd].tag, tag, false);
    forall x: nat ensures Owners(DispatchOne(s, rd), x) == Owners(s, x) {
      MapUpdate(s.mapTable, rd, MapEntry(false, tag), x, |s.mapTable|);
      OldAppend(s.rob, e, x);
    }
    FreshNotMapped(phys, s);
    assert (s.rob + [e])[|s.rob|] == e;
    forall m | 0 <= m < |s.mapTable| && m != rd
      ensures Pending(s.rob + [e], s.mapTable[m].tag) <==> Pending(s.rob, s.mapTable[m].tag)
    {
      PendingAppend(s.rob, e, s.mapTable[m].tag);
    }
  }

  lemma {:induction false} CompleteOwners(s: State, tag: nat, x: nat, m: nat)
    requires m <= |s.mapTable|
    ensures InMap(CompleteOne(s, tag).mapTable, x, m) == InMap(s.mapTable, x, m)
  {
    if m > 0 {
      CompleteOwners(s, tag, x, m - 1);
    }
  }

  lemma {:induction false} CompleteOld(a: seq<RobEntry>, b: seq<RobEntry>, x: nat)
    requires |a| == |b| && forall k :: 0 <= k < |a| ==> a[k].tagOld == b[k].tagOld
    ensures InOld(a, x) == InOld(b, x)
  {
    if a != [] {
      CompleteOld(a[1..], b[1..], x);
    }
  }

  lemma CompletePending(s: State, tag: nat, x: nat)
    ensures Pending(CompleteOne(s, tag).rob, x) <==> x != tag && Pending(s.rob, x)
  {
    var r := CompleteOne(s, tag);
    if x != tag && Pending(s.rob, x) {
      var k :| 0 <= k < |s.rob| && !s.rob[k].complete && s.rob[k].tag == x;
      assert r.rob[k] == s.rob[k];
    }
    if Pending(r.rob, x) {
      var k :| 0 <= k < |r.rob| && !r.rob[k].complete && r.rob[k].tag == x;
      assert s.rob[k].tag == x;
    }
  }

  lemma CompleteOneKeeps(phys: nat, s: State, tag: nat)
    requires Inv(phys, s)
    ensures Inv(phys, CompleteOne(s, tag))
  {
    var r := CompleteOne(s, tag);
    forall x: nat ensures Owners(r, x) == Owners(s, x) {
      CompleteOwners(s, tag, x, |s.mapTable|);
      CompleteOld(s.rob, r.rob, x);
    }
    forall m | 0 <= m < |r.mapTable|
      ensures !r.mapTable[m].ready <==> Pending(r.rob, r.mapTable[m].tag)
    {
      CompletePending(s, tag, s.mapTable[m].tag);
    }
  }

  lemma RetireOneKeeps(phys: nat, s: State)
    requires Inv(phys, s) && s.rob != [] && s.rob[0].complete
    ensures Inv(phys, RetireOne(s))
  {
    forall x: nat ensures Owners(RetireOne(s), x) == Owners(s, x) {
      QueueAppend(s.freeList, s.rob[0].tagOld, x);
    }
    forall x: nat ensures Pending(s.rob[1..], x) <==> Pending(s.rob, x) {
      if Pending(s.rob, x) {
        var k :| 0 <= k < |s.rob| && !s.rob[k].complete && s.rob[k].tag == x;
        assert s.rob[1..][k - 1] == s.rob[k];
      }
    }
  }

  lemma {:induction false} DispatchKeeps(phys: nat, s: State, insts: seq<Instruction>, n: nat)
    requires Inv(phys, s) && n <= |insts| && n <= |s.freeList|
    requires forall k :: 0 <= k < |insts| ==> insts[k].rd < |s.mapTable|
    ensures Inv(phys, DispatchMany(s, insts, n))
  {
    if n > 0 {
      DispatchKeeps(phys, s, insts, n - 1);
      DispatchOneKeeps(phys, DispatchMany(s, insts, n - 1), insts[n - 1].rd);
    }
  }

  lemma {:induction false} CompleteKeeps(phys: nat, s: State, tags: seq<nat>, n: nat)
    requires Inv(phys, s) && n <= |tags|
    ensures Inv(phys, CompleteMany(s, tags, n))
  {
    if n > 0 {
      CompleteKeeps(phys, s, tags, n - 1);
      CompleteOneKeeps(phys, CompleteMany(s, tags, n - 1), tags[n - 1]);
    }
  }

  lemma {:induction false} RetireKeeps(phys: nat, s: State, n: nat)
    requires Inv(phys, s) && n <= |s.rob| && forall k :: 0 <= k < n ==> s.rob[k].complete
    ensures Inv(phys, RetireMany(s, n))
  {
    if n > 0 {
      RetireKeeps(phys, s, n - 1);
      RetireOneKeeps(phys, RetireMany(s, n - 1));
    }
  }

  // ---- whole runs ------------------------------------------------------------------

  /** One call of a driver task. */
  datatype Task =
    | DispatchTask(insts: seq<Instruction>)
    | CompleteTask(tags: seq<nat>)
    | RetireTask(limit: nat)

  ghost predicate Possible(s: State, t: Task) {
    t.DispatchTask? ==> |t.insts| <= |s.freeList| && InstsOk(|s.mapTable|, t.insts)
  }

  ghost function Perform(s: State, t: Task): State
    requires Possible(s, t)
  {
    match t
    case DispatchTask(insts) => DispatchMany(s, insts, |insts|)
    case CompleteTask(tags) => CompleteMany(s, tags, |tags|)
    case RetireTask(limit) => RetireMany(s, Completed(s.rob, limit))
  }

  ghost predicate Runs(s: State, tasks: seq<Task>, r: State)
    decreases |tasks|
  {
    if tasks == [] then r == s
    else Possible(s, tasks[0]) && Runs(Perform(s, tasks[0]), tasks[1..], r)
  }

  lemma {:induction false} RunKeeps(phys: nat, s: State, tasks: seq<Task>, r: State)
    requires Inv(phys, s) && Runs(s, tasks, r)
    ensures Inv(phys, r)
    decreases |tasks|
  {
    if tasks != [] {
      var t := tasks[0];
      match t {
        case DispatchTask(insts) => DispatchKeeps(phys, s, insts, |insts|);
        case CompleteTask(tags) => CompleteKeeps(phys, s, tags, |tags|);
        case RetireTask(limit) => RetireKeeps(phys, s, Completed(s.rob, limit));
      }
      RunKeeps(phys, Perform(s, t), tasks[1..], r);
    }
  }

  /** However the driver's tasks are interleaved, and whichever tags complete: free list, map table and
      the tags waiting to be freed are always a permutation of all physical tags, and a map
      entry is not ready exactly while an incomplete instruction is going to write its tag. */
  lemma TagsArePermutation(arch: nat, phys: nat, tasks: seq<Task>, r: State)
    requires arch <= phys && Runs(InitState(arch, phys), tasks, r)
    ensures forall x: nat :: Owners(r, x) == One(x < phys)
    ensures forall m :: 0 <= m < |r.mapTable| ==> (!r.mapTable[m].ready <==> Pending(r.rob, r.mapTable[m].tag))
  {
    InitKeeps(arch, phys);
    RunKeeps(phys, InitState(arch, phys), tasks, r);
  }

  /** One dispatch and its completion are enough for the retire loop to run into an empty queue. */
  lemma UnderrunIsReached(arch: nat, phys: nat, limit: nat) returns (tasks: seq<Task>, s: State)
    requires 0 < arch < phys && limit > 1
    ensures Runs(InitState(arch, phys), tasks, s) && Underruns(s.rob, limit)
  {
    var s0 := InitState(arch, phys);
    var dispatch := DispatchTask([Instruction(Alu, 0, 0, 0)]);
    var s1 := DispatchOne(s0, 0);
    assert DispatchMany(s0, dispatch.insts, 1) == DispatchOne(DispatchMany(s0, dispatch.insts, 0), 0);
    assert Perform(s0, dispatch) == s1;
    var complete := CompleteTask([arch]);
    assert CompleteMany(s1, [arch], 1) == CompleteOne(CompleteMany(s1, [arch], 0), arch);
    tasks, s := [dispatch, complete], CompleteOne(s1, arch);
    assert tasks[1..] == [complete] && [complete][1..] == [];
    assert Runs(s, [], s);
    assert Runs(s1, [complete], s);
  }

  // ---- the driver ------------------------------------------------------------------

  lemma CompletedNext(rob: seq<RobEntry>, limit: nat, n: nat)
    requires n <= Completed(rob, limit) && n < limit && n < |rob| && rob[n].complete
    ensures n + 1 <= Completed(rob, limit)
  {
  }

  lemma CompletedEnds(rob: seq<RobEntry>, limit: nat, n: nat)
    requires n <= Completed(rob, limit)
    requires n == limit || n == |rob| || !rob[n].complete
    ensures n == Completed(rob, limit)
  {
  }

  class Driver {
    const arch: nat
    const phys: nat
    const robNum: nat
    const dpNum: nat
    const rtNum: nat
    var mapTable: seq<MapEntry>
    var freeList: seq<nat>
    var rob: seq<RobEntry>
    var pc: nat

    ghost function Value(): State
      reads this
    {
      State(mapTable, freeList, rob, pc)
    }

    ghost predicate Valid()
      reads this
    {
      |mapTable| == arch && |rob| <= robNum && rtNum > 0 && Inv(phys, Value())
    }

    /** A new driver after `init`. */
    constructor (arch: nat, phys: nat, robNum: nat, dpNum: nat, rtNum: nat)
      requires arch <= phys && rtNum > 0
      ensures Valid() && Value() == InitState(arch, phys)
      ensures this.arch == arch && this.phys == phys
      ensures this.robNum == robNum && this.dpNum == dpNum && this.rtNum == rtNum
    {
      this.arch, this.phys, this.robNum, this.dpNum, this.rtNum := arch, phys, robNum, dpNum, rtNum;
      mapTable, freeList, rob, pc := [], [], [], 0;
      new;
      for i := 0 to arch
        invariant |mapTable| == i && freeList == [] && rob == [] && pc == 0
        invariant forall k :: 0 <= k < i ==> mapTable[k] == MapEntry(true, k)
      {
        mapTable := mapTable + [MapEntry(true, i)];
      }
      for i := arch to phys
        invariant |freeList| == i - arch && rob == [] && pc == 0
        invariant |mapTable| == arch && forall k :: 0 <= k < arch ==> mapTable[k] == MapEntry(true, k)
        invariant forall k :: 0 <= k < i - arch ==> freeList[k] == arch + k
      {
        freeList := freeList + [i];
      }
      assert Value() == InitState(arch, phys);
      InitKeeps(arch, phys);
    }

    /** Allocates a tag, a reorder buffer entry and a map entry for one instruction. */
    method DispatchInst(r: Instruction) returns (dec: DecInst)
      requires freeList != [] && r.rd < |mapTable| && r.rs1 < |mapTable| && r.rs2 < |mapTable|
      modifies this`mapTable, this`freeList, this`rob, this`pc
      ensures dec == DecOf(old(Value()), r) && Value() == DispatchOne(old(Value()), r.rd)
    {
      var tag := freeList[0];
      freeList := freeList[1..];
      dec := DecInst(pc, r, tag, mapTable[r.rs1], mapTable[r.rs2]);
      rob := rob + [RobEntry(pc, r.rd, mapTable[r.rd].tag, tag, false)];
      mapTable := mapTable[r.rd := MapEntry(false, tag)];
      pc := pc + 4;
    }

    /** The loop over the dispatch channels: the first `count` are used, the others cleared. */
    method DispatchChannels(count: nat, insts: seq<Instruction>) returns (dec: seq<DecInst>)
      requires |mapTable| == arch && |insts| == dpNum && InstsOk(arch, insts)
      requires count <= dpNum && count <= |freeList|
      modifies this`mapTable, this`freeList, this`rob, this`pc
      ensures |dec| == dpNum && Value() == DispatchMany(old(Value()), insts, count)
      ensures forall k :: count <= k < dpNum ==> dec[k] == NoInst
      ensures forall k {:trigger dec[k]} :: 0 <= k < count ==>
        dec[k] == DecOf(DispatchMany(old(Value()), insts, k), insts[k])
    {
      hide DispatchOne;
      ghost var s := Value();
      dec := [];
      for n := 0 to dpNum
        invariant |dec| == n && Value() == DispatchMany(s, insts, Min(n, count))
        invariant forall k {:trigger dec[k]} :: 0 <= k < Min(n, count) ==>
          dec[k] == DecOf(DispatchMany(s, insts, k), insts[k])
        invariant forall k :: count <= k < n ==> dec[k] == NoInst
      {
        if n < count {
          var d := DispatchInst(insts[n]);
          dec := dec + [d];
        } else {
          dec := dec + [NoInst];
        }
      }
    }

    /** Dispatches as many of the requested instructions as reorder buffer, free list
        and reservation station allow. */
    method Dispatch(request: nat, rsAvail: nat, insts: seq<Instruction>) returns (count: nat, dec: seq<DecInst>)
      requires Valid() && |insts| == dpNum && Min(request, rsAvail) <= dpNum && InstsOk(arch, insts)
      modifies this`mapTable, this`freeList, this`rob, this`pc
      ensures Valid()
      ensures count == Min(Min(robNum - old(|rob|), old(|freeList|)), Min(request, rsAvail))
      ensures |dec| == dpNum && Value() == DispatchMany(old(Value()), insts, count)
      ensures forall k :: count <= k < dpNum ==> dec[k] == NoInst
      ensures forall k {:trigger dec[k]} :: 0 <= k < count ==>
        dec[k] == DecOf(DispatchMany(old(Value()), insts, k), insts[k])
    {
      ghost var s := Value();
      count := Min(Min(robNum - |rob|, |freeList|), Min(request, rsAvail));
      dec := DispatchChannels(count, insts);
      DispatchKeeps(phys, s, insts, count);
    }

    /** Broadcast of completed tags: marks the instructions complete and the map
        entries ready, one channel after the other. */
    method Complete(tags: seq<nat>)
      requires Valid()
      modifies this`mapTable, this`rob
      ensures Valid() && Value() == CompleteMany(old(Value()), tags, |tags|)
    {
      ghost var s := Value();
      for n := 0 to |tags|
        invariant |mapTable| == arch && |rob| <= robNum
        invariant Value() == CompleteMany(s, tags, n)
      {
        ghost var before := Value();
        for m := 0 to |rob|
          invariant |rob| == |before.rob| && mapTable == before.mapTable
          invariant forall k :: 0 <= k < m ==> rob[k] == CompleteEntry(before.rob[k], tags[n])
          invariant forall k :: m <= k < |rob| ==> rob[k] == before.rob[k]
        {
          if rob[m].tag == tags[n] {
            rob := rob[m := rob[m].(complete := true)];
          }
        }
        assert rob == CompleteOne(before, tags[n]).rob;
        for m := 0 to arch
          invariant |mapTable| == arch && rob == CompleteOne(before, tags[n]).rob
          invariant forall k :: 0 <= k < m ==> mapTable[k] == ReadyEntry(before.mapTable[k], tags[n])
          invariant forall k :: m <= k < arch ==> mapTable[k] == before.mapTable[k]
        {
          if mapTable[m].tag == tags[n] {
            mapTable := mapTable[m := mapTable[m].(ready := true)];
          }
        }
      }
      CompleteKeeps(phys, s, tags, |tags|);
    }

    /** Retires the oldest complete instructions, at most `rtNum`.  The loop only tests
        for an empty queue on entry; `underrun` reports that it would go on to look at
        the head of an empty queue, which happens exactly when every queued instruction
        is complete and there are fewer of them than retire channels. */
    method Retire() returns (underrun: bool)
      requires Valid()
      modifies this`freeList, this`rob
      ensures Valid()
      ensures Value() == RetireMany(old(Value()), Completed(old(rob), rtNum))
      ensures underrun <==> Underruns(old(rob), rtNum)
    {
      ghost var s := Value();
      underrun := false;
      if |rob| > 0 {
        var n := 0;
        while n < rtNum && !underrun
          invariant n <= |s.rob| && n <= rtNum && n <= Completed(s.rob, rtNum)
          invariant Value() == RetireMany(s, n) && rob == s.rob[n..]
          invariant underrun ==> n == |s.rob| < rtNum
          decreases rtNum - n, !underrun
        {
          if |rob| == 0 {
            underrun := true;
          } else if !rob[0].complete {
            break;
          } else {
            CompletedNext(s.rob, rtNum, n);
            freeList := freeList + [rob[0].tagOld];
            rob := rob[1..];
            n := n + 1;
          }
        }
        CompletedEnds(s.rob, rtNum, n);
      }
      RetireKeeps(phys, s, Completed(s.rob, rtNum));
    }
  }
}
