/** The tagged, pipelined memory `mem` of the test bench (cache mode).  A loop over
    the tags with two flags arbitrates requests and results; it is shown to be a plain
    delay line: what is accepted in a cycle comes out a fixed number of cycles later. */
module Memory {

  type Word = nat

  datatype Option<T> = None | Some(value: T)

  datatype Command = BusNone | BusLoad | BusStore

  datatype Request = Request(cmd: Command, addr: nat, data: Word)

  /** One tag's registers; `data` is meaningful while the tag waits for the bus. */
  datatype Slot = Slot(cyclesLeft: nat, waiting: bool, data: Word)

  /** Outputs of a cycle: the tag given to the request (0 if it is not accepted), the
      tag of a returning load (0 if there is none) and its data. */
  datatype Output = Output(response: nat, tag: nat, data: Option<Word>)

  /** Number of tags, latency in cycles, number of 64-bit lines. */
  datatype Config = Config(tags: nat, latency: nat, lines: nat)

  predicate Wanted(cfg: Config, r: Request) {
    !r.cmd.BusNone? && r.addr % 8 == 0 && r.addr < 8 * cfg.lines
  }

  function Line(r: Request): nat { r.addr / 8 }

  /** Memory content after an accepted request. */
  function Store(mem: seq<Word>, r: Request): seq<Word>
    requires Line(r) < |mem|
  {
    if r.cmd.BusStore? then mem[Line(r) := r.data] else mem
  }

  // ---- the delay line -------------------------------------------------------------

  /** A request on its way: the tag it was given and, for a load, the data it read. */
  datatype Pending = Pending(tag: nat, load: Option<Word>)

  /** `line[k]` will come out in `k + 1` cycles. */
  datatype Fifo = Fifo(mem: seq<Word>, line: seq<Option<Pending>>)

  predicate Outstanding(line: seq<Option<Pending>>, tag: nat) {
    exists k :: 0 <= k < |line| && line[k].Some? && line[k].value.tag == tag
  }

  /** The lowest tag at or above `t` that is not on its way. */
  function FreeTag(line: seq<Option<Pending>>, t: nat, tags: nat): (r: nat)
    requires t <= tags + 1
    ensures t <= r <= tags + 1
    ensures forall u :: t <= u < r ==> Outstanding(line, u)
    ensures r <= tags ==> !Outstanding(line, r)
    decreases tags + 1 - t
  {
    if t > tags then t else if Outstanding(line, t) then FreeTag(line, t + 1, tags) else t
  }

  function Accepted(mem: seq<Word>, tag: nat, r: Request): Pending
    requires Line(r) < |mem|
  {
    Pending(tag, if r.cmd.BusLoad? then Some(mem[Line(r)]) else None)
  }

  function FifoNext(cfg: Config, f: Fifo, r: Request): Fifo
    requires |f.mem| == cfg.lines && |f.line| > 0
  {
    var tag := FreeTag(f.line, 1, cfg.tags);
    if Wanted(cfg, r) && tag <= cfg.tags
    then Fifo(Store(f.mem, r), f.line[1..] + [Some(Accepted(f.mem, tag, r))])
    else Fifo(f.mem, f.line[1..] + [None])
  }

  function FifoOut(cfg: Config, f: Fifo, r: Request): Output
    requires |f.line| > 0
  {
    var tag := FreeTag(f.line, 1, cfg.tags);
    var head := f.line[0];
    Output(if Wanted(cfg, r) && tag <= cfg.tags then tag else 0,
           if head.Some? && head.value.load.Some? then head.value.tag else 0,
           if head.Some? then head.value.load else None)
  }

  // ---- the loop over the tags -------------------------------------------------------

  /** Registers and loop flags; `slots[i]` belongs to tag `i`, `slots[0]` is unused. */
  datatype Scan = Scan(mem: seq<Word>, slots: seq<Slot>, acquire: bool, busFilled: bool, out: Output)

  /** One iteration: count down or take the request, then try to use the result bus. */
  function ScanTag(cfg: Config, sc: Scan, r: Request, i: nat): (n: Scan)
    requires i < |sc.slots| && |sc.mem| == cfg.lines && (sc.acquire ==> Line(r) < cfg.lines)
    ensures |n.slots| == |sc.slots| && |n.mem| == cfg.lines && (n.acquire ==> sc.acquire)
  {
    var s := sc.slots[i];
    var a :=
      if s.cyclesLeft > 0 then sc.(slots := sc.slots[i := s.(cyclesLeft := s.cyclesLeft - 1)])
      else if sc.acquire && !s.waiting then
        sc.(out := sc.out.(response := i), acquire := false,
            slots := sc.slots[i := if r.cmd.BusLoad? then Slot(cfg.latency, true, sc.mem[Line(r)])
                                   else s.(cyclesLeft := cfg.latency)],
            mem := if r.cmd.BusLoad? then sc.mem else sc.mem[Line(r) := r.data])
      else sc;
    var u := a.slots[i];
    if u.cyclesLeft == 0 && u.waiting && !a.busFilled then
      a.(busFilled := true, out := a.out.(tag := i, data := Some(u.data)),
         slots := a.slots[i := u.(waiting := false)])
    else a
  }

  function ScanStart(cfg: Config, mem: seq<Word>, slots: seq<Slot>, r: Request): Scan {
    Scan(mem, slots, Wanted(cfg, r), false, Output(0, 0, None))
  }

  /** After tags 1 .. `n`. */
  function ScanTags(cfg: Config, sc: Scan, r: Request, n: nat): (e: Scan)
    requires n < |sc.slots| && |sc.mem| == cfg.lines && (sc.acquire ==> Line(r) < cfg.lines)
    ensures |e.slots| == |sc.slots| && |e.mem| == cfg.lines && (e.acquire ==> sc.acquire)
  {
    if n == 0 then sc else ScanTag(cfg, ScanTags(cfg, sc, r, n - 1), r, n)
  }

  class Mem {
    const cfg: Config
    const unified: array<Word>
    const cyclesLeft: array<nat>
    const waiting: array<bool>
    const loaded: array<Word>

    ghost predicate Valid()
      reads this
    {
      && cyclesLeft != loaded && unified != loaded && unified != cyclesLeft
      && unified.Length == cfg.lines
      && cyclesLeft.Length == waiting.Length == loaded.Length == cfg.tags + 1
    }

    ghost function Lines(): seq<Word>
      reads this, unified
    {
      unified[..]
    }

    ghost function SlotAt(i: nat): Slot
      requires Valid() && i <= cfg.tags
      reads this, cyclesLeft, waiting, loaded
    {
      Slot(cyclesLeft[i], waiting[i], loaded[i])
    }

    ghost function Slots(): (s: seq<Slot>)
      requires Valid()
      reads this, cyclesLeft, waiting, loaded
      ensures |s| == cfg.tags + 1
    {
      seq(cfg.tags + 1, i requires 0 <= i <= cfg.tags reads this, cyclesLeft, waiting, loaded =>
        SlotAt(i))
    }

    constructor (cfg: Config)
      ensures Valid() && this.cfg == cfg
      ensures fresh(unified) && fresh(cyclesLeft) && fresh(waiting) && fresh(loaded)
      ensures Lines() == seq(cfg.lines, _ => 0)
      ensures Slots() == seq(cfg.tags + 1, _ => Slot(0, false, 0))
    {
      this.cfg := cfg;
      unified := new nat[cfg.lines](_ => 0);
      cyclesLeft := new nat[cfg.tags + 1](_ => 0);
      waiting := new bool[cfg.tags + 1](_ => false);
      loaded := new nat[cfg.tags + 1](_ => 0);
    }

    ghost function Now(acquire: bool, busFilled: bool, out: Output): Scan
      requires Valid()
      reads this, unified, cyclesLeft, waiting, loaded
    {
      Scan(Lines(), Slots(), acquire, busFilled, out)
    }

    /** The loop body for tag `i`. */
    method VisitTag(r: Request, i: nat, acquire: bool, busFilled: bool, out: Output)
      returns (acquire': bool, busFilled': bool, out': Output)
      requires Valid() && 1 <= i <= cfg.tags && (acquire ==> Line(r) < cfg.lines)
      modifies unified, cyclesLeft, waiting, loaded
      ensures Valid()
      ensures Now(acquire', busFilled', out') == ScanTag(cfg, old(Now(acquire, busFilled, out)), r, i)
    {
      ghost var before := Now(acquire, busFilled, out);
      acquire', busFilled', out' := acquire, busFilled, out;
      if cyclesLeft[i] > 0 {
        cyclesLeft[i] := cyclesLeft[i] - 1;
      } else if acquire && !waiting[i] {
        out' := out'.(response := i);
        acquire' := false;
        cyclesLeft[i] := cfg.latency;
        if r.cmd.BusLoad? {
          waiting[i] := true;
          loaded[i] := unified[Line(r)];
        } else {
          unified[Line(r)] := r.data;
        }
      }
      if cyclesLeft[i] == 0 && waiting[i] && !busFilled {
        busFilled' := true;
        out' := out'.(tag := i, data := Some(loaded[i]));
        waiting[i] := false;
      }
      assert Slots() == before.slots[i := SlotAt(i)];
    }

    /** One falling clock edge. */
    method NegEdge(r: Request) returns (out: Output)
      requires Valid()
      modifies unified, cyclesLeft, waiting, loaded
      ensures Valid()
      ensures var e := ScanTags(cfg, ScanStart(cfg, old(Lines()), old(Slots()), r), r, cfg.tags);
              Lines() == e.mem && Slots() == e.slots && out == e.out
    {
      ghost var start := ScanStart(cfg, Lines(), Slots(), r);
      out := Output(0, 0, None);
      var busFilled := false;
      var acquire := Wanted(cfg, r);
      for i := 1 to cfg.tags + 1
        invariant Valid()
        invariant Now(acquire, busFilled, out) == ScanTags(cfg, start, r, i - 1)
      {
        acquire, busFilled, out := VisitTag(r, i, acquire, busFilled, out);
      }
    }
  }

  // ---- the loop refines the delay line -------------------------------------------------

  ghost predicate SlotOk(s: Slot, i: nat, line: seq<Option<Pending>>) {
    if s.cyclesLeft == 0 then !s.waiting
    else s.cyclesLeft <= |line|
         && line[s.cyclesLeft - 1] == Some(Pending(i, if s.waiting then Some(s.data) else None))
  }

  /** The registers describe the delay line `f`: the slot with `k + 1` cycles left is
      position `k`. */
  ghost predicate Represents(cfg: Config, mem: seq<Word>, slots: seq<Slot>, f: Fifo) {
    && cfg.latency > 0 && |f.line| == cfg.latency && |slots| == cfg.tags + 1
    && f.mem == mem && |mem| == cfg.lines
    && (forall i :: 1 <= i <= cfg.tags ==> SlotOk(slots[i], i, f.line))
    && (forall k :: 0 <= k < |f.line| && f.line[k].Some? ==>
          1 <= f.line[k].value.tag <= cfg.tags && slots[f.line[k].value.tag].cyclesLeft == k + 1)
  }

  /** A slot after the edge. */
  function NextSlot(cfg: Config, mem: seq<Word>, s: Slot, taken: bool, r: Request): Slot
    requires taken ==> Line(r) < |mem|
  {
    if s.cyclesLeft > 0 then Slot(s.cyclesLeft - 1, s.waiting && s.cyclesLeft > 1, s.data)
    else if taken then
      if r.cmd.BusLoad? then Slot(cfg.latency, true, mem[Line(r)]) else s.(cyclesLeft := cfg.latency)
    else s
  }

  /** What the loop has done after tags 1 .. `n`; `a` is the lowest free tag. */
  ghost predicate Scanned(cfg: Config, mem: seq<Word>, slots: seq<Slot>, f: Fifo, r: Request, n: nat, e: Scan)
    requires Represents(cfg, mem, slots, f) && n <= cfg.tags
  {
    var a := FreeTag(f.line, 1, cfg.tags);
    var taken := Wanted(cfg, r) && a <= n;
    var o := FifoOut(cfg, f, r);
    && |e.slots| == |slots|
    && e.acquire == (Wanted(cfg, r) && !taken)
    && e.mem == (if taken then Store(mem, r) else mem)
    && e.out.response == (if taken then a else 0)
    && e.busFilled == (0 < o.tag <= n)
    && e.out.tag == (if o.tag <= n then o.tag else 0)
    && e.out.data == (if 0 < o.tag <= n then o.data else None)
    && (forall i :: 1 <= i <= n ==>
          e.slots[i] == NextSlot(cfg, mem, slots[i], Wanted(cfg, r) && i == a, r))
    && (forall i :: n < i <= cfg.tags ==> e.slots[i] == slots[i])
  }

  lemma BusyIsOutstanding(cfg: Config, mem: seq<Word>, slots: seq<Slot>, f: Fifo, i: nat)
    requires Represents(cfg, mem, slots, f) && 1 <= i <= cfg.tags
    ensures Outstanding(f.line, i) <==> slots[i].cyclesLeft > 0
  {
    assert SlotOk(slots[i], i, f.line);
  }

  /** The returning load is the waiting slot with one cycle left; no other slot
      competes for the bus. */
  lemma HeadIsLast(cfg: Config, mem: seq<Word>, slots: seq<Slot>, f: Fifo, r: Request, i: nat)
    requires Represents(cfg, mem, slots, f) && 1 <= i <= cfg.tags
    ensures FifoOut(cfg, f, r).tag == i <==> slots[i].cyclesLeft == 1 && slots[i].waiting
    ensures slots[i].cyclesLeft == 1 && slots[i].waiting ==> FifoOut(cfg, f, r).data == Some(slots[i].data)
  {
    assert SlotOk(slots[i], i, f.line);
  }

  /** The slots below the lowest free tag are busy, and its own slot is free. */
  lemma FreeTagIsFree(cfg: Config, mem: seq<Word>, slots: seq<Slot>, f: Fifo, i: nat)
    requires Represents(cfg, mem, slots, f) && 1 <= i <= cfg.tags
    ensures i < FreeTag(f.line, 1, cfg.tags) ==> slots[i].cyclesLeft > 0
    ensures i == FreeTag(f.line, 1, cfg.tags) ==> slots[i].cyclesLeft == 0
    ensures slots[i].cyclesLeft == 0 ==> !slots[i].waiting
  {
    BusyIsOutstanding(cfg, mem, slots, f, i);
    assert SlotOk(slots[i], i, f.line);
  }

  lemma ScanStep(cfg: Config, mem: seq<Word>, slots: seq<Slot>, f: Fifo, r: Request, n: nat, e: Scan)
    requires Represents(cfg, mem, slots, f) && 0 < n <= cfg.tags
    requires Scanned(cfg, mem, slots, f, r, n - 1, e)
    ensures |e.mem| == cfg.lines && (e.acquire ==> Line(r) < cfg.lines)
    ensures Scanned(cfg, mem, slots, f, r, n, ScanTag(cfg, e, r, n))
  {
    hide FreeTag, Outstanding, FifoOut, SlotOk;
    FreeTagIsFree(cfg, mem, slots, f, n);
    HeadIsLast(cfg, mem, slots, f, r, n);
  }

  lemma {:induction false} ScanIs(cfg: Config, mem: seq<Word>, slots: seq<Slot>, f: Fifo, r: Request, n: nat)
    requires Represents(cfg, mem, slots, f) && n <= cfg.tags
    ensures Scanned(cfg, mem, slots, f, r, n, ScanTags(cfg, ScanStart(cfg, mem, slots, r), r, n))
  {
    if n > 0 {
      ScanIs(cfg, mem, slots, f, r, n - 1);
      ScanStep(cfg, mem, slots, f, r, n, ScanTags(cfg, ScanStart(cfg, mem, slots, r), r, n - 1));
    }
  }

  lemma HeadInRange(cfg: Config, mem: seq<Word>, slots: seq<Slot>, f: Fifo, r: Request)
    requires Represents(cfg, mem, slots, f)
    ensures FifoOut(cfg, f, r).tag <= cfg.tags
    ensures FifoOut(cfg, f, r).tag == 0 <==> FifoOut(cfg, f, r).data == None
  {
  }

  lemma NextRepresents(cfg: Config, mem: seq<Word>, slots: seq<Slot>, f: Fifo, r: Request, e: Scan)
    requires Represents(cfg, mem, slots, f) && Scanned(cfg, mem, slots, f, r, cfg.tags, e)
    ensures Represents(cfg, e.mem, e.slots, FifoNext(cfg, f, r))
  {
    var g := FifoNext(cfg, f, r);
    forall i | 1 <= i <= cfg.tags ensures SlotOk(e.slots[i], i, g.line) {
      assert SlotOk(slots[i], i, f.line);
      BusyIsOutstanding(cfg, mem, slots, f, i);
    }
    forall k | 0 <= k < |g.line| && g.line[k].Some?
      ensures 1 <= g.line[k].value.tag <= cfg.tags && e.slots[g.line[k].value.tag].cyclesLeft == k + 1
    {
      if k < |g.line| - 1 {
        assert g.line[k] == f.line[k + 1];
      } else {
        BusyIsOutstanding(cfg, mem, slots, f, FreeTag(f.line, 1, cfg.tags));
      }
    }
  }

  /** Every edge of the memory is an edge of the delay line, with the same outputs. */
  lemma EdgeRefines(cfg: Config, mem: seq<Word>, slots: seq<Slot>, f: Fifo, r: Request)
    requires Represents(cfg, mem, slots, f)
    ensures var e := ScanTags(cfg, ScanStart(cfg, mem, slots, r), r, cfg.tags);
            e.out == FifoOut(cfg, f, r) && Represents(cfg, e.mem, e.slots, FifoNext(cfg, f, r))
  {
    ScanIs(cfg, mem, slots, f, r, cfg.tags);
    var e := ScanTags(cfg, ScanStart(cfg, mem, slots, r), r, cfg.tags);
    HeadInRange(cfg, mem, slots, f, r);
    NextRepresents(cfg, mem, slots, f, r, e);
  }

  // ---- whole traces ---------------------------------------------------------------------

  ghost predicate Sized(cfg: Config) { cfg.latency > 0 && cfg.lines > 0 }

  /** The delay line before cycle `t` of a request trace. */
  function FifoAt(cfg: Config, rs: seq<Request>, t: nat): (f: Fifo)
    requires Sized(cfg) && t <= |rs|
    ensures |f.mem| == cfg.lines && |f.line| == cfg.latency
  {
    if t == 0 then Fifo(seq(cfg.lines, _ => 0), seq(cfg.latency, _ => None))
    else FifoNext(cfg, FifoAt(cfg, rs, t - 1), rs[t - 1])
  }

  /** The loop's registers before cycle `t`. */
  function RegsAt(cfg: Config, rs: seq<Request>, t: nat): (s: (seq<Word>, seq<Slot>))
    requires Sized(cfg) && t <= |rs|
    ensures |s.0| == cfg.lines && |s.1| == cfg.tags + 1
  {
    if t == 0 then (seq(cfg.lines, _ => 0), seq(cfg.tags + 1, _ => Slot(0, false, 0)))
    else
      var (mem, slots) := RegsAt(cfg, rs, t - 1);
      var e := ScanTags(cfg, ScanStart(cfg, mem, slots, rs[t - 1]), rs[t - 1], cfg.tags);
      (e.mem, e.slots)
  }

  /** What the memory answers in cycle `t`. */
  function OutAt(cfg: Config, rs: seq<Request>, t: nat): Output
    requires Sized(cfg) && t < |rs|
  {
    var (mem, slots) := RegsAt(cfg, rs, t);
    ScanTags(cfg, ScanStart(cfg, mem, slots, rs[t]), rs[t], cfg.tags).out
  }

  lemma {:induction false} TraceRefines(cfg: Config, rs: seq<Request>, t: nat)
    requires Sized(cfg) && t <= |rs|
    ensures Represents(cfg, RegsAt(cfg, rs, t).0, RegsAt(cfg, rs, t).1, FifoAt(cfg, rs, t))
    ensures t < |rs| ==> OutAt(cfg, rs, t) == FifoOut(cfg, FifoAt(cfg, rs, t), rs[t])
  {
    if t > 0 {
      TraceRefines(cfg, rs, t - 1);
      EdgeRefines(cfg, RegsAt(cfg, rs, t - 1).0, RegsAt(cfg, rs, t - 1).1, FifoAt(cfg, rs, t - 1), rs[t - 1]);
    }
    if t < |rs| {
      EdgeRefines(cfg, RegsAt(cfg, rs, t).0, RegsAt(cfg, rs, t).1, FifoAt(cfg, rs, t), rs[t]);
    }
  }

  /** The tag given in cycle `t`, 0 if the request was not taken. */
  function Given(cfg: Config, rs: seq<Request>, t: nat): nat
    requires Sized(cfg) && t < |rs|
  {
    var tag := FreeTag(FifoAt(cfg, rs, t).line, 1, cfg.tags);
    if Wanted(cfg, rs[t]) && tag <= cfg.tags then tag else 0
  }

  /** Memory after the stores that were taken before cycle `t`, in order. */
  function Written(cfg: Config, rs: seq<Request>, t: nat): (m: seq<Word>)
    requires Sized(cfg) && t <= |rs|
    ensures |m| == cfg.lines
  {
    if t == 0 then seq(cfg.lines, _ => 0)
    else if Given(cfg, rs, t - 1) > 0 then Store(Written(cfg, rs, t - 1), rs[t - 1])
    else Written(cfg, rs, t - 1)
  }

  /** What travels down the line for cycle `t`. */
  function Sent(cfg: Config, rs: seq<Request>, t: nat): Option<Pending>
    requires Sized(cfg) && t < |rs|
  {
    if Given(cfg, rs, t) > 0 then Some(Accepted(Written(cfg, rs, t), Given(cfg, rs, t), rs[t])) else None
  }

  /** Position `k` of the line before cycle `t` of a trace. */
  function Expected(cfg: Config, rs: seq<Request>, t: nat, k: nat): Option<Pending>
    requires Sized(cfg) && t <= |rs| && k < cfg.latency
  {
    if t + k < cfg.latency then None else Sent(cfg, rs, t + k - cfg.latency)
  }

  lemma {:induction false} MemIs(cfg: Config, rs: seq<Request>, t: nat)
    requires Sized(cfg) && t <= |rs|
    ensures FifoAt(cfg, rs, t).mem == Written(cfg, rs, t)
  {
    if t > 0 {
      MemIs(cfg, rs, t - 1);
    }
  }

  lemma LineStep(cfg: Config, rs: seq<Request>, t: nat)
    requires Sized(cfg) && t < |rs|
    ensures FifoAt(cfg, rs, t + 1).line == FifoAt(cfg, rs, t).line[1..] + [Sent(cfg, rs, t)]
  {
    MemIs(cfg, rs, t);
  }

  lemma LineStart(cfg: Config, rs: seq<Request>, k: nat)
    requires Sized(cfg) && k < cfg.latency
    ensures FifoAt(cfg, rs, 0).line[k] == None
  {
  }

  lemma ShiftLine(old_: seq<Option<Pending>>, sent: Option<Pending>, k: nat)
    requires k < |old_|
    ensures (old_[1..] + [sent])[k] == if k < |old_| - 1 then old_[k + 1] else sent
  {
  }

  lemma {:induction false} LineIs(cfg: Config, rs: seq<Request>, t: nat, k: nat)
    requires Sized(cfg) && t <= |rs| && k < cfg.latency
    ensures FifoAt(cfg, rs, t).line[k] == Expected(cfg, rs, t, k)
    decreases t
  {
    hide FifoAt, Sent;
    if t == 0 {
      LineStart(cfg, rs, k);
    } else {
      LineStep(cfg, rs, t - 1);
      ShiftLine(FifoAt(cfg, rs, t - 1).line, Sent(cfg, rs, t - 1), k);
      if k < cfg.latency - 1 {
        LineIs(cfg, rs, t - 1, k + 1);
      }
    }
  }

  lemma OutIs(cfg: Config, rs: seq<Request>, t: nat)
    requires Sized(cfg) && t < |rs|
    ensures OutAt(cfg, rs, t).response == Given(cfg, rs, t)
    ensures OutAt(cfg, rs, t).data == (match Expected(cfg, rs, t, 0) case Some(p) => p.load case None => None)
    ensures OutAt(cfg, rs, t).tag ==
      (match Expected(cfg, rs, t, 0) case Some(p) => (if p.load.Some? then p.tag else 0) case None => 0)
  {
    TraceRefines(cfg, rs, t);
    LineIs(cfg, rs, t, 0);
  }

  lemma GivenInRange(cfg: Config, rs: seq<Request>, t: nat)
    requires Sized(cfg) && t < |rs|
    ensures Given(cfg, rs, t) > 0 ==> Line(rs[t]) < cfg.lines
  {
    hide FifoAt, FreeTag;
  }

  lemma LoadsReturnWritten(cfg: Config, rs: seq<Request>, t: nat)
    requires Sized(cfg) && t < |rs|
    ensures t < cfg.latency ==> OutAt(cfg, rs, t).tag == 0 && OutAt(cfg, rs, t).data == None
    ensures cfg.latency <= t ==>
      var u := t - cfg.latency;
      if rs[u].cmd.BusLoad? && OutAt(cfg, rs, u).response > 0
      then OutAt(cfg, rs, t).tag == OutAt(cfg, rs, u).response && Line(rs[u]) < cfg.lines
           && OutAt(cfg, rs, t).data == Some(Written(cfg, rs, u)[Line(rs[u])])
      else OutAt(cfg, rs, t).tag == 0 && OutAt(cfg, rs, t).data == None
  {
    hide OutAt, Given, Written;
    OutIs(cfg, rs, t);
    if cfg.latency <= t {
      GivenInRange(cfg, rs, t - cfg.latency);
      OutIs(cfg, rs, t - cfg.latency);
    }
  }

  /** Different valid addresses are different lines. */
  lemma LinesDiffer(cfg: Config, q: Request, addr: nat)
    requires Wanted(cfg, q) && addr % 8 == 0
    ensures Line(q) == addr / 8 <==> q.addr == addr
  {
  }

  /** In cycle `w` a store to `addr` is taken. */
  ghost predicate StoresTo(cfg: Config, rs: seq<Request>, w: nat, addr: nat)
    requires Sized(cfg) && w < |rs|
  {
    rs[w].cmd.BusStore? && rs[w].addr == addr && OutAt(cfg, rs, w).response > 0
  }

  /** No store to `addr` is taken in the cycles from `w` up to, not including, `u`. */
  ghost predicate NoStoreTo(cfg: Config, rs: seq<Request>, w: nat, u: nat, addr: nat)
    requires Sized(cfg) && u <= |rs|
  {
    forall v :: w <= v < u ==> !StoresTo(cfg, rs, v, addr)
  }

  /** The store to `addr` in cycle `w` is the last one taken before cycle `u`. */
  ghost predicate IsLastStore(cfg: Config, rs: seq<Request>, w: nat, u: nat, addr: nat)
    requires Sized(cfg) && w < u <= |rs|
  {
    StoresTo(cfg, rs, w, addr) && NoStoreTo(cfg, rs, w + 1, u, addr)
  }

  lemma WrittenStep(cfg: Config, rs: seq<Request>, u: nat, addr: nat)
    requires Sized(cfg) && 0 < u <= |rs| && addr % 8 == 0 && addr < 8 * cfg.lines
    ensures Written(cfg, rs, u)[addr / 8]
         == if StoresTo(cfg, rs, u - 1, addr) then rs[u - 1].data else Written(cfg, rs, u - 1)[addr / 8]
  {
    hide OutAt, FifoAt, FreeTag;
    OutIs(cfg, rs, u - 1);
    if Given(cfg, rs, u - 1) > 0 {
      LinesDiffer(cfg, rs[u - 1], addr);
    }
  }

  lemma {:induction false} WrittenByStore(cfg: Config, rs: seq<Request>, w: nat, u: nat, addr: nat)
    requires Sized(cfg) && w < u <= |rs| && addr % 8 == 0 && addr < 8 * cfg.lines
    requires IsLastStore(cfg, rs, w, u, addr)
    ensures Written(cfg, rs, u)[addr / 8] == rs[w].data
    decreases u
  {
    hide OutAt, Given;
    WrittenStep(cfg, rs, u, addr);
    if w < u - 1 {
      WrittenByStore(cfg, rs, w, u - 1, addr);
    }
  }

  lemma {:induction false} WrittenByNone(cfg: Config, rs: seq<Request>, u: nat, addr: nat)
    requires Sized(cfg) && u <= |rs| && addr % 8 == 0 && addr < 8 * cfg.lines && NoStoreTo(cfg, rs, 0, u, addr)
    ensures Written(cfg, rs, u)[addr / 8] == 0
    decreases u
  {
    hide OutAt, Given;
    if u > 0 {
      WrittenStep(cfg, rs, u, addr);
      WrittenByNone(cfg, rs, u - 1, addr);
    }
  }

  lemma TakenIsWanted(cfg: Config, rs: seq<Request>, u: nat)
    requires Sized(cfg) && u < |rs| && OutAt(cfg, rs, u).response > 0
    ensures Wanted(cfg, rs[u])
  {
    OutIs(cfg, rs, u);
  }

  /** Over every trace: the result bus of a cycle carries exactly the load taken
      `latency` cycles before, with the tag it was given then and the data of the last store
      to its address that was taken before it, or 0 without one; otherwise it is idle. */
  lemma LoadsReturnOnTime(cfg: Config, rs: seq<Request>, t: nat)
    requires Sized(cfg) && t < |rs|
    ensures t < cfg.latency ==> OutAt(cfg, rs, t).tag == 0 && OutAt(cfg, rs, t).data == None
    ensures cfg.latency <= t ==>
      var u := t - cfg.latency;
      if rs[u].cmd.BusLoad? && OutAt(cfg, rs, u).response > 0
      then OutAt(cfg, rs, t).tag == OutAt(cfg, rs, u).response
           && (NoStoreTo(cfg, rs, 0, u, rs[u].addr) ==> OutAt(cfg, rs, t).data == Some(0))
           && (forall w :: 0 <= w < u && IsLastStore(cfg, rs, w, u, rs[u].addr) ==>
                 OutAt(cfg, rs, t).data == Some(rs[w].data))
      else OutAt(cfg, rs, t).tag == 0 && OutAt(cfg, rs, t).data == None
  {
    hide OutAt, Given, Written, NoStoreTo, IsLastStore;
    LoadsReturnWritten(cfg, rs, t);
    if cfg.latency <= t {
      var u := t - cfg.latency;
      if rs[u].cmd.BusLoad? && OutAt(cfg, rs, u).response > 0 {
        TakenIsWanted(cfg, rs, u);
        if NoStoreTo(cfg, rs, 0, u, rs[u].addr) {
          WrittenByNone(cfg, rs, u, rs[u].addr);
        }
        forall w | 0 <= w < u && IsLastStore(cfg, rs, w, u, rs[u].addr)
          ensures Written(cfg, rs, u)[rs[u].addr / 8] == rs[w].data
        {
          WrittenByStore(cfg, rs, w, u, rs[u].addr);
        }
      }
    }
  }

  lemma {:induction false} LineHasRoom(line: seq<Option<Pending>>, n: nat)
    requires forall u :: 1 <= u <= n ==> Outstanding(line, u)
    ensures n <= |line|
    decreases n
  {
    if n > 0 {
      assert Outstanding(line, n);
      var k :| 0 <= k < |line| && line[k].Some? && line[k].value.tag == n;
      var rest := line[..k] + line[k + 1..];
      forall u | 1 <= u <= n - 1 ensures Outstanding(rest, u) {
        assert Outstanding(line, u);
        var j :| 0 <= j < |line| && line[j].Some? && line[j].value.tag == u;
        assert rest[if j < k then j else j - 1] == line[j];
      }
      LineHasRoom(rest, n - 1);
    }
  }

  /** With more tags than cycles of latency every valid request is taken at once. */
  lemma AlwaysTaken(cfg: Config, rs: seq<Request>, t: nat)
    requires Sized(cfg) && cfg.latency < cfg.tags && t < |rs|
    ensures OutAt(cfg, rs, t).response > 0
       <==> !rs[t].cmd.BusNone? && rs[t].addr % 8 == 0 && rs[t].addr < 8 * cfg.lines
  {
    TraceRefines(cfg, rs, t);
    if FreeTag(FifoAt(cfg, rs, t).line, 1, cfg.tags) > cfg.tags {
      LineHasRoom(FifoAt(cfg, rs, t).line, cfg.tags);
    }
  }

  function Burst(n: nat): seq<Request> { seq(n, _ => Request(BusLoad, 0, 0)) }

  /** Exactly tags 1 .. `t` are on their way, and the first positions are empty. */
  ghost predicate Filled(line: seq<Option<Pending>>, t: nat) {
    && t <= |line|
    && (forall k :: 0 <= k < |line| - t ==> line[k] == None)
    && (forall k :: |line| - t <= k < |line| ==>
          line[k].Some? && line[k].value.tag == k + 1 - (|line| - t))
  }

  lemma {:induction false} FilledFreeTag(line: seq<Option<Pending>>, u: nat, t: nat, tags: nat)
    requires Filled(line, t) && 1 <= u <= t + 1 && t <= tags
    ensures FreeTag(line, u, tags) == t + 1
    decreases t + 1 - u
  {
    if u <= t {
      assert line[|line| - t + u - 1].value.tag == u;
      FilledFreeTag(line, u + 1, t, tags);
    }
  }

  lemma {:induction false} BurstTags(cfg: Config, n: nat, t: nat)
    requires Sized(cfg) && cfg.tags <= cfg.latency && t <= n && t <= cfg.tags
    ensures Filled(FifoAt(cfg, Burst(n), t).line, t)
  {
    if t > 0 {
      BurstTags(cfg, n, t - 1);
      var f := FifoAt(cfg, Burst(n), t - 1);
      FilledFreeTag(f.line, 1, t - 1, cfg.tags);
      assert FifoAt(cfg, Burst(n), t).line == f.line[1..] + [Some(Accepted(f.mem, t, Request(BusLoad, 0, 0)))];
    }
  }

  /** Otherwise a burst of `tags + 1` loads has its last one turned away: the condition
      on the latency is exact. */
  lemma SlowMemoryTurnsAway(cfg: Config)
    requires Sized(cfg) && cfg.tags <= cfg.latency
    ensures var rs := Burst(cfg.tags + 1);
            Wanted(cfg, rs[cfg.tags]) && OutAt(cfg, rs, cfg.tags).response == 0
  {
    BurstTags(cfg, cfg.tags + 1, cfg.tags);
    FilledFreeTag(FifoAt(cfg, Burst(cfg.tags + 1), cfg.tags).line, 1, cfg.tags, cfg.tags);
    TraceRefines(cfg, Burst(cfg.tags + 1), cfg.tags);
  }

  /** A tag is never given out while its last use is still on the way, not even in the
      cycle in which that use returns. */
  lemma TagsAreNotReused(cfg: Config, rs: seq<Request>, t: nat, u: nat)
    requires Sized(cfg) && u < t < |rs| && t <= u + cfg.latency
    requires OutAt(cfg, rs, t).response > 0 && OutAt(cfg, rs, u).response > 0
    ensures OutAt(cfg, rs, t).response != OutAt(cfg, rs, u).response
    ensures OutAt(cfg, rs, t).response != OutAt(cfg, rs, t).tag
  {
    TraceRefines(cfg, rs, t);
    OutIs(cfg, rs, u);
    var line := FifoAt(cfg, rs, t).line;
    LineIs(cfg, rs, t, u + cfg.latency - t);
    assert Outstanding(line, Given(cfg, rs, u));
    if line[0].Some? {
      assert Outstanding(line, line[0].value.tag);
    }
  }
}
