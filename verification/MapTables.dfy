/** The committed map table `AMT` and the speculative map table `MT_SS` of one
    thread.  Both are arrays of tags that several channels may overwrite in one
    cycle, the youngest channel last.  `MT_SS` also has a ready bit per entry. */
module MapTables {

  import opened CoreConfig

  /** One write channel: `ROB_AMT` on retirement, `DP_MT` on dispatch. */
  datatype MapWrite = MapWrite(en: bool, reg: nat, tag: nat)

  /** Content of register `reg` after the first `m` channels. */
  function Latest(tag: nat, reg: nat, ws: seq<MapWrite>, m: nat): nat
    requires m <= |ws|
  {
    if m == 0 then tag
    else if ws[m - 1].en && ws[m - 1].reg == reg then ws[m - 1].tag
    else Latest(tag, reg, ws, m - 1)
  }

  function Overwritten(map_: seq<nat>, ws: seq<MapWrite>, m: nat): (r: seq<nat>)
    requires m <= |ws|
    ensures |r| == |map_|
  {
    seq(|map_|, a requires 0 <= a < |map_| => Latest(map_[a], a, ws, m))
  }

  /** `amt_o`: what the speculative map is restored from. */
  function AmtOut(amt: seq<nat>, rollback: bool, ws: seq<MapWrite>): seq<nat> {
    if rollback then Overwritten(amt, ws, |ws|) else amt
  }

  /** Next content of the speculative map without a rollback; register 0 is fixed. */
  function NextMt(mt: seq<nat>, ws: seq<MapWrite>): (r: seq<nat>)
    ensures |r| == |mt|
  {
    seq(|mt|, a requires 0 <= a < |mt| => if a == 0 then 0 else Latest(mt[a], a, ws, |ws|))
  }

  /** The tag that channel `c` reads for register `reg`: the older channels of the
      same group are bypassed, except for register 0. */
  function ReadTag(mt: seq<nat>, ws: seq<MapWrite>, c: nat, reg: nat): nat
    requires c <= |ws| && reg < |mt|
  {
    if reg == 0 then mt[0] else Latest(mt[reg], reg, ws, c)
  }

  /** One result broadcast by the common data bus. */
  datatype CdbTag = CdbTag(valid: bool, tag: nat)

  ghost predicate Broadcasts(cdb: seq<CdbTag>, tag: nat) {
    exists k :: 0 <= k < |cdb| && cdb[k].valid && cdb[k].tag == tag
  }

  /** One of the first `m` channels renames register `reg`. */
  ghost predicate Renamed(ws: seq<MapWrite>, m: nat, reg: nat) {
    exists k :: 0 <= k < m && k < |ws| && ws[k].en && ws[k].reg == reg
  }

  /** The ready bit that channel `c` reads: no older channel of the group renames the register,
      and its tag is ready or broadcast in this cycle.  Tag 0 is never broadcast here. */
  ghost predicate ReadReady(mt: seq<nat>, ready: seq<bool>, ws: seq<MapWrite>, cdb: seq<CdbTag>, c: nat, reg: nat)
    requires reg < |mt| == |ready|
  {
    (reg == 0 || !Renamed(ws, c, reg)) && (ready[reg] || (mt[reg] != 0 && Broadcasts(cdb, mt[reg])))
  }

  /** The ready bit of entry `a` after an edge without reset or rollback. */
  ghost predicate NextReady(mt: seq<nat>, ready: seq<bool>, ws: seq<MapWrite>, cdb: seq<CdbTag>, a: nat)
    requires a < |mt| == |ready|
  {
    a == 0 || (!Renamed(ws, |ws|, a) && (ready[a] || Broadcasts(cdb, mt[a])))
  }

  function ResetTag(cfg: Config, thread: nat, a: nat): int {
    if a == 0 then 0 else a + thread * Pow2(Clog2(cfg.Arch())) - thread
  }

  lemma ResetTagRange(cfg: Config, thread: nat, a: nat)
    requires a < cfg.Arch()
    ensures ResetTag(cfg, thread, a) == if a == 0 then 0 else thread * (cfg.Arch() - 1) + a
    ensures ResetTag(cfg, thread, a) >= 0
  {
    ClogOfPow2(cfg.archBits);
    assert thread * (cfg.Arch() - 1) == thread * cfg.Arch() - thread;
    assert thread * (cfg.Arch() - 1) >= 0;
  }

  /** The committed map of a thread starts out with a private block of tags. */
  function ResetMap(cfg: Config, thread: nat): (r: seq<nat>)
    ensures |r| == cfg.Arch()
  {
    seq(cfg.Arch(), a requires 0 <= a < cfg.Arch() =>
      ResetTagRange(cfg, thread, a);
      ResetTag(cfg, thread, a))
  }

  /** The speculative map is reset with a fixed shift by 5. */
  function ResetMtTag(thread: nat, a: nat): nat { if a == 0 then 0 else a + thread * 32 - thread }

  function ResetMt(cfg: Config, thread: nat): (r: seq<nat>)
    ensures |r| == cfg.Arch()
  {
    seq(cfg.Arch(), a requires 0 <= a < cfg.Arch() => ResetMtTag(thread, a))
  }

  predicate SameResets(cfg: Config) { cfg.archBits == 5 || cfg.threads == 1 }

  lemma SameResetOf(cfg: Config, t: nat)
    requires cfg.archBits == 5 || t == 0
    ensures ResetMt(cfg, t) == ResetMap(cfg, t)
  {
    assert Pow2(5) == 32;
    forall a | 0 <= a < cfg.Arch() ensures ResetMt(cfg, t)[a] == ResetMap(cfg, t)[a] {
      ResetTagRange(cfg, t, a);
    }
  }

  lemma OtherReset(cfg: Config)
    requires cfg.archBits > 0 && cfg.archBits != 5
    ensures ResetMtTag(1, 1) == 32 != cfg.Arch() == ResetMap(cfg, 1)[1]
  {
    assert Pow2(5) == 32;
    if cfg.archBits < 5 {
      Pow2Mono(cfg.archBits, 5);
    } else {
      Pow2Mono(5, cfg.archBits);
    }
    ResetTagRange(cfg, 1, 1);
  }

  /** The two resets agree in all threads exactly for 32 registers, or if there is one thread. */
  lemma SameResetsIff(cfg: Config)
    requires cfg.threads > 0 && cfg.archBits > 0
    ensures SameResets(cfg) <==> forall t :: 0 <= t < cfg.threads ==> ResetMt(cfg, t) == ResetMap(cfg, t)
  {
    if SameResets(cfg) {
      forall t | 0 <= t < cfg.threads ensures ResetMt(cfg, t) == ResetMap(cfg, t) {
        SameResetOf(cfg, t);
      }
    } else {
      OtherReset(cfg);
      assert ResetMt(cfg, 1)[1] != ResetMap(cfg, 1)[1];
    }
  }

  /** A channel acts on the whole table like one assignment. */
  lemma OverwriteStep(map_: seq<nat>, ws: seq<MapWrite>, m: nat)
    requires m < |ws| && ws[m].en && ws[m].reg < |map_|
    ensures Overwritten(map_, ws, m + 1) == Overwritten(map_, ws, m)[ws[m].reg := ws[m].tag]
  {
  }

  class Amt {
    const cfg: Config
    const thread: nat
    const entry: array<nat>

    ghost predicate Valid()
      reads this
    {
      entry.Length == cfg.Arch()
    }

    constructor (cfg: Config, thread: nat)
      ensures Valid() && this.cfg == cfg && this.thread == thread && fresh(entry)
    {
      this.cfg := cfg;
      this.thread := thread;
      entry := new nat[cfg.Arch()](_ => 0);
    }

    method PosEdge(reset: bool, ws: seq<MapWrite>)
      requires Valid()
      modifies entry
      ensures entry[..] == if reset then ResetMap(cfg, thread) else Overwritten(old(entry[..]), ws, |ws|)
    {
      ghost var pre := entry[..];
      for a := 0 to entry.Length
        invariant forall b :: a <= b < entry.Length ==> entry[b] == pre[b]
        invariant forall b :: 0 <= b < a ==>
          entry[b] == if reset then ResetTag(cfg, thread, b) else Latest(pre[b], b, ws, |ws|)
      {
        if reset {
          ResetTagRange(cfg, thread, a);
          entry[a] := ResetTag(cfg, thread, a);
        } else {
          var tag := entry[a];
          for k := 0 to |ws|
            invariant tag == Latest(pre[a], a, ws, k)
          {
            if ws[k].en && ws[k].reg == a {
              tag := ws[k].tag;
            }
          }
          entry[a] := tag;
        }
      }
    }

    /** The combinational output with its rollback bypass. */
    method Out(rollback: bool, ws: seq<MapWrite>) returns (o: seq<nat>)
      requires Valid()
      ensures o == AmtOut(entry[..], rollback, ws) && (!rollback ==> o == entry[..])
    {
      o := [];
      for a := 0 to entry.Length
        invariant |o| == a
        invariant forall b :: 0 <= b < a ==>
          o[b] == if rollback then Latest(entry[b], b, ws, |ws|) else entry[b]
      {
        var tag := entry[a];
        if rollback {
          for k := 0 to |ws|
            invariant tag == Latest(entry[a], a, ws, k)
          {
            if ws[k].en && ws[k].reg == a {
              tag := ws[k].tag;
            }
          }
        }
        o := o + [tag];
      }
    }
  }

  lemma BroadcastStep(cdb: seq<CdbTag>, k: nat, tag: nat)
    requires k < |cdb|
    ensures Broadcasts(cdb[..k + 1], tag) <==> Broadcasts(cdb[..k], tag) || (cdb[k].valid && cdb[k].tag == tag)
  {
    if Broadcasts(cdb[..k], tag) {
      var j :| 0 <= j < k && cdb[j].valid && cdb[j].tag == tag;
      assert cdb[..k + 1][j] == cdb[j];
    }
    if cdb[k].valid && cdb[k].tag == tag {
      assert cdb[..k + 1][k] == cdb[k];
    }
    if Broadcasts(cdb[..k + 1], tag) {
      var j :| 0 <= j < k + 1 && cdb[j].valid && cdb[j].tag == tag;
      assert j < k ==> cdb[..k][j] == cdb[j];
    }
  }

  class MapTable {
    const cfg: Config
    const thread: nat
    const entry: array<nat>
    const ready: array<bool>

    ghost predicate Valid()
      reads this
    {
      entry.Length == ready.Length == cfg.Arch()
    }

    constructor (cfg: Config, thread: nat)
      ensures Valid() && this.cfg == cfg && this.thread == thread && fresh(entry) && fresh(ready)
    {
      this.cfg := cfg;
      this.thread := thread;
      entry := new nat[cfg.Arch()](_ => 0);
      ready := new bool[cfg.Arch()](_ => false);
    }

    /** A source register of dispatch channel `c`; its tag alone is also the `tag_old` of a
        destination register. */
    method Read(ws: seq<MapWrite>, cdb: seq<CdbTag>, c: nat, reg: nat) returns (tag: nat, tagReady: bool)
      requires Valid() && c <= |ws| && reg < cfg.Arch()
      ensures tag == ReadTag(entry[..], ws, c, reg)
      ensures tagReady <==> ReadReady(entry[..], ready[..], ws, cdb, c, reg)
    {
      tag, tagReady := entry[reg], ready[reg];
      for k := 0 to |cdb|
        invariant tagReady <==> ready[reg] || (entry[reg] != 0 && Broadcasts(cdb[..k], entry[reg]))
      {
        BroadcastStep(cdb, k, tag);
        if cdb[k].valid && cdb[k].tag != 0 && cdb[k].tag == tag {
          tagReady := true;
        }
      }
      assert cdb[..|cdb|] == cdb;
      for k := 0 to c
        invariant tag == if reg == 0 then entry[0] else Latest(entry[reg], reg, ws, k)
        invariant tagReady <==> ReadReady(entry[..], ready[..], ws, cdb, k, reg)
      {
        if reg != 0 && ws[k].reg == reg && ws[k].en {
          tag, tagReady := ws[k].tag, false;
        }
      }
    }

    /** The loops over the CDB and over the dispatch channels for entry `a`. */
    method NextEntry(ws: seq<MapWrite>, cdb: seq<CdbTag>, a: nat) returns (tag: nat, tagReady: bool)
      requires Valid() && 0 < a < cfg.Arch()
      ensures tag == Latest(entry[a], a, ws, |ws|)
      ensures tagReady <==> NextReady(entry[..], ready[..], ws, cdb, a)
    {
      tag, tagReady := entry[a], ready[a];
      for k := 0 to |cdb|
        invariant tagReady <==> ready[a] || Broadcasts(cdb[..k], entry[a])
      {
        BroadcastStep(cdb, k, entry[a]);
        if cdb[k].valid && cdb[k].tag == entry[a] {
          tagReady := true;
        }
      }
      assert cdb[..|cdb|] == cdb;
      for k := 0 to |ws|
        invariant tag == Latest(entry[a], a, ws, k)
        invariant tagReady <==> !Renamed(ws, k, a) && (ready[a] || Broadcasts(cdb, entry[a]))
      {
        if ws[k].en && ws[k].reg == a {
          tag, tagReady := ws[k].tag, false;
        }
      }
    }

    method PosEdge(reset: bool, rollback: bool, amt: seq<nat>, ws: seq<MapWrite>, cdb: seq<CdbTag>)
      requires Valid() && |amt| == cfg.Arch()
      modifies entry, ready
      ensures entry[..] == if reset then ResetMt(cfg, thread)
                           else if rollback then amt
                           else NextMt(old(entry[..]), ws)
      ensures forall a :: 0 <= a < cfg.Arch() ==>
        (ready[a] <==> reset || rollback || NextReady(old(entry[..]), old(ready[..]), ws, cdb, a))
    {
      ghost var pre, was := entry[..], ready[..];
      for a := 0 to entry.Length
        invariant forall b :: a <= b < entry.Length ==> entry[b] == pre[b] && ready[b] == was[b]
        invariant forall b :: 0 <= b < a ==>
          entry[b] == if reset then ResetMtTag(thread, b)
                      else if rollback then amt[b]
                      else if b == 0 then 0 else Latest(pre[b], b, ws, |ws|)
        invariant forall b :: 0 <= b < a ==>
          (ready[b] <==> reset || rollback || NextReady(pre, was, ws, cdb, b))
      {
        if reset {
          entry[a], ready[a] := ResetMtTag(thread, a), true;
        } else if rollback {
          entry[a], ready[a] := amt[a], true;
        } else if a == 0 {
          entry[a], ready[a] := 0, true;
        } else {
          entry[a], ready[a] := NextEntry(ws, cdb, a);
        }
      }
    }
  }

}
