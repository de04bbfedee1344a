/** The ready bits of the speculative map table over sequences of edges, in terms of the renames
    and the broadcasts alone: a register is ready exactly if its tag was broadcast after the
    edge at which it was last renamed. */
module MapReady {

  import opened MapTables

  /** What a clock edge without reset and rollback sees. */
  datatype Edge = Edge(ws: seq<MapWrite>, cdb: seq<CdbTag>)

  datatype Table = Table(tags: seq<nat>, ready: seq<bool>)

  /** The table after the first `n` edges. */
  ghost function After(t: Table, es: seq<Edge>, n: nat): (r: Table)
    requires n <= |es| && |t.tags| == |t.ready|
    ensures |r.tags| == |r.ready| == |t.tags|
  {
    if n == 0 then t
    else
      var p := After(t, es, n - 1);
      Table(NextMt(p.tags, es[n - 1].ws),
            seq(|p.tags|, a requires 0 <= a < |p.tags| =>
              NextReady(p.tags, p.ready, es[n - 1].ws, es[n - 1].cdb, a)))
  }

  /** None of the channels from `j` up to, not including, `m` renames register `a`. */
  ghost predicate NotRenamed(ws: seq<MapWrite>, j: nat, m: nat, a: nat)
    requires m <= |ws|
  {
    forall k :: j <= k < m ==> !(ws[k].en && ws[k].reg == a)
  }

  /** Of the first `m` channels, the youngest that renames register `a` gives it tag `x`. */
  ghost predicate Renames(ws: seq<MapWrite>, m: nat, a: nat, x: nat)
    requires m <= |ws|
  {
    exists k :: 0 <= k < m && ws[k].en && ws[k].reg == a && ws[k].tag == x && NotRenamed(ws, k + 1, m, a)
  }

  ghost predicate Announces(e: Edge, x: nat) {
    exists k :: 0 <= k < |e.cdb| && e.cdb[k].valid && e.cdb[k].tag == x
  }

  /** Some edge from `i` up to, not including, `n` announces tag `x`. */
  ghost predicate Announced(es: seq<Edge>, i: nat, n: nat, x: nat)
    requires n <= |es|
  {
    exists j :: i <= j < n && Announces(es[j], x)
  }

  ghost predicate Untouched(es: seq<Edge>, i: nat, n: nat, a: nat)
    requires n <= |es|
  {
    forall j :: i <= j < n ==> NotRenamed(es[j].ws, 0, |es[j].ws|, a)
  }

  lemma {:induction false} LatestIs(tag: nat, a: nat, ws: seq<MapWrite>, m: nat, x: nat)
    requires m <= |ws|
    ensures NotRenamed(ws, 0, m, a) ==> Latest(tag, a, ws, m) == tag
    ensures Renames(ws, m, a, x) ==> Latest(tag, a, ws, m) == x
  {
    if m > 0 && !(ws[m - 1].en && ws[m - 1].reg == a) {
      LatestIs(tag, a, ws, m - 1, x);
      if Renames(ws, m, a, x) {
        var k :| 0 <= k < m && ws[k].en && ws[k].reg == a && ws[k].tag == x && NotRenamed(ws, k + 1, m, a);
        assert k < m - 1 && NotRenamed(ws, k + 1, m - 1, a);
      }
    }
  }

  lemma RenamedIs(ws: seq<MapWrite>, m: nat, a: nat, x: nat)
    requires m <= |ws|
    ensures Renamed(ws, m, a) <==> !NotRenamed(ws, 0, m, a)
    ensures Renames(ws, m, a, x) ==> Renamed(ws, m, a)
  {
    if Renames(ws, m, a, x) {
      var k :| 0 <= k < m && ws[k].en && ws[k].reg == a && ws[k].tag == x && NotRenamed(ws, k + 1, m, a);
    }
  }

  lemma AnnouncedNext(es: seq<Edge>, i: nat, n: nat, x: nat)
    requires i <= n < |es|
    ensures Announced(es, i, n + 1, x) <==> Announced(es, i, n, x) || Announces(es[n], x)
  {
    if Announced(es, i, n, x) {
      var j :| i <= j < n && Announces(es[j], x);
    }
  }

  /** One edge. */
  lemma EdgeIs(t: Table, es: seq<Edge>, n: nat, a: nat, x: nat)
    requires n < |es| && 0 < a < |t.tags| == |t.ready|
    ensures var p, r := After(t, es, n), After(t, es, n + 1);
      && (Renames(es[n].ws, |es[n].ws|, a, x) ==> r.tags[a] == x && !r.ready[a])
      && (NotRenamed(es[n].ws, 0, |es[n].ws|, a) ==>
            r.tags[a] == p.tags[a] && (r.ready[a] <==> p.ready[a] || Announces(es[n], p.tags[a])))
  {
    LatestIs(After(t, es, n).tags[a], a, es[n].ws, |es[n].ws|, x);
    RenamedIs(es[n].ws, |es[n].ws|, a, x);
  }

  /** A register that is not renamed keeps its tag, and gets ready when that is announced. */
  lemma {:induction false} ReadyOnceAnnounced(t: Table, es: seq<Edge>, i: nat, n: nat, a: nat)
    requires i <= n <= |es| && 0 < a < |t.tags| == |t.ready| && Untouched(es, i, n, a)
    ensures After(t, es, n).tags[a] == After(t, es, i).tags[a]
    ensures After(t, es, n).ready[a]
       <==> After(t, es, i).ready[a] || Announced(es, i, n, After(t, es, i).tags[a])
    decreases n
  {
    hide After, Announces;
    if i < n {
      ReadyOnceAnnounced(t, es, i, n - 1, a);
      EdgeIs(t, es, n - 1, a, 0);
      AnnouncedNext(es, i, n - 1, After(t, es, i).tags[a]);
    }
  }

  /** After a rename at edge `i` and none since, the register has the tag of the youngest channel of
      that edge, and is ready exactly if a later edge announced the tag. */
  lemma ReadyIffAnnounced(t: Table, es: seq<Edge>, i: nat, n: nat, a: nat, x: nat)
    requires i < n <= |es| && 0 < a < |t.tags| == |t.ready|
    requires Renames(es[i].ws, |es[i].ws|, a, x) && Untouched(es, i + 1, n, a)
    ensures After(t, es, n).tags[a] == x
    ensures After(t, es, n).ready[a] <==> Announced(es, i + 1, n, x)
  {
    hide After, Announces, Renames, Untouched, Announced;
    EdgeIs(t, es, i, a, x);
    ReadyOnceAnnounced(t, es, i + 1, n, a);
  }

  /** What channel `c` reads in the cycle that ends with edge `n`: a source that an older channel of
      its group renames is not ready; otherwise it is ready exactly if an edge after its last
      rename announced its tag, up to and including the one of this cycle. */
  lemma SourceReadyIffAnnounced(t: Table, es: seq<Edge>, i: nat, n: nat, c: nat, a: nat, x: nat)
    requires i < n < |es| && 0 < a < |t.tags| == |t.ready| && c <= |es[n].ws| && x != 0
    requires Renames(es[i].ws, |es[i].ws|, a, x) && Untouched(es, i + 1, n, a)
    ensures var p := After(t, es, n);
            var tag, ready := ReadTag(p.tags, es[n].ws, c, a), ReadReady(p.tags, p.ready, es[n].ws, es[n].cdb, c, a);
            && (NotRenamed(es[n].ws, 0, c, a) ==> tag == x && (ready <==> Announced(es, i + 1, n + 1, x)))
            && (forall y :: Renames(es[n].ws, c, a, y) ==> tag == y && !ready)
  {
    hide After;
    var p := After(t, es, n);
    ReadyIffAnnounced(t, es, i, n, a, x);
    AnnouncedNext(es, i + 1, n, x);
    forall y ensures Renames(es[n].ws, c, a, y) ==> Renamed(es[n].ws, c, a) {
      RenamedIs(es[n].ws, c, a, y);
    }
    forall y ensures Renames(es[n].ws, c, a, y) ==> Latest(p.tags[a], a, es[n].ws, c) == y {
      LatestIs(p.tags[a], a, es[n].ws, c, y);
    }
    LatestIs(p.tags[a], a, es[n].ws, c, x);
  }
}
