// What a flood-fill reveal uncovers, stated without the recursion: the cells
// that can be reached from a starting cell along a path of open cells that
// only moves on from cells whose adjacency number is 0.

module Flood {

  import opened Cells

  /**
   * p is a path a flood fill can follow: every cell on it is open (on the
   * board, neither revealed nor flagged when the fill starts), and every step
   * leaves a cell with adjacency number 0 for a neighbouring cell.
   */
  ghost predicate IsFloodPath(p: seq<Coord>, open: set<Coord>, zeros: set<Coord>)
  {
    |p| > 0 &&
    (forall i :: 0 <= i < |p| ==> p[i] in open) &&
    (forall i :: 0 <= i < |p| - 1 ==> p[i] in zeros && Adjacent(p[i], p[i + 1]))
  }

  ghost predicate Reaches(sources: set<Coord>, c: Coord, open: set<Coord>, zeros: set<Coord>)
  {
    exists p :: IsFloodPath(p, open, zeros) && p[0] in sources && p[|p| - 1] == c
  }

  /**
   * The cells a flood fill started at the cells of `sources` uncovers: every
   * open source, the connected region of open zero cells reachable from it,
   * and the open cells bordering that region.
   */
  ghost function Region(sources: set<Coord>, open: set<Coord>, zeros: set<Coord>): set<Coord>
  {
    set c | c in open && Reaches(sources, c, open, zeros)
  }

  /**
   * Every zero cell of `newly` has each of its on-board neighbours in `rev`
   * or in `flags`: a fill that revealed `newly` went on past each of its zero
   * cells until it met a revealed or flagged cell.
   */
  ghost predicate Closed(newly: set<Coord>, rev: set<Coord>, flags: set<Coord>, zeros: set<Coord>, n: int)
  {
    forall c, d :: c in newly && c in zeros && Adjacent(c, d) && InBounds(d, n) ==> d in rev || d in flags
  }

  /** A fill reveals open cells only. */
  lemma RegionInOpen(sources: set<Coord>, open: set<Coord>, zeros: set<Coord>)
    ensures Region(sources, open, zeros) <= open
  {
  }

  /** A fill that starts with the flagged cells outside its open set never uncovers a flagged cell. */
  lemma RegionAvoidsFlags(sources: set<Coord>, rev: set<Coord>, flags: set<Coord>, zeros: set<Coord>, n: int)
    ensures Region(sources, Grid(n) - rev - flags, zeros) !! flags
  {
    RegionInOpen(sources, Grid(n) - rev - flags, zeros);
  }

  /** A fill reveals each of its sources that is open. */
  lemma RegionHasSources(sources: set<Coord>, open: set<Coord>, zeros: set<Coord>)
    ensures sources * open <= Region(sources, open, zeros)
  {
    forall s | s in sources * open
      ensures s in Region(sources, open, zeros)
    {
      assert IsFloodPath([s], open, zeros);
    }
  }

  /** A fill whose sources are none of them open reveals nothing. */
  lemma RegionEmpty(sources: set<Coord>, open: set<Coord>, zeros: set<Coord>)
    requires sources * open == {}
    ensures Region(sources, open, zeros) == {}
  {
    if c :| c in Region(sources, open, zeros) {
      var p :| IsFloodPath(p, open, zeros) && p[0] in sources && p[|p| - 1] == c;
      assert p[0] in sources * open;
    }
  }

  /** Revealing from the same cell a second time uncovers nothing more. */
  lemma RevealAgainChangesNothing(c: Coord, rev: set<Coord>, flags: set<Coord>, zeros: set<Coord>, n: int)
    ensures var rev1 := rev + Region({c}, Grid(n) - rev - flags, zeros);
      rev1 + Region({c}, Grid(n) - rev1 - flags, zeros) == rev1
  {
    var rev1 := rev + Region({c}, Grid(n) - rev - flags, zeros);
    RegionHasSources({c}, Grid(n) - rev - flags, zeros);
    RegionEmpty({c}, Grid(n) - rev1 - flags, zeros);
  }

  /** From a zero cell of the region the fill spreads to every open neighbour. */
  lemma {:induction false} RegionStep(sources: set<Coord>, open: set<Coord>, zeros: set<Coord>, c: Coord, d: Coord)
    requires c in Region(sources, open, zeros) && c in zeros
    requires Adjacent(c, d) && d in open
    ensures d in Region(sources, open, zeros)
  {
    var p :| IsFloodPath(p, open, zeros) && p[0] in sources && p[|p| - 1] == c;
    var q := p + [d];
    assert IsFloodPath(q, open, zeros);
  }

  /** More sources and more open cells never make a fill uncover less. */
  lemma RegionMonotone(s1: set<Coord>, s0: set<Coord>, open1: set<Coord>, open0: set<Coord>, zeros: set<Coord>)
    requires s1 <= s0 && open1 <= open0
    ensures Region(s1, open1, zeros) <= Region(s0, open0, zeros)
  {
    forall c | c in Region(s1, open1, zeros)
      ensures c in Region(s0, open0, zeros)
    {
      var p :| IsFloodPath(p, open1, zeros) && p[0] in s1 && p[|p| - 1] == c;
      assert IsFloodPath(p, open0, zeros);
    }
  }

  /**
   * A fill started later, at a neighbour nb of a zero cell s of the region,
   * over what is then still open, stays inside the region.
   */
  lemma {:induction false} RegionThrough(sources: set<Coord>, open0: set<Coord>, open1: set<Coord>, zeros: set<Coord>, s: Coord, nb: Coord)
    requires s in Region(sources, open0, zeros) && s in zeros
    requires Adjacent(s, nb) && open1 <= open0
    ensures Region({nb}, open1, zeros) <= Region(sources, open0, zeros)
  {
    var p :| IsFloodPath(p, open0, zeros) && p[0] in sources && p[|p| - 1] == s;
    forall c | c in Region({nb}, open1, zeros)
      ensures c in Region(sources, open0, zeros)
    {
      var q :| IsFloodPath(q, open1, zeros) && q[0] in {nb} && q[|q| - 1] == c;
      var pq := p + q;
      assert forall i :: 0 <= i < |q| ==> pq[|p| + i] == q[i];
      assert IsFloodPath(pq, open0, zeros);
    }
  }

  /** What a fill uncovers is closed: it stops only at revealed or flagged cells. */
  lemma RegionClosed(sources: set<Coord>, rev: set<Coord>, flags: set<Coord>, zeros: set<Coord>, n: int)
    ensures var r := Region(sources, Grid(n) - rev - flags, zeros);
      Closed(r, rev + r, flags, zeros, n)
  {
    var open := Grid(n) - rev - flags;
    forall c, d | c in Region(sources, open, zeros) && c in zeros && Adjacent(c, d) && InBounds(d, n)
      ensures d in rev + Region(sources, open, zeros) || d in flags
    {
      if d in open {
        RegionStep(sources, open, zeros, c, d);
      }
    }
  }

  lemma {:induction false} PathRevealed(p: seq<Coord>, i: int, sources: set<Coord>, rev0: set<Coord>, rev1: set<Coord>, flags: set<Coord>, zeros: set<Coord>, n: int)
    requires IsFloodPath(p, Grid(n) - rev0 - flags, zeros) && p[0] in sources && 0 <= i < |p|
    requires forall s :: s in sources && s in Grid(n) - rev0 - flags ==> s in rev1
    requires Closed(rev1 - rev0, rev1, flags, zeros, n)
    ensures p[i] in rev1
  {
    if i > 0 {
      PathRevealed(p, i - 1, sources, rev0, rev1, flags, zeros, n);
      assert p[i - 1] in rev1 - rev0 && p[i - 1] in zeros && Adjacent(p[i - 1], p[i]);
    }
  }

  /**
   * A set of revealed cells that holds every open source and is closed
   * beyond what was revealed before holds everything the fill uncovers.
   */
  lemma RegionComplete(sources: set<Coord>, rev0: set<Coord>, rev1: set<Coord>, flags: set<Coord>, zeros: set<Coord>, n: int)
    requires forall s :: s in sources && s in Grid(n) - rev0 - flags ==> s in rev1
    requires Closed(rev1 - rev0, rev1, flags, zeros, n)
    ensures Region(sources, Grid(n) - rev0 - flags, zeros) <= rev1
  {
    var open := Grid(n) - rev0 - flags;
    forall c | c in Region(sources, open, zeros)
      ensures c in rev1
    {
      var p :| IsFloodPath(p, open, zeros) && p[0] in sources && p[|p| - 1] == c;
      PathRevealed(p, |p| - 1, sources, rev0, rev1, flags, zeros, n);
    }
  }

  /**
   * On a board where no zero cell touches a mine, the only mines a fill can
   * uncover are its own sources.
   */
  lemma RegionAvoidsMines(sources: set<Coord>, open: set<Coord>, zeros: set<Coord>, mines: set<Coord>)
    requires forall z, d :: z in zeros && Adjacent(z, d) ==> d !in mines
    ensures Region(sources, open, zeros) * mines <= sources
  {
    forall c | c in Region(sources, open, zeros)
      ensures c in sources || c !in mines
    {
      var p :| IsFloodPath(p, open, zeros) && p[0] in sources && p[|p| - 1] == c;
      if |p| > 1 {
        assert p[|p| - 2] in zeros && Adjacent(p[|p| - 2], c);
      }
    }
  }

  /**
   * The fill spreads only through zero cells: every uncovered cell that is
   * not a source is next to an uncovered cell with adjacency number 0.
   */
  lemma RegionEnteredFromZero(sources: set<Coord>, open: set<Coord>, zeros: set<Coord>, c: Coord)
    requires c in Region(sources, open, zeros) && c !in sources
    ensures exists z :: z in Region(sources, open, zeros) && z in zeros && Adjacent(z, c)
  {
    var p :| IsFloodPath(p, open, zeros) && p[0] in sources && p[|p| - 1] == c;
    var z := p[|p| - 2];
    assert IsFloodPath(p[..|p| - 1], open, zeros);
    assert z in Region(sources, open, zeros);
  }

  /** Two closed stretches of reveals, seen from a later state, are closed together. */
  lemma ClosedUnion(a: set<Coord>, b: set<Coord>, ra: set<Coord>, rb: set<Coord>, rev: set<Coord>, flags: set<Coord>, zeros: set<Coord>, n: int)
    requires Closed(a, ra, flags, zeros, n) && Closed(b, rb, flags, zeros, n)
    requires ra <= rev && rb <= rev
    ensures Closed(a + b, rev, flags, zeros, n)
  {
  }

  /**
   * One step of a reveal loop: starting from the cells `before`, a fill at nb
   * uncovers part of the loop's region and keeps what it revealed closed.
   * `pending` is what the loop has yet to close (its own zero start cell).
   */
  lemma FillStep(sources: set<Coord>, pending: set<Coord>, rev0: set<Coord>, before: set<Coord>, after: set<Coord>,
                 flags: set<Coord>, zeros: set<Coord>, n: int, nb: Coord)
    requires Region({nb}, Grid(n) - before - flags, zeros) <= Region(sources, Grid(n) - rev0 - flags, zeros)
    requires rev0 <= before && before - rev0 <= Region(sources, Grid(n) - rev0 - flags, zeros)
    requires Closed(before - rev0 - pending, before, flags, zeros, n)
    requires after == before + Region({nb}, Grid(n) - before - flags, zeros)
    ensures rev0 <= after && after - rev0 <= Region(sources, Grid(n) - rev0 - flags, zeros)
    ensures Closed(after - rev0 - pending, after, flags, zeros, n)
    ensures before <= after
    ensures InBounds(nb, n) && nb !in flags ==> nb in after
  {
    var r := Region({nb}, Grid(n) - before - flags, zeros);
    RegionClosed({nb}, before, flags, zeros, n);
    ClosedUnion(before - rev0 - pending, r, before, after, after, flags, zeros, n);
    assert after - rev0 - pending <= (before - rev0 - pending) + r;
    RegionHasSources({nb}, Grid(n) - before - flags, zeros);
  }

  /**
   * The neighbour loop of a fill started at the zero cell s, after its first
   * k turns: it has revealed s and part of the region of s, what it revealed
   * past s is closed, and the first k neighbours are revealed or flagged.
   */
  ghost predicate NeighbourProgress(s: Coord, k: int, rev0: set<Coord>, cur: set<Coord>, flags: set<Coord>, zeros: set<Coord>, n: int)
  {
    0 <= k <= 8 &&
    rev0 + {s} <= cur && cur - rev0 <= Region({s}, Grid(n) - rev0 - flags, zeros) &&
    Closed(cur - rev0 - {s}, cur, flags, zeros, n) &&
    Visited(s, k) * Grid(n) - flags <= cur
  }

  lemma NeighbourLoopStart(s: Coord, rev0: set<Coord>, cur: set<Coord>, flags: set<Coord>, zeros: set<Coord>, n: int)
    requires s !in rev0 && cur == rev0 + {s}
    requires s in Region({s}, Grid(n) - rev0 - flags, zeros)
    ensures NeighbourProgress(s, 0, rev0, cur, flags, zeros, n)
  {
    assert cur - rev0 - {s} == {};
    assert cur - rev0 == {s};
  }

  /** One turn of the neighbour loop: the fill at the k-th neighbour of s. */
  lemma NeighbourLoopStep(s: Coord, k: int, rev0: set<Coord>, cur: set<Coord>, after: set<Coord>,
                          flags: set<Coord>, zeros: set<Coord>, n: int, nb: Coord, open: set<Coord>, zeros': set<Coord>)
    requires NeighbourProgress(s, k, rev0, cur, flags, zeros, n) && k < 8
    requires s in zeros && s in Region({s}, Grid(n) - rev0 - flags, zeros)
    requires nb == Shift(s, k) && open == Grid(n) - cur - flags && zeros' == zeros
    requires after == cur + Region({nb}, open, zeros')
    ensures NeighbourProgress(s, k + 1, rev0, after, flags, zeros, n)
  {
    RegionThrough({s}, Grid(n) - rev0 - flags, Grid(n) - cur - flags, zeros, s, nb);
    FillStep({s}, {s}, rev0, cur, after, flags, zeros, n, nb);
  }

  /**
   * When the neighbour loop of a fill started at the zero cell s is done,
   * what it revealed is closed, s included.
   */
  lemma NeighbourLoopDone(s: Coord, rev0: set<Coord>, cur: set<Coord>, flags: set<Coord>, zeros: set<Coord>, n: int)
    requires NeighbourProgress(s, 8, rev0, cur, flags, zeros, n)
    ensures rev0 + {s} <= cur && cur - rev0 <= Region({s}, Grid(n) - rev0 - flags, zeros)
    ensures Closed(cur - rev0, cur, flags, zeros, n)
  {
    VisitedAll(s);
  }

  /**
   * A chord's reveal loop around c after its first k turns: what it revealed
   * lies in the region of its sources and is closed, and its sources among
   * the first k neighbours are revealed.
   */
  ghost predicate ChordProgress(c: Coord, k: int, sources: set<Coord>, rev0: set<Coord>, cur: set<Coord>,
                                flags: set<Coord>, zeros: set<Coord>, n: int)
  {
    0 <= k <= 8 &&
    rev0 <= cur && cur - rev0 <= Region(sources, Grid(n) - rev0 - flags, zeros) &&
    Closed(cur - rev0, cur, flags, zeros, n) &&
    sources * Visited(c, k) <= cur
  }

  lemma ChordLoopStart(c: Coord, sources: set<Coord>, rev0: set<Coord>, flags: set<Coord>, zeros: set<Coord>, n: int)
    ensures ChordProgress(c, 0, sources, rev0, rev0, flags, zeros, n)
  {
    assert rev0 - rev0 == {};
  }

  /** One turn of a chord's reveal loop that reveals at its source, the k-th neighbour of c. */
  lemma ChordLoopStep(c: Coord, k: int, sources: set<Coord>, rev0: set<Coord>, cur: set<Coord>, after: set<Coord>,
                      flags: set<Coord>, zeros: set<Coord>, n: int, nb: Coord, open: set<Coord>, zeros': set<Coord>)
    requires ChordProgress(c, k, sources, rev0, cur, flags, zeros, n) && k < 8
    requires nb == Shift(c, k) && nb in sources && sources <= Grid(n) - flags
    requires open == Grid(n) - cur - flags && zeros' == zeros
    requires after == cur + Region({nb}, open, zeros')
    ensures ChordProgress(c, k + 1, sources, rev0, after, flags, zeros, n)
  {
    RegionMonotone({nb}, sources, Grid(n) - cur - flags, Grid(n) - rev0 - flags, zeros);
    assert cur - rev0 - {} == cur - rev0;
    FillStep(sources, {}, rev0, cur, after, flags, zeros, n, nb);
    assert after - rev0 - {} == after - rev0;
  }

  /** One turn of a chord's reveal loop that skips the k-th neighbour of c, not a source. */
  lemma ChordLoopSkip(c: Coord, k: int, sources: set<Coord>, rev0: set<Coord>, cur: set<Coord>,
                      flags: set<Coord>, zeros: set<Coord>, n: int)
    requires ChordProgress(c, k, sources, rev0, cur, flags, zeros, n) && k < 8
    requires Shift(c, k) !in sources
    ensures ChordProgress(c, k + 1, sources, rev0, cur, flags, zeros, n)
  {
    assert sources * Visited(c, k + 1) == sources * Visited(c, k);
  }

  /**
   * When a chord's reveal loop is done, all of its sources are revealed and
   * the region they flood is revealed in full.
   */
  lemma ChordLoopDone(c: Coord, sources: set<Coord>, rev0: set<Coord>, cur: set<Coord>, flags: set<Coord>, zeros: set<Coord>, n: int)
    requires ChordProgress(c, 8, sources, rev0, cur, flags, zeros, n)
    requires forall d :: d in sources ==> Adjacent(c, d)
    ensures sources <= cur
    ensures cur == rev0 + Region(sources, Grid(n) - rev0 - flags, zeros)
  {
    VisitedAll(c);
    RegionComplete(sources, rev0, cur, flags, zeros, n);
  }
}
