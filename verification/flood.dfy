/** `empty_patch`: breadth-first reveal of a zero region and its border. */
module Flood {
  import opened Tile
  import opened Seqs
  import opened Grid
  import opened Board

  /** `S` is closed under stepping to an on-board zero neighbour. */
  ghost predicate ZeroClosed(g: Game, S: set<Pos>)
    requires g.WellFormed()
  {
    forall c, n :: c in S && g.In(n) && Adjacent(c, n) && g.Logic(n) == EMPTY ==> n in S
  }

  /** `p` belongs to the 8-connected zero region grown from `start`: it lies
      in every zero-closed set containing `start`. */
  ghost predicate InZeroRegion(g: Game, start: Pos, p: Pos)
    requires g.WellFormed()
  {
    forall S :: start in S && ZeroClosed(g, S) ==> p in S
  }

  /** `p` touches the zero region grown from `start`. */
  ghost predicate InBorder(g: Game, start: Pos, p: Pos)
    requires g.WellFormed()
  {
    exists c :: InZeroRegion(g, start, c) && Adjacent(c, p)
  }

  ghost predicate Touched(g: Game, start: Pos, p: Pos)
    requires g.WellFormed()
  {
    InZeroRegion(g, start, p) || InBorder(g, start, p)
  }

  /** The region and its border depend on the logic grid alone. */
  lemma TouchedSameLogic(g: Game, h: Game, start: Pos, p: Pos)
    requires g.WellFormed() && h.WellFormed()
    requires h.width == g.width && h.height == g.height && h.logic == g.logic
    ensures Touched(h, start, p) <==> Touched(g, start, p)
  {
    forall S ensures ZeroClosed(h, S) <==> ZeroClosed(g, S) {
      assert forall n :: g.In(n) ==> h.Logic(n) == g.Logic(n);
    }
    assert forall c :: InZeroRegion(h, start, c) <==> InZeroRegion(g, start, c);
  }

  /** The start of a flood lies in its own region. */
  lemma StartInRegion(g: Game, start: Pos)
    requires g.WellFormed()
    ensures Touched(g, start, start)
  {
  }

  /** A zero cell that a flood from `n` reaches floods nothing beyond what
      `n` floods itself. */
  lemma RegionAbsorbs(g: Game, n: Pos, m: Pos, q: Pos)
    requires g.WellFormed() && g.In(m) && g.Logic(m) == EMPTY
    requires Touched(g, n, m) && Touched(g, m, q)
    ensures Touched(g, n, q)
  {
    if InBorder(g, n, m) {
      var c :| InZeroRegion(g, n, c) && Adjacent(c, m);
      forall S | n in S && ZeroClosed(g, S) ensures m in S {
        assert c in S;
      }
    }
    forall x | InZeroRegion(g, m, x) ensures InZeroRegion(g, n, x) {
      forall S | n in S && ZeroClosed(g, S) ensures x in S {
        assert m in S;
      }
    }
    if InBorder(g, m, q) {
      var c :| InZeroRegion(g, m, c) && Adjacent(c, q);
      assert InZeroRegion(g, n, c);
    }
  }

  /** A flood from a zero cell never reaches a bomb: its region holds
      zero cells only, and a zero cell has no bomb around it. */
  lemma TouchedNoBomb(g: Game, n: Pos, q: Pos)
    requires g.Valid() && g.In(n) && g.Logic(n) == EMPTY
    requires g.In(q) && Touched(g, n, q)
    ensures g.Logic(q) != BOMB
  {
    var zeros := (set x | x in AllCells(g.width, g.height) && g.Logic(x) == EMPTY) + {n};
    assert ZeroClosed(g, zeros);
    if InZeroRegion(g, n, q) {
      assert q in zeros;
    } else {
      var c :| InZeroRegion(g, n, c) && Adjacent(c, q);
      assert c in zeros;
      ZeroHasNoBombNeighbour(g, c, q);
    }
  }

  /** What the search keeps true of its lists: `visited` holds zero cells
      of the region grown from `start`, `other` non-zero cells touching it,
      both without repeats. */
  ghost predicate SearchInv(g: Game, start: Pos, visited: seq<Pos>, other: seq<Pos>)
    requires g.WellFormed()
  {
    && visited != [] && visited[0] == start
    && NoDup(visited) && NoDup(other)
    && (forall v :: v in visited ==> g.In(v) && g.Logic(v) == EMPTY)
    && (forall o :: o in other ==> g.In(o) && g.Logic(o) != EMPTY)
    && (forall o :: o in other ==> exists c :: c in visited && Adjacent(c, o))
    && (forall S :: start in S && ZeroClosed(g, S) ==> forall v :: v in visited ==> v in S)
  }

  /** One neighbour `n` of the dequeued cell `c`: a zero cell not yet
      visited is appended to `visited` (and so to the queue), any other new
      cell to `other`. */
  method Visit(g: Game, start: Pos, c: Pos, n: Pos, visited: seq<Pos>, other: seq<Pos>)
    returns (visited': seq<Pos>, other': seq<Pos>)
    requires g.WellFormed() && SearchInv(g, start, visited, other) && c in visited
    requires g.In(n) && Adjacent(c, n)
    ensures SearchInv(g, start, visited', other')
    ensures |visited'| >= |visited| && forall i :: 0 <= i < |visited| ==> visited'[i] == visited[i]
    ensures forall x :: x in visited ==> x in visited'
    ensures forall x :: x in other ==> x in other'
    ensures n in visited' || n in other'
  {
    visited', other' := visited, other;
    if n !in visited {
      if g.Logic(n) == EMPTY {
        forall S | start in S && ZeroClosed(g, S) ensures n in S {
          assert c in S;
        }
        visited' := visited + [n];
      } else if n !in other {
        other' := other + [n];
      }
    }
  }

  /** The state of the neighbour loop of `Expand` after the first `m`
      entries of `ns`: the search state is kept, `visited` only grows at
      its end, `other` only grows, and those `m` neighbours are listed. */
  ghost predicate ExpandInv(g: Game, start: Pos, c: Pos, ns: seq<Pos>, m: int,
                            visited0: seq<Pos>, other0: seq<Pos>, visited: seq<Pos>, other: seq<Pos>)
  {
    && g.WellFormed() && 0 <= m <= |ns|
    && SearchInv(g, start, visited, other) && c in visited
    && |visited| >= |visited0| && visited[..|visited0|] == visited0
    && (forall o :: o in other0 ==> o in other)
    && (forall k :: 0 <= k < m ==> ns[k] in visited || ns[k] in other)
  }

  /** One turn of the neighbour loop of `Expand`. */
  method ExpandStep(g: Game, start: Pos, c: Pos, ns: seq<Pos>, m: int,
                    ghost visited0: seq<Pos>, ghost other0: seq<Pos>, visited: seq<Pos>, other: seq<Pos>)
    returns (visited': seq<Pos>, other': seq<Pos>)
    requires ExpandInv(g, start, c, ns, m, visited0, other0, visited, other) && m < |ns|
    requires g.In(ns[m]) && Adjacent(c, ns[m])
    ensures ExpandInv(g, start, c, ns, m + 1, visited0, other0, visited', other')
  {
    visited', other' := Visit(g, start, c, ns[m], visited, other);
    assert visited'[..|visited0|] == visited0 by {
      assert visited[..|visited0|] == visited0;
      assert forall i :: 0 <= i < |visited0| ==> visited'[i] == visited[i];
    }
    forall k | 0 <= k <= m ensures ns[k] in visited' || ns[k] in other' {
      if k < m {
        var x := ns[k];
        assert x in visited || x in other;
      }
    }
  }

  /** The `for neighbour in __get_valid_neighbours(i, j)` loop of the
      search, for the dequeued cell `c`. */
  method Expand(g: Game, start: Pos, c: Pos, visited: seq<Pos>, other: seq<Pos>)
    returns (visited': seq<Pos>, other': seq<Pos>)
    requires g.WellFormed() && SearchInv(g, start, visited, other) && c in visited
    ensures SearchInv(g, start, visited', other')
    ensures |visited'| >= |visited| && forall i :: 0 <= i < |visited| ==> visited'[i] == visited[i]
    ensures forall o :: o in other ==> o in other'
    ensures forall n :: g.In(n) && Adjacent(c, n) ==> n in visited' || n in other'
  {
    var ns := ValidNeighbours(g.width, g.height, c);
    visited', other' := visited, other;
    var m := 0;
    while m < |ns|
      invariant ExpandInv(g, start, c, ns, m, visited, other, visited', other')
    {
      assert ns[m] in ns;
      visited', other' := ExpandStep(g, start, c, ns, m, visited, other, visited', other');
      m := m + 1;
    }
    ExpandDone(g, start, c, ns, visited, other, visited', other');
  }

  /** The neighbour loop has gone through every neighbour of `c`. */
  lemma ExpandDone(g: Game, start: Pos, c: Pos, ns: seq<Pos>,
                   visited0: seq<Pos>, other0: seq<Pos>, visited: seq<Pos>, other: seq<Pos>)
    requires ExpandInv(g, start, c, ns, |ns|, visited0, other0, visited, other)
    requires forall n :: g.In(n) && Adjacent(c, n) ==> n in ns
    ensures |visited| >= |visited0| && forall i :: 0 <= i < |visited0| ==> visited[i] == visited0[i]
    ensures forall n :: g.In(n) && Adjacent(c, n) ==> n in visited || n in other
  {
    forall i | 0 <= i < |visited0| ensures visited[i] == visited0[i] {
      assert visited[..|visited0|][i] == visited[i];
    }
    forall n | g.In(n) && Adjacent(c, n) ensures n in visited || n in other {
      var k :| 0 <= k < |ns| && ns[k] == n;
    }
  }

  /** The search phase of `empty_patch(i, j)`: `visited` collects the zero
      region grown from `start`, `other` its non-zero border, each once. */
  method Explore(g: Game, start: Pos) returns (visited: seq<Pos>, other: seq<Pos>)
    requires g.WellFormed() && g.In(start) && g.Logic(start) == EMPTY
    ensures forall p :: p in visited <==> g.In(p) && InZeroRegion(g, start, p)
    ensures forall p :: p in other <==> g.In(p) && g.Logic(p) != EMPTY && InBorder(g, start, p)
    ensures forall p :: p in visited ==> g.Logic(p) == EMPTY
    ensures forall o :: o in other ==> exists c :: c in visited && Adjacent(c, o)
    ensures NoDup(visited) && NoDup(other) && forall p :: p in visited ==> p !in other
  {
    var queue := [start];
    visited := [start];
    other := [];
    ghost var head := 0;
    ghost var cells := AllCells(g.width, g.height);

    while queue != []
      invariant 0 <= head <= |visited| && queue == visited[head..]
      invariant SearchInv(g, start, visited, other)
      invariant forall a, n :: 0 <= a < head && g.In(n) && Adjacent(visited[a], n) ==> n in visited || n in other
      decreases cells - Elems(visited), |queue|
    {
      var c := queue[0];
      queue := queue[1..];
      head := head + 1;
      var visited0 := visited;
      visited, other := Expand(g, start, c, visited, other);
      queue := queue + visited[|visited0|..];
      assert queue == visited[head..];
      forall a, n | 0 <= a < head && g.In(n) && Adjacent(visited[a], n) ensures n in visited || n in other {
        if a < head - 1 {
          assert visited0[a] == visited[a];
          assert n in visited0 ==> n in visited;
        }
      }
      if |visited| > |visited0| {
        var x := visited[|visited0|];
        assert x !in visited0;
        assert x in cells - Elems(visited0);
      }
    }

    // head == |visited|: every visited cell has been expanded.
    assert ZeroClosed(g, Elems(visited)) by {
      forall c, n | c in Elems(visited) && g.In(n) && Adjacent(c, n) && g.Logic(n) == EMPTY
        ensures n in Elems(visited)
      {
        var a :| 0 <= a < |visited| && visited[a] == c;
      }
    }
    forall p ensures p in visited <==> g.In(p) && InZeroRegion(g, start, p) {
      if g.In(p) && InZeroRegion(g, start, p) {
        assert start in Elems(visited);
      }
    }
    forall p | g.In(p) && g.Logic(p) != EMPTY && InBorder(g, start, p) ensures p in other {
      var c :| InZeroRegion(g, start, c) && Adjacent(c, p);
      assert c in Elems(visited);
      var a :| 0 <= a < |visited| && visited[a] == c;
    }

  }

  /** The revealing loop of `empty_patch`: each listed non-bomb cell
      displays its logic value; every other cell keeps its display. */
  method ShowLogic(g: Game, all: seq<Pos>) returns (g': Game)
    requires g.Valid()
    requires forall p :: p in all ==> g.In(p) && g.Logic(p) != BOMB
    ensures g'.Valid()
    ensures g' == g.(graphic := g'.graphic, flags := g'.flags, hidden := g'.hidden)
    ensures forall p :: g.In(p) ==> g'.Get(p) == (if p in all then g.Logic(p) else g.Get(p))
    ensures g'.flags == Without(g.flags, Elems(all)) && g'.hidden == Without(g.hidden, Elems(all))
  {
    g' := g;
    var k := 0;
    WithoutNothing(g.flags);
    WithoutNothing(g.hidden);
    assert Elems(all[..0]) == {};
    while k < |all|
      invariant 0 <= k <= |all|
      invariant g'.Valid()
      invariant g' == g.(graphic := g'.graphic, flags := g'.flags, hidden := g'.hidden)
      invariant forall p :: g.In(p) ==> g'.Get(p) == (if p in all[..k] then g.Logic(p) else g.Get(p))
      invariant g'.flags == Without(g.flags, Elems(all[..k])) && g'.hidden == Without(g.hidden, Elems(all[..k]))
    {
      var p := all[k];
      ghost var h := g';
      SetUnlists(h, p, g.Logic(p));
      g' := g'.Set(p, g.Logic(p));
      assert all[..k+1] == all[..k] + [p];
      assert Elems(all[..k+1]) == Elems(all[..k]) + {p};
      WithoutTwice(g.flags, Elems(all[..k]), {p});
      WithoutTwice(g.hidden, Elems(all[..k]), {p});
      k := k + 1;
    }
    assert all[..k] == all;
  }

  /** `empty_patch(i, j)`: reveals every cell of the zero region grown from
      `start` and of its border, once each; nothing else changes. The BFS
      lists `visited` and `other` are returned alongside the game. */
  method EmptyPatch(g: Game, start: Pos) returns (g': Game, visited: seq<Pos>, other: seq<Pos>)
    requires g.Valid() && g.In(start) && g.Logic(start) == EMPTY
    ensures g'.Valid()
    ensures g' == g.(graphic := g'.graphic, flags := g'.flags, hidden := g'.hidden)
    ensures forall p :: p in visited <==> g.In(p) && InZeroRegion(g, start, p)
    ensures forall p :: p in other <==> g.In(p) && g.Logic(p) != EMPTY && InBorder(g, start, p)
    ensures NoDup(visited) && NoDup(other) && forall p :: p in visited ==> p !in other
    ensures forall p :: g.In(p) ==> g'.Get(p) == (if Touched(g, start, p) then g.Logic(p) else g.Get(p))
    ensures forall p :: g.In(p) && g.Logic(p) == BOMB ==> g'.Get(p) == g.Get(p)
    ensures forall p :: p in visited + other <==> g.In(p) && Touched(g, start, p)
    ensures g'.flags == Without(g.flags, Elems(visited + other))
    ensures g'.hidden == Without(g.hidden, Elems(visited + other))
  {
    visited, other := Explore(g, start);
    var all := visited + other;
    forall p | p in all ensures g.Logic(p) != BOMB {
      if p in other {
        var c :| c in visited && Adjacent(c, p);
        ZeroHasNoBombNeighbour(g, c, p);
      }
    }

    g' := ShowLogic(g, all);

    forall p | g.In(p) ensures p in all <==> Touched(g, start, p) {
      if InBorder(g, start, p) && g.Logic(p) == EMPTY {
        var c :| InZeroRegion(g, start, c) && Adjacent(c, p);
        assert c in Elems(visited);
        var a :| 0 <= a < |visited| && visited[a] == c;
      }
    }
  }
}
