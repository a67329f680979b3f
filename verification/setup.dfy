/** Construction (`__init__`) and `restart`. */
module Setup {
  import opened Tile
  import opened Seqs
  import opened Grid
  import opened Board

  /** The eight explicit tests of the constructor's counting loop: bombs
      Top, TopRight, Right, BottomRight, Bottom, BottomLeft, Left, TopLeft
      of `p`, each guarded by the board edge it could cross. */
  function CountAround(logic: seq<seq<int>>, width: int, height: int, p: Pos): nat
    requires IsGrid(logic, width, height) && InBounds(width, height, p)
  {
    var i, j := p.row, p.col;
    (if i > 0 && logic[i-1][j] == BOMB then 1 else 0)
    + (if i > 0 && j < width - 1 && logic[i-1][j+1] == BOMB then 1 else 0)
    + (if j < width - 1 && logic[i][j+1] == BOMB then 1 else 0)
    + (if i < height - 1 && j < width - 1 && logic[i+1][j+1] == BOMB then 1 else 0)
    + (if i < height - 1 && logic[i+1][j] == BOMB then 1 else 0)
    + (if i < height - 1 && j > 0 && logic[i+1][j-1] == BOMB then 1 else 0)
    + (if j > 0 && logic[i][j-1] == BOMB then 1 else 0)
    + (if i > 0 && j > 0 && logic[i-1][j-1] == BOMB then 1 else 0)
  }

  function Ind(width: int, height: int, q: Pos, X: set<Pos>): nat {
    if InBounds(width, height, q) && q in X then 1 else 0
  }

  /** Bombs among the candidates from index `k` of `Around(p)` on. */
  function IndFrom(width: int, height: int, p: Pos, k: nat, X: set<Pos>): nat
    requires k <= 8
    decreases 8 - k
  {
    if k == 8 then 0 else Ind(width, height, Around(p)[k], X) + IndFrom(width, height, p, k + 1, X)
  }

  lemma {:induction false} KeepFromCount(width: int, height: int, p: Pos, k: nat, X: set<Pos>)
    requires k <= 8
    ensures Count(KeepFrom(width, height, p, k), X) == IndFrom(width, height, p, k, X)
    decreases 8 - k
  {
    if k < 8 {
      var q := Around(p)[k];
      var rest := KeepFrom(width, height, p, k + 1);
      KeepFromCount(width, height, p, k + 1, X);
      if InBounds(width, height, q) {
        assert KeepFrom(width, height, p, k) == [q] + rest;
        assert ([q] + rest)[1..] == rest;
      } else {
        assert KeepFrom(width, height, p, k) == rest;
      }
    }
  }

  /** Counting over `__get_valid_neighbours` visits the eight directions in turn. */
  lemma CountNeighbours(width: int, height: int, p: Pos, X: set<Pos>)
    ensures var i, j := p.row, p.col;
      Count(ValidNeighbours(width, height, p), X) ==
        Ind(width, height, Pos(i-1, j), X) + Ind(width, height, Pos(i-1, j+1), X)
        + Ind(width, height, Pos(i, j+1), X) + Ind(width, height, Pos(i+1, j+1), X)
        + Ind(width, height, Pos(i+1, j), X) + Ind(width, height, Pos(i+1, j-1), X)
        + Ind(width, height, Pos(i, j-1), X) + Ind(width, height, Pos(i-1, j-1), X)
  {
    KeepFromCount(width, height, p, 0, X);
    SumDirections(width, height, p, X);
  }

  lemma SumDirections(width: int, height: int, p: Pos, X: set<Pos>)
    ensures var i, j := p.row, p.col;
      IndFrom(width, height, p, 0, X) ==
        Ind(width, height, Pos(i-1, j), X) + Ind(width, height, Pos(i-1, j+1), X)
        + Ind(width, height, Pos(i, j+1), X) + Ind(width, height, Pos(i+1, j+1), X)
        + Ind(width, height, Pos(i+1, j), X) + Ind(width, height, Pos(i+1, j-1), X)
        + Ind(width, height, Pos(i, j-1), X) + Ind(width, height, Pos(i-1, j-1), X)
  {
    var i, j := p.row, p.col;
    var a := Around(p);
    assert a[0] == Pos(i-1, j) && a[1] == Pos(i-1, j+1) && a[2] == Pos(i, j+1) && a[3] == Pos(i+1, j+1);
    assert a[4] == Pos(i+1, j) && a[5] == Pos(i+1, j-1) && a[6] == Pos(i, j-1) && a[7] == Pos(i-1, j-1);
    assert IndFrom(width, height, p, 7, X) == Ind(width, height, a[7], X);
    assert IndFrom(width, height, p, 6, X) == Ind(width, height, a[6], X) + IndFrom(width, height, p, 7, X);
    assert IndFrom(width, height, p, 5, X) == Ind(width, height, a[5], X) + IndFrom(width, height, p, 6, X);
    assert IndFrom(width, height, p, 4, X) == Ind(width, height, a[4], X) + IndFrom(width, height, p, 5, X);
    assert IndFrom(width, height, p, 3, X) == Ind(width, height, a[3], X) + IndFrom(width, height, p, 4, X);
    assert IndFrom(width, height, p, 2, X) == Ind(width, height, a[2], X) + IndFrom(width, height, p, 3, X);
    assert IndFrom(width, height, p, 1, X) == Ind(width, height, a[1], X) + IndFrom(width, height, p, 2, X);
  }

  /** The eight explicit tests agree with testing the eight directions for
      membership in `bombs`. */
  lemma CountAroundIsCount(logic: seq<seq<int>>, width: int, height: int, bombs: set<Pos>, p: Pos)
    requires IsGrid(logic, width, height) && InBounds(width, height, p)
    requires forall q :: InBounds(width, height, q) ==> (At(logic, width, height, q) == BOMB <==> q in bombs)
    ensures var i, j := p.row, p.col;
      CountAround(logic, width, height, p) ==
        Ind(width, height, Pos(i-1, j), bombs) + Ind(width, height, Pos(i-1, j+1), bombs)
        + Ind(width, height, Pos(i, j+1), bombs) + Ind(width, height, Pos(i+1, j+1), bombs)
        + Ind(width, height, Pos(i+1, j), bombs) + Ind(width, height, Pos(i+1, j-1), bombs)
        + Ind(width, height, Pos(i, j-1), bombs) + Ind(width, height, Pos(i-1, j-1), bombs)
  {
    var i, j := p.row, p.col;
    assert Ind(width, height, Pos(i-1, j), bombs) == (if i > 0 && logic[i-1][j] == BOMB then 1 else 0) by {
      if i > 0 { assert At(logic, width, height, Pos(i-1, j)) == logic[i-1][j]; } }
    assert Ind(width, height, Pos(i-1, j+1), bombs) == (if i > 0 && j < width - 1 && logic[i-1][j+1] == BOMB then 1 else 0) by {
      if i > 0 && j < width - 1 { assert At(logic, width, height, Pos(i-1, j+1)) == logic[i-1][j+1]; } }
    assert Ind(width, height, Pos(i, j+1), bombs) == (if j < width - 1 && logic[i][j+1] == BOMB then 1 else 0) by {
      if j < width - 1 { assert At(logic, width, height, Pos(i, j+1)) == logic[i][j+1]; } }
    assert Ind(width, height, Pos(i+1, j+1), bombs) == (if i < height - 1 && j < width - 1 && logic[i+1][j+1] == BOMB then 1 else 0) by {
      if i < height - 1 && j < width - 1 { assert At(logic, width, height, Pos(i+1, j+1)) == logic[i+1][j+1]; } }
    assert Ind(width, height, Pos(i+1, j), bombs) == (if i < height - 1 && logic[i+1][j] == BOMB then 1 else 0) by {
      if i < height - 1 { assert At(logic, width, height, Pos(i+1, j)) == logic[i+1][j]; } }
    assert Ind(width, height, Pos(i+1, j-1), bombs) == (if i < height - 1 && j > 0 && logic[i+1][j-1] == BOMB then 1 else 0) by {
      if i < height - 1 && j > 0 { assert At(logic, width, height, Pos(i+1, j-1)) == logic[i+1][j-1]; } }
    assert Ind(width, height, Pos(i, j-1), bombs) == (if j > 0 && logic[i][j-1] == BOMB then 1 else 0) by {
      if j > 0 { assert At(logic, width, height, Pos(i, j-1)) == logic[i][j-1]; } }
    assert Ind(width, height, Pos(i-1, j-1), bombs) == (if i > 0 && j > 0 && logic[i-1][j-1] == BOMB then 1 else 0) by {
      if i > 0 && j > 0 { assert At(logic, width, height, Pos(i-1, j-1)) == logic[i-1][j-1]; } }
  }

  /** While the logic grid marks exactly the cells of `bombs` as BOMB, the
      eight explicit tests count the bombs among the on-board neighbours. */
  lemma CountAroundIsBombCount(logic: seq<seq<int>>, width: int, height: int, bombs: set<Pos>, p: Pos)
    requires IsGrid(logic, width, height) && InBounds(width, height, p)
    requires forall q :: InBounds(width, height, q) ==> (At(logic, width, height, q) == BOMB <==> q in bombs)
    ensures CountAround(logic, width, height, p) == |NeighbourBombs(width, height, bombs, p)|
    ensures |NeighbourBombs(width, height, bombs, p)| <= 8
  {
    CountAroundIsCount(logic, width, height, bombs, p);
    CountNeighbours(width, height, p, bombs);
    var ns := ValidNeighbours(width, height, p);
    CountIsCard(ns, bombs);
    NeighbourBombsListed(width, height, bombs, p);
  }

  lemma NeighbourBombsListed(width: int, height: int, bombs: set<Pos>, p: Pos)
    ensures Elems(ValidNeighbours(width, height, p)) * bombs == NeighbourBombs(width, height, bombs, p)
  {
    var ns := ValidNeighbours(width, height, p);
    forall q ensures q in Elems(ns) * bombs <==> q in NeighbourBombs(width, height, bombs, p) {
      assert q in Elems(ns) <==> q in ns;
    }
  }

  /** Row-major order, the order of `[(i, j) for i in range(height) for j in range(width)]`. */
  predicate Before(p: Pos, q: Pos) {
    p.row < q.row || (p.row == q.row && p.col < q.col)
  }

  /** The initial `hidden_positions` list: every cell once, row by row. */
  method AllPositions(width: int, height: int) returns (ps: seq<Pos>)
    requires 0 <= width && 0 <= height
    ensures forall q :: q in ps <==> InBounds(width, height, q)
    ensures forall a, b :: 0 <= a < b < |ps| ==> Before(ps[a], ps[b])
    ensures NoDup(ps)
  {
    ps := [];
    var i := 0;
    while i < height
      invariant 0 <= i <= height
      invariant forall q :: q in ps <==> InBounds(width, height, q) && q.row < i
      invariant forall a, b :: 0 <= a < b < |ps| ==> Before(ps[a], ps[b])
    {
      var j := 0;
      while j < width
        invariant 0 <= j <= width
        invariant forall q :: q in ps <==> InBounds(width, height, q) && (q.row < i || (q.row == i && q.col < j))
        invariant forall a, b :: 0 <= a < b < |ps| ==> Before(ps[a], ps[b])
        invariant forall a :: 0 <= a < |ps| ==> Before(ps[a], Pos(i, j))
      {
        ps := ps + [Pos(i, j)];
        j := j + 1;
      }
      i := i + 1;
    }
  }

  /** The bomb-placing loop of the constructor: every bomb cell of an
      all-EMPTY logic grid becomes BOMB. Python walks a set, so the order
      is unspecified. */
  method PlaceBombs(logic: seq<seq<int>>, width: int, height: int, bombs: set<Pos>) returns (logic': seq<seq<int>>)
    requires IsGrid(logic, width, height)
    requires forall q :: InBounds(width, height, q) ==> At(logic, width, height, q) == EMPTY
    requires forall p :: p in bombs ==> InBounds(width, height, p)
    ensures Numbered(logic', width, height, bombs, 0)
  {
    logic' := logic;
    var rest := bombs;
    while rest != {}
      invariant rest <= bombs && IsGrid(logic', width, height)
      invariant forall q :: InBounds(width, height, q) ==>
        (At(logic', width, height, q) == BOMB <==> q in bombs - rest) &&
        (At(logic', width, height, q) != BOMB ==> At(logic', width, height, q) == EMPTY)
    {
      var p :| p in rest;
      logic' := Put(logic', width, height, p, BOMB);
      rest := rest - {p};
    }
  }

  /** The state of the logic grid after the numbering loop has handled the
      rows before `i`: bombs are BOMB, numbered cells hold their count of
      adjacent bombs, the rest are still EMPTY. */
  ghost predicate Numbered(logic: seq<seq<int>>, width: int, height: int, bombs: set<Pos>, i: int)
  {
    IsGrid(logic, width, height) &&
    (forall q :: InBounds(width, height, q) ==> (At(logic, width, height, q) == BOMB <==> q in bombs)) &&
    (forall q :: InBounds(width, height, q) ==> IsLogicValue(At(logic, width, height, q))) &&
    (forall q :: InBounds(width, height, q) && q !in bombs ==>
      At(logic, width, height, q) == (if q.row < i then |NeighbourBombs(width, height, bombs, q)| else EMPTY))
  }

  /** One row of the numbering loop: each non-bomb cell of row `i` gets
      the number of bombs around it. */
  method NumberRow(logic: seq<seq<int>>, width: int, height: int, bombs: set<Pos>, i: int) returns (logic': seq<seq<int>>)
    requires 0 <= i < height && Numbered(logic, width, height, bombs, i)
    ensures Numbered(logic', width, height, bombs, i + 1)
  {
    logic' := logic;
    var j := 0;
    while j < width
      invariant 0 <= j <= width && IsGrid(logic', width, height)
      invariant forall q :: InBounds(width, height, q) ==> (At(logic', width, height, q) == BOMB <==> q in bombs)
      invariant forall q :: InBounds(width, height, q) ==> IsLogicValue(At(logic', width, height, q))
      invariant forall q :: InBounds(width, height, q) && q !in bombs ==>
        At(logic', width, height, q) ==
          (if q.row < i || (q.row == i && q.col < j) then |NeighbourBombs(width, height, bombs, q)| else EMPTY)
    {
      var p := Pos(i, j);
      if logic'[i][j] != BOMB {
        var counter := CountAround(logic', width, height, p);
        CountAroundIsBombCount(logic', width, height, bombs, p);
        logic' := Put(logic', width, height, p, counter);
      }
      j := j + 1;
    }
  }

  /** `__init__` with the bomb cells given instead of sampled. */
  method Create(width: int, height: int, numBombs: int, bombs: set<Pos>) returns (g: Game)
    requires 0 <= width && 0 <= height && 0 <= numBombs <= width * height
    requires |bombs| == numBombs
    requires forall p :: p in bombs ==> InBounds(width, height, p)
    ensures g.Valid()
    ensures g.width == width && g.height == height && g.numBombs == numBombs && g.bombs == bombs
    ensures forall p :: g.In(p) ==> g.Get(p) == HIDDEN
    ensures forall p :: g.In(p) ==> (g.Logic(p) == BOMB <==> p in bombs)
    ensures forall p :: g.In(p) && p !in bombs ==> g.Logic(p) == |NeighbourBombs(width, height, bombs, p)|
    ensures forall p :: g.In(p) ==> 0 <= g.Logic(p) <= EIGHT || g.Logic(p) == BOMB
    ensures g.flags == [] && g.pressed == [] && !g.over && g.revealOnRelease && g.singlePress == None
    ensures forall p :: p in g.hidden <==> g.In(p)
    ensures NoDup(g.hidden) && forall a, b :: 0 <= a < b < |g.hidden| ==> Before(g.hidden[a], g.hidden[b])
  {
    var graphic := seq(height, _ => seq(width, _ => HIDDEN));
    var logic := seq(height, _ => seq(width, _ => EMPTY));

    logic := PlaceBombs(logic, width, height, bombs);
    var i := 0;
    while i < height
      invariant 0 <= i <= height && Numbered(logic, width, height, bombs, i)
    {
      logic := NumberRow(logic, width, height, bombs, i);
      i := i + 1;
    }
    assert forall q :: InBounds(width, height, q) ==> q.row < height;

    var hidden := AllPositions(width, height);
    g := Game(width, height, numBombs, logic, graphic, bombs, [], hidden, [], false, true, None);
  }

  /** `restart`: a fresh game with the same size and bomb count; the new
      bomb cells are an argument, as in `Create`. */
  method Restart(g: Game, bombs: set<Pos>) returns (g': Game)
    requires g.Valid()
    requires |bombs| == g.numBombs
    requires forall p :: p in bombs ==> g.In(p)
    ensures g'.Valid()
    ensures g'.width == g.width && g'.height == g.height && g'.numBombs == g.numBombs && g'.bombs == bombs
    ensures forall p :: g'.In(p) ==> g'.Get(p) == HIDDEN
    ensures forall p :: g'.In(p) ==> (g'.Logic(p) == BOMB <==> p in bombs)
    ensures forall p :: g'.In(p) && p !in bombs ==> g'.Logic(p) == |NeighbourBombs(g.width, g.height, bombs, p)|
    ensures forall p :: p in g'.hidden <==> g'.In(p)
    ensures NoDup(g'.hidden) && forall a, b :: 0 <= a < b < |g'.hidden| ==> Before(g'.hidden[a], g'.hidden[b])
    ensures g'.flags == [] && g'.pressed == [] && !g'.over && g'.revealOnRelease && g'.singlePress == None
  {
    g' := Create(g.width, g.height, g.numBombs, bombs);
  }
}
