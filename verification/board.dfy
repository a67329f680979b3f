/** The state of a `MineSweeper` object and its single display mutator `set`. */
module Board {
  import opened Tile
  import opened Seqs
  import opened Grid

  datatype Option<T> = None | Some(value: T)

  /** One game. `logic` is the bomb/number truth, `graphic` what the player
      sees; `flags` and `hidden` are the bookkeeping lists kept by `Set`;
      `pressed` and `revealOnRelease` (the source's `pressed_positions` and
      `reveal`) stage a chord; `singlePress` is the cell held down by a
      plain left click. */
  datatype Game = Game(
    width: int, height: int, numBombs: int,
    logic: seq<seq<int>>, graphic: seq<seq<int>>,
    bombs: set<Pos>,
    flags: seq<Pos>, hidden: seq<Pos>, pressed: seq<Pos>,
    over: bool, revealOnRelease: bool, singlePress: Option<Pos>)
  {
    predicate WellFormed() {
      IsGrid(logic, width, height) && IsGrid(graphic, width, height)
    }

    predicate In(p: Pos) {
      InBounds(width, height, p)
    }

    /** `get(i, j)`: the displayed code. */
    function Get(p: Pos): int
      requires WellFormed() && In(p)
    {
      At(graphic, width, height, p)
    }

    /** The logic-grid code. */
    function Logic(p: Pos): int
      requires WellFormed() && In(p)
    {
      At(logic, width, height, p)
    }

    /** The class invariant every operation keeps. */
    ghost predicate Valid() {
      && WellFormed()
      && LayoutOk(width, height, numBombs, logic, bombs)
      && (forall p :: In(p) ==> IsTile(Get(p)))
      && Tracks(graphic, width, height, flags, FLAG)
      && Tracks(graphic, width, height, hidden, HIDDEN)
      && (forall p :: p in pressed ==> In(p))
      && (singlePress.Some? ==> In(singlePress.value))
    }

    /** `set(i, j, val)`: writes the display and keeps `flags`/`hidden` in
        step. Python's `list.remove` raises when the value is missing, so
        the removal it performs must find its cell. */
    function Set(p: Pos, val: int): (g': Game)
      requires WellFormed() && In(p)
      requires Get(p) == FLAG ==> val == FLAG || p in flags
      requires Get(p) == HIDDEN ==> val == HIDDEN || p in hidden
      ensures g' == this.(graphic := g'.graphic, flags := g'.flags, hidden := g'.hidden)
      ensures g'.WellFormed()
      ensures g'.Get(p) == val
      ensures forall q :: In(q) && q != p ==> g'.Get(q) == Get(q)
      ensures Valid() && IsTile(val) ==> g'.Valid()
      ensures val != FLAG ==> g'.flags == (if Get(p) == FLAG then RemoveFirst(flags, p) else flags)
      ensures val == FLAG && Get(p) != FLAG ==> g'.flags == flags + [p]
      ensures val != HIDDEN ==> g'.hidden == (if Get(p) == HIDDEN then RemoveFirst(hidden, p) else hidden)
    {
      var flags1 := if val == FLAG then flags + [p] else flags;
      var hidden1 := if val == FLAG then hidden else if val == HIDDEN then hidden + [p] else hidden;
      var flags2 := if Get(p) == FLAG then RemoveFirst(flags1, p) else flags1;
      var hidden2 := if Get(p) == FLAG then hidden1 else if Get(p) == HIDDEN then RemoveFirst(hidden1, p) else hidden1;
      var g' := this.(graphic := Put(graphic, width, height, p, val), flags := flags2, hidden := hidden2);
      RebookTracks(graphic, width, height, flags, p, FLAG, val);
      RebookTracks(graphic, width, height, hidden, p, HIDDEN, val);
      assert (forall q :: In(q) ==> IsTile(Get(q))) && IsTile(val) ==> forall q :: g'.In(q) ==> IsTile(g'.Get(q)) by {
        if (forall q :: In(q) ==> IsTile(Get(q))) && IsTile(val) {
          forall q | g'.In(q) ensures IsTile(g'.Get(q)) {
            if q != p { assert g'.Get(q) == Get(q); }
          }
        }
      }
      g'
    }
  }

  /** Changing only `over`, `revealOnRelease`, `pressed` or `singlePress` keeps the
      invariant, as long as the staged cells stay on the board. */
  lemma StagingKeepsValid(g: Game, h: Game)
    requires g.Valid()
    requires h == g.(over := h.over, revealOnRelease := h.revealOnRelease, pressed := h.pressed, singlePress := h.singlePress)
    requires forall p :: p in h.pressed ==> h.In(p)
    requires h.singlePress.Some? ==> h.In(h.singlePress.value)
    ensures h.Valid()
  {
    assert forall p :: h.In(p) ==> h.Get(p) == g.Get(p);
  }

  /** `set` with a code other than FLAG and HIDDEN drops the cell from
      both lists and keeps every other entry in its place. */
  lemma SetUnlists(g: Game, p: Pos, val: int)
    requires g.Valid() && g.In(p) && val != FLAG && val != HIDDEN
    ensures g.Set(p, val).flags == Without(g.flags, {p})
    ensures g.Set(p, val).hidden == Without(g.hidden, {p})
  {
    ListedIffShown(g, p);
    RemoveIfListed(g.flags, p);
    RemoveIfListed(g.hidden, p);
  }

  /** `set(i, j, HIDDEN)` drops the cell from `flags` and moves it to the
      end of `hidden`, appending it when it was not listed. */
  lemma SetHides(g: Game, p: Pos)
    requires g.Valid() && g.In(p)
    ensures g.Set(p, HIDDEN).flags == Without(g.flags, {p})
    ensures g.Set(p, HIDDEN).hidden == Without(g.hidden, {p}) + [p]
  {
    ListedIffShown(g, p);
    RemoveIfListed(g.flags, p);
    RemoveIfListed(g.hidden, p);
    if g.Get(p) == HIDDEN {
      AppendThenRemove(g.hidden, p);
    }
  }

  /** Under the invariant, a cell is in `flags` exactly when it shows FLAG,
      and in `hidden` exactly when it shows HIDDEN. */
  lemma ListedIffShown(g: Game, p: Pos)
    requires g.Valid() && g.In(p)
    ensures p in g.flags <==> g.Get(p) == FLAG
    ensures p in g.hidden <==> g.Get(p) == HIDDEN
  {
  }

  /** `get(i, j)` reads row `i`, column `j` of the display; under the
      invariant that is a tile code, FLAG exactly for the listed flags and
      HIDDEN exactly for the listed hidden cells. */
  lemma GetShows(g: Game, p: Pos)
    requires g.Valid() && g.In(p)
    ensures g.Get(p) == g.graphic[p.row][p.col]
    ensures IsTile(g.Get(p))
    ensures g.Get(p) == FLAG <==> p in g.flags
    ensures g.Get(p) == HIDDEN <==> p in g.hidden
  {
    ListedIffShown(g, p);
  }

  /** The logic grid holds exactly `numBombs` in-bounds bombs, and every
      other cell counts the bombs among its on-board neighbours. */
  ghost predicate LayoutOk(width: int, height: int, numBombs: int, logic: seq<seq<int>>, bombs: set<Pos>)
    requires IsGrid(logic, width, height)
  {
    && 0 <= numBombs <= width * height
    && |bombs| == numBombs
    && (forall p :: p in bombs ==> InBounds(width, height, p))
    && (forall p :: InBounds(width, height, p) ==> IsLogicValue(At(logic, width, height, p)))
    && (forall p :: InBounds(width, height, p) ==> (At(logic, width, height, p) == BOMB <==> p in bombs))
    && (forall p :: InBounds(width, height, p) && p !in bombs ==>
          At(logic, width, height, p) == |NeighbourBombs(width, height, bombs, p)|)
  }

  /** `list` holds exactly the cells displaying `v`, each once. */
  ghost predicate Tracks(graphic: seq<seq<int>>, width: int, height: int, list: seq<Pos>, v: int)
    requires IsGrid(graphic, width, height)
  {
    NoDup(list) &&
    forall p :: p in list <==> InBounds(width, height, p) && At(graphic, width, height, p) == v
  }

  /** The bookkeeping `set` does for one list: append the cell when the new
      code is `v`, then remove its first occurrence when the old code was
      `v`. It keeps the list tracking `v`, also when old and new are both `v`. */
  lemma RebookTracks(graphic: seq<seq<int>>, width: int, height: int, list: seq<Pos>, p: Pos, v: int, val: int)
    requires IsGrid(graphic, width, height) && InBounds(width, height, p)
    ensures Tracks(graphic, width, height, list, v) ==>
            var list1 := if val == v then list + [p] else list;
            var list2 := if At(graphic, width, height, p) == v then RemoveFirst(list1, p) else list1;
            Tracks(Put(graphic, width, height, p, val), width, height, list2, v)
  {
    var was := At(graphic, width, height, p);
    var g' := Put(graphic, width, height, p, val);
    if !Tracks(graphic, width, height, list, v) {
    } else if val == v && was == v {
      AppendThenRemove(list, p);
      RemoveFirstNoDup(list, p);
      AppendNoDup(RemoveFirst(list, p), p);
    } else if val == v {
      AppendNoDup(list, p);
    } else if was == v {
      RemoveFirstNoDup(list, p);
    }
  }

  /** A cell counting zero bombs has no bomb among its neighbours. */
  lemma ZeroHasNoBombNeighbour(g: Game, c: Pos, p: Pos)
    requires g.Valid() && g.In(c) && g.In(p) && Adjacent(c, p)
    requires g.Logic(c) == EMPTY
    ensures g.Logic(p) != BOMB
  {
    assert c !in g.bombs;
    assert p in g.bombs ==> p in NeighbourBombs(g.width, g.height, g.bombs, c);
  }
}
