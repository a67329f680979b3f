/** `reveal_pressed_neighours`: the button release that ends a chord. The
    cells staged in `pressed` are revealed when the chord went ahead, and
    covered again when it did not; either way the staging is cleared. */
module Release {
  import opened Tile
  import opened Seqs
  import opened Grid
  import opened Board
  import opened Play

  /** The released cell `p` shows what revealing it leaves: its own logic
      value, or a bomb face when it is a bomb. */
  ghost predicate Released(g: Game, h: Game, p: Pos) {
    && SameBoard(g, h) && g.In(p)
    && (g.Logic(p) == BOMB ==> h.Get(p) == BOMB || h.Get(p) == BOMB_EXPLODED)
    && (g.Logic(p) != BOMB ==> h.Get(p) == g.Logic(p))
  }

  /** One of the first `i` staged cells is a bomb. */
  ghost predicate HitBomb(g: Game, i: int) {
    g.WellFormed() &&
    exists a :: 0 <= a < i && a < |g.pressed| && g.In(g.pressed[a]) && g.Logic(g.pressed[a]) == BOMB
  }

  lemma HitBombStep(g: Game, i: int)
    requires g.Valid() && 0 <= i < |g.pressed|
    ensures HitBomb(g, i + 1) <==> HitBomb(g, i) || g.Logic(g.pressed[i]) == BOMB
  {
    if HitBomb(g, i + 1) && g.Logic(g.pressed[i]) != BOMB {
      var a :| 0 <= a < i + 1 && a < |g.pressed| && g.In(g.pressed[a]) && g.Logic(g.pressed[a]) == BOMB;
      assert a < i;
    }
  }

  /** The revealing loop once `i` staged cells are done: only the display
      and `over` have changed, each done cell is released, and as long as
      no bomb came up no other cell has changed. */
  ghost predicate ReleaseInv(g: Game, h: Game, i: int) {
    && g.Valid() && 0 <= i <= |g.pressed|
    && h.Valid()
    && h == g.(graphic := h.graphic, flags := h.flags, hidden := h.hidden, over := h.over)
    && (forall q :: q in g.pressed[..i] ==> Released(g, h, q))
    && (!HitBomb(g, i) ==> forall q :: g.In(q) && q !in g.pressed[..i] ==> h.Get(q) == g.Get(q))
    && Unstaged(g, g.pressed[..i], HitBomb(g, i), h)
    && BombFaces(g, h, i)
    && (!HitBomb(g, i) ==> UnlistedStaged(g, g.pressed[..i], h))
  }

  /** Each list has lost exactly the cells of `P`, the others keeping
      their order: what revealing the safe cells of `P` leaves. */
  ghost predicate UnlistedStaged(g: Game, P: seq<Pos>, h: Game) {
    h.flags == Without(g.flags, Elems(P)) && h.hidden == Without(g.hidden, Elems(P))
  }

  /** `q` is the staged bomb revealed last among the first `i` staged
      cells. */
  ghost predicate LastStagedBomb(g: Game, i: int, q: Pos) {
    exists j :: 0 <= j < i && j < |g.pressed| && g.pressed[j] == q && q in g.bombs &&
      forall k :: j < k < i && k < |g.pressed| ==> g.pressed[k] !in g.bombs
  }

  /** Among the first `i` staged cells, the bomb revealed last shows
      BOMB_EXPLODED and every other staged bomb shows BOMB: each later
      `lost_grid` turns the earlier exploded cell back into BOMB. */
  ghost predicate BombFaces(g: Game, h: Game, i: int)
    requires SameBoard(g, h) && 0 <= i <= |g.pressed|
  {
    forall q :: q in g.pressed[..i] && q in g.bombs && g.In(q) ==>
      h.Get(q) == (if LastStagedBomb(g, i, q) then BOMB_EXPLODED else BOMB)
  }

  /** A bomb among the first `i` staged cells has exactly one last one. */
  lemma LastStagedBombUnique(g: Game, i: int)
    requires g.Valid() && 0 <= i <= |g.pressed|
    ensures HitBomb(g, i) <==> exists q :: LastStagedBomb(g, i, q)
    ensures forall q1, q2 :: LastStagedBomb(g, i, q1) && LastStagedBomb(g, i, q2) ==> q1 == q2
  {
    if HitBomb(g, i) {
      var j := LastBombIndex(g, i);
      assert LastStagedBomb(g, i, g.pressed[j]);
    }
    forall q1, q2 | LastStagedBomb(g, i, q1) && LastStagedBomb(g, i, q2) ensures q1 == q2 {
      var j1 :| 0 <= j1 < i && j1 < |g.pressed| && g.pressed[j1] == q1 && q1 in g.bombs &&
        forall k :: j1 < k < i && k < |g.pressed| ==> g.pressed[k] !in g.bombs;
      var j2 :| 0 <= j2 < i && j2 < |g.pressed| && g.pressed[j2] == q2 && q2 in g.bombs &&
        forall k :: j2 < k < i && k < |g.pressed| ==> g.pressed[k] !in g.bombs;
      assert !(j1 < j2) && !(j2 < j1);
    }
    if exists q :: LastStagedBomb(g, i, q) {
      var q :| LastStagedBomb(g, i, q);
      var j :| 0 <= j < i && j < |g.pressed| && g.pressed[j] == q && q in g.bombs &&
        forall k :: j < k < i && k < |g.pressed| ==> g.pressed[k] !in g.bombs;
      assert g.In(q) && g.Logic(q) == BOMB;
    }
  }

  /** The index of the last bomb among the first `i` staged cells. */
  lemma LastBombIndex(g: Game, i: int) returns (j: int)
    requires g.Valid() && 0 <= i <= |g.pressed| && HitBomb(g, i)
    ensures 0 <= j < i && g.pressed[j] in g.bombs
    ensures forall k :: j < k < i ==> g.pressed[k] !in g.bombs
  {
    var a :| 0 <= a < i && a < |g.pressed| && g.In(g.pressed[a]) && g.Logic(g.pressed[a]) == BOMB;
    j := a;
    while exists k :: j < k < i && g.pressed[k] in g.bombs
      invariant a <= j < i && g.pressed[j] in g.bombs
      decreases i - j
    {
      var k :| j < k < i && g.pressed[k] in g.bombs;
      j := k;
    }
  }


  /** Revealing `pressed[i]`: a safe cell keeps the last bomb; a bomb
      becomes the last one, and the previous last one shows BOMB. */
  lemma BombFacesStep(g: Game, h: Game, i: int, h': Game)
    requires g.Valid() && SameBoard(g, h) && SameBoard(g, h') && 0 <= i < |g.pressed|
    requires forall q :: q in g.pressed[..i] && q in g.bombs ==> h.Get(q) == BOMB || h.Get(q) == BOMB_EXPLODED
    requires BombFaces(g, h, i)
    requires RevealedTile(g, h, g.pressed[i], h')
    ensures BombFaces(g, h', i + 1)
  {
    var p := g.pressed[i];
    Snoc(g.pressed, i);
    if p in g.bombs {
      forall q | q in g.pressed[..i + 1] && q in g.bombs && g.In(q)
        ensures h'.Get(q) == (if LastStagedBomb(g, i + 1, q) then BOMB_EXPLODED else BOMB)
      {
        LastAfterBomb(g, i, q);
        if q != p {
          assert q in g.pressed[..i];
        }
      }
    } else {
      forall q | q in g.pressed[..i + 1] && q in g.bombs && g.In(q)
        ensures h'.Get(q) == (if LastStagedBomb(g, i + 1, q) then BOMB_EXPLODED else BOMB)
      {
        LastAfterSafe(g, i, q);
        assert q != p && q in g.pressed[..i];
      }
    }
  }

  /** A staged bomb revealed at index `i` is the last one so far. */
  lemma LastAfterBomb(g: Game, i: int, q: Pos)
    requires 0 <= i < |g.pressed| && g.pressed[i] in g.bombs
    ensures LastStagedBomb(g, i + 1, q) <==> q == g.pressed[i]
  {
    if LastStagedBomb(g, i + 1, q) {
      var j :| 0 <= j < i + 1 && j < |g.pressed| && g.pressed[j] == q && q in g.bombs &&
        forall k :: j < k < i + 1 && k < |g.pressed| ==> g.pressed[k] !in g.bombs;
      assert j == i;
    }
    assert LastStagedBomb(g, i + 1, g.pressed[i]);
  }

  /** A safe cell revealed at index `i` leaves the last staged bomb as it was. */
  lemma LastAfterSafe(g: Game, i: int, q: Pos)
    requires 0 <= i < |g.pressed| && g.pressed[i] !in g.bombs
    ensures LastStagedBomb(g, i + 1, q) <==> LastStagedBomb(g, i, q)
  {
    if LastStagedBomb(g, i, q) {
      var j :| 0 <= j < i && j < |g.pressed| && g.pressed[j] == q && q in g.bombs &&
        forall k :: j < k < i && k < |g.pressed| ==> g.pressed[k] !in g.bombs;
      assert forall k :: j < k < i + 1 && k < |g.pressed| ==> g.pressed[k] !in g.bombs;
    }
    if LastStagedBomb(g, i + 1, q) {
      var j :| 0 <= j < i + 1 && j < |g.pressed| && g.pressed[j] == q && q in g.bombs &&
        forall k :: j < k < i + 1 && k < |g.pressed| ==> g.pressed[k] !in g.bombs;
      assert j < i;
    }
  }



  /** What the cells outside the released ones `P` show once `lost_grid`
      has run (`lost` set) or not: a bomb shows FLAG if it was flagged and
      otherwise BOMB after a loss; a flagged safe cell shows FLAG or
      BOMB_CROSSED; every other cell shows what it showed before. */
  ghost predicate Unstaged(g: Game, P: seq<Pos>, lost: bool, h: Game)
    requires SameBoard(g, h)
  {
    && (forall q :: g.In(q) && q !in P && q in g.bombs ==>
          h.Get(q) == (if lost && g.Get(q) != FLAG then BOMB else g.Get(q)))
    && (forall q :: g.In(q) && q !in P && q !in g.bombs && g.Get(q) != FLAG ==> h.Get(q) == g.Get(q))
    && (forall q :: g.In(q) && q !in P && q !in g.bombs && g.Get(q) == FLAG ==>
          h.Get(q) == FLAG || h.Get(q) == BOMB_CROSSED)
  }

  /** `h'` is what `reveal_tile(p)` leaves of `h`: a safe `p` shows its
      logic value and nothing else changes; a bomb `p` explodes and
      `lost_grid` shows the other bombs and crosses wrong flags. */
  ghost predicate RevealedTile(g: Game, h: Game, p: Pos, h': Game)
    requires SameBoard(g, h) && SameBoard(g, h')
  {
    && g.In(p)
    && (g.Logic(p) != BOMB ==>
          h'.Get(p) == g.Logic(p) && forall q :: g.In(q) && q != p ==> h'.Get(q) == h.Get(q))
    && (g.Logic(p) != BOMB ==> h'.flags == Without(h.flags, {p}) && h'.hidden == Without(h.hidden, {p}))
    && (g.Logic(p) == BOMB ==>
          && h'.Get(p) == BOMB_EXPLODED
          && (forall q :: g.In(q) && q != p && q in g.bombs ==>
                h'.Get(q) == (if h.Get(q) == FLAG then FLAG else BOMB))
          && (forall q :: g.In(q) && q !in g.bombs && h.Get(q) != FLAG ==> h'.Get(q) == h.Get(q))
          && (forall q :: g.In(q) && q !in g.bombs && h.Get(q) == FLAG ==>
                h'.Get(q) == FLAG || h'.Get(q) == BOMB_CROSSED))
  }

  /** `reveal_tile` on one more staged cell `p` keeps every released cell
      released and releases `p`. */
  lemma ReleasedStep(g: Game, P: seq<Pos>, h: Game, p: Pos, h': Game)
    requires g.Valid() && SameBoard(g, h) && SameBoard(g, h')
    requires forall q :: q in P ==> Released(g, h, q)
    requires RevealedTile(g, h, p, h')
    ensures forall q :: q in P + [p] ==> Released(g, h', q)
  {
    forall q | q in P + [p] ensures Released(g, h', q) {
      if q != p {
        assert Released(g, h, q);
        assert g.Logic(q) == BOMB <==> q in g.bombs;
      }
    }
  }

  /** `reveal_tile` on one more staged cell `p` keeps the cells outside
      the released ones as `Unstaged` describes. */
  lemma UnstagedStep(g: Game, P: seq<Pos>, lost: bool, h: Game, p: Pos, h': Game)
    requires g.Valid() && SameBoard(g, h) && SameBoard(g, h') && g.In(p)
    requires Unstaged(g, P, lost, h)
    requires RevealedTile(g, h, p, h')
    ensures Unstaged(g, P + [p], lost || g.Logic(p) == BOMB, h')
  {
    forall q | g.In(q) && q !in P + [p] && q in g.bombs
      ensures h'.Get(q) == (if (lost || g.Logic(p) == BOMB) && g.Get(q) != FLAG then BOMB else g.Get(q))
    {
      assert q !in P && q != p;
    }
    forall q | g.In(q) && q !in P + [p] && q !in g.bombs
      ensures g.Get(q) != FLAG ==> h'.Get(q) == g.Get(q)
      ensures g.Get(q) == FLAG ==> h'.Get(q) == FLAG || h'.Get(q) == BOMB_CROSSED
    {
      assert q !in P && q != p;
    }
  }

  /** `reveal_tile` on the staged cell `pressed[i]`. */
  method ReleaseOne(ghost g: Game, h: Game, i: int) returns (h': Game)
    requires ReleaseInv(g, h, i) && i < |g.pressed|
    ensures ReleaseInv(g, h', i + 1)
    ensures h'.over == (h.over || g.Logic(g.pressed[i]) == BOMB)
  {
    var p := h.pressed[i];
    h' := RevealTile(h, p);
    ListedIffShown(h, p);
    RemoveIfListed(h.flags, p);
    RemoveIfListed(h.hidden, p);
    assert RevealedTile(g, h, p, h');
    ReleaseNext(g, h, i, h');
  }

  /** The loop's state after `reveal_tile` on `pressed[i]`. */
  lemma ReleaseNext(g: Game, h: Game, i: int, h': Game)
    requires ReleaseInv(g, h, i) && i < |g.pressed|
    requires h'.Valid() && SameBoard(g, h')
    requires h' == h.(graphic := h'.graphic, flags := h'.flags, hidden := h'.hidden, over := h'.over)
    requires h'.over == (h.over || g.Logic(g.pressed[i]) == BOMB)
    requires RevealedTile(g, h, g.pressed[i], h')
    ensures ReleaseInv(g, h', i + 1)
  {
    var p := g.pressed[i];
    Snoc(g.pressed, i);
    HitBombStep(g, i);
    assert Unstaged(g, g.pressed[..i + 1], HitBomb(g, i + 1), h') by {
      UnstagedStep(g, g.pressed[..i], HitBomb(g, i), h, p, h');
    }
    assert forall q :: q in g.pressed[..i + 1] ==> Released(g, h', q) by {
      ReleasedStep(g, g.pressed[..i], h, p, h');
    }
    assert BombFaces(g, h', i + 1) by {
      BombFacesStep(g, h, i, h');
    }
    if !HitBomb(g, i + 1) {
      assert UnlistedStaged(g, g.pressed[..i + 1], h') by {
        UnlistedStep(g, h, i, h');
      }
    }
  }

  /** Revealing the safe staged cell `pressed[i]` drops it from both lists. */
  lemma UnlistedStep(g: Game, h: Game, i: int, h': Game)
    requires 0 <= i < |g.pressed|
    requires UnlistedStaged(g, g.pressed[..i], h)
    requires h'.flags == Without(h.flags, {g.pressed[i]}) && h'.hidden == Without(h.hidden, {g.pressed[i]})
    ensures UnlistedStaged(g, g.pressed[..i + 1], h')
  {
    Snoc(g.pressed, i);
    WithoutTwice(g.flags, Elems(g.pressed[..i]), {g.pressed[i]});
    WithoutTwice(g.hidden, Elems(g.pressed[..i]), {g.pressed[i]});
  }

  /** `self.over = self.reveal_tile(i, j)` on `pressed[i]`: the call
      returns None, so `over` ends false even when the cell was a bomb. */
  method ReleaseNone(ghost g: Game, h: Game, i: int) returns (h': Game)
    requires ReleaseInv(g, h, i) && i < |g.pressed|
    ensures ReleaseInv(g, h', i + 1) && !h'.over
  {
    var h1 := ReleaseOne(g, h, i);
    h' := h1.(over := false);
    OverKeepsRelease(g, h1, h', i + 1);
  }

  /** One entry of the corrected loop: the game is over once any staged
      cell so far holds a bomb. */
  method ReleaseCounted(ghost g: Game, h: Game, i: int) returns (h': Game)
    requires ReleaseInv(g, h, i) && i < |g.pressed|
    requires h.over == (g.over || HitBomb(g, i))
    ensures ReleaseInv(g, h', i + 1)
    ensures h'.over == (g.over || HitBomb(g, i + 1))
  {
    h' := ReleaseOne(g, h, i);
    HitBombStep(g, i);
  }

  /** A change of `over` alone keeps the revealing loop's state. */
  lemma OverKeepsRelease(g: Game, h: Game, h': Game, i: int)
    requires ReleaseInv(g, h, i)
    requires h' == h.(over := h'.over)
    ensures ReleaseInv(g, h', i)
  {
    StagingKeepsValid(h, h');
    assert forall q :: h.In(q) ==> h'.Get(q) == h.Get(q);
    assert Unstaged(g, g.pressed[..i], HitBomb(g, i), h');
  }

  /** The covering loop once `i` staged cells are done. */
  ghost predicate HideInv(g: Game, h: Game, i: int) {
    && g.Valid() && 0 <= i <= |g.pressed|
    && h.Valid()
    && h == g.(graphic := h.graphic, flags := h.flags, hidden := h.hidden)
    && (forall q :: g.In(q) ==> h.Get(q) == (if q in g.pressed[..i] then HIDDEN else g.Get(q)))
    && h.flags == Without(g.flags, Elems(g.pressed[..i]))
    && h.hidden == Without(g.hidden, Elems(g.pressed[..i])) + LastOrder(g.pressed[..i])
  }

  /** `set(i, j, HIDDEN)` on the staged cell `pressed[i]`. */
  method HideOne(ghost g: Game, h: Game, i: int) returns (h': Game)
    requires HideInv(g, h, i) && i < |g.pressed|
    ensures HideInv(g, h', i + 1)
  {
    var p := h.pressed[i];
    ListedIffShown(h, p);
    h' := h.Set(p, HIDDEN);
    Snoc(g.pressed, i);
    SetHides(h, p);
    HideLists(g, h, i, h');
  }

  /** `set(i, j, HIDDEN)` on `pressed[i]` drops it from `flags` and moves
      it to the end of `hidden`. */
  lemma HideLists(g: Game, h: Game, i: int, h': Game)
    requires 0 <= i < |g.pressed|
    requires h.flags == Without(g.flags, Elems(g.pressed[..i]))
    requires h.hidden == Without(g.hidden, Elems(g.pressed[..i])) + LastOrder(g.pressed[..i])
    requires h'.flags == Without(h.flags, {g.pressed[i]})
    requires h'.hidden == Without(h.hidden, {g.pressed[i]}) + [g.pressed[i]]
    ensures h'.flags == Without(g.flags, Elems(g.pressed[..i + 1]))
    ensures h'.hidden == Without(g.hidden, Elems(g.pressed[..i + 1])) + LastOrder(g.pressed[..i + 1])
  {
    var p, A := g.pressed[i], Elems(g.pressed[..i]);
    var L := LastOrder(g.pressed[..i]);
    Snoc(g.pressed, i);
    assert h'.flags == Without(g.flags, A + {p}) by {
      WithoutTwice(g.flags, A, {p});
    }
    assert Without(h.hidden, {p}) == Without(g.hidden, A + {p}) + Without(L, {p}) by {
      WithoutAppend(Without(g.hidden, A), L, {p});
      WithoutTwice(g.hidden, A, {p});
    }
  }

  /** The covering branch: every staged cell shows HIDDEN again. */
  method HideAll(g: Game) returns (g': Game)
    requires g.Valid()
    ensures g'.Valid()
    ensures g' == g.(graphic := g'.graphic, flags := g'.flags, hidden := g'.hidden)
    ensures forall q :: g.In(q) ==> g'.Get(q) == (if q in g.pressed then HIDDEN else g.Get(q))
    ensures g'.flags == Without(g.flags, Elems(g.pressed))
    ensures g'.hidden == Without(g.hidden, Elems(g.pressed)) + LastOrder(g.pressed)
  {
    g' := g;
    var i := 0;
    assert Elems(g.pressed[..0]) == {} && g.pressed[..0] == [];
    WithoutNothing(g.flags);
    WithoutNothing(g.hidden);
    while i < |g.pressed|
      invariant HideInv(g, g', i)
    {
      g' := HideOne(g, g', i);
      i := i + 1;
    }
    assert g.pressed[..i] == g.pressed;
  }

  /** `reveal_pressed_neighours()`. With `revealOnRelease` set, each staged cell is
      revealed through `reveal_tile`, and `over` takes that call's result,
      which is always `None`: so `over` ends false whenever a cell was
      staged, even after a staged bomb exploded. The `if self.over` test
      that follows can never pass, so its `lost_grid` call is left out.
      With `revealOnRelease` clear, the staged cells are covered again. Either way
      `pressed` is emptied and `revealOnRelease` set. */
  method RevealPressedNeighbours(g: Game) returns (g': Game)
    requires g.Valid()
    ensures g'.Valid() && g'.pressed == [] && g'.revealOnRelease
    ensures !g.revealOnRelease ==>
      g' == g.(graphic := g'.graphic, flags := g'.flags, hidden := g'.hidden, pressed := [], revealOnRelease := true) &&
      Recovered(g, g')
    ensures g.revealOnRelease ==>
      g' == g.(graphic := g'.graphic, flags := g'.flags, hidden := g'.hidden, over := g'.over,
               pressed := [], revealOnRelease := true) &&
      ReleasedAll(g, g')
    ensures g.revealOnRelease ==> (g'.over <==> g.over && g.pressed == [])
  {
    g' := g;
    if g.pressed != [] {
      if g.revealOnRelease {
        g' := RevealStaged(g);
      } else {
        g' := HideAll(g);
        assert Recovered(g, g');
      }
    } else {
      NothingStaged(g);
    }
    var h := g';
    g' := g'.(pressed := [], revealOnRelease := true);
    StagingKeepsValid(h, g');
    Unstage(g, h, g');
  }

  /** The revealing loop as written: `reveal_tile` on each staged cell in
      turn, with `over` overwritten by its `None` result each time. */
  method RevealStaged(g: Game) returns (h: Game)
    requires g.Valid() && g.pressed != []
    ensures h.Valid() && h == g.(graphic := h.graphic, flags := h.flags, hidden := h.hidden, over := false)
    ensures ReleasedAll(g, h)
  {
    h := g;
    var i := 0;
    ReleaseStart(g);
    while i < |g.pressed|
      invariant ReleaseInv(g, h, i)
      invariant 0 < i ==> !h.over
    {
      h := ReleaseNone(g, h, i);
      i := i + 1;
    }
    ReleaseDone(g, h);
  }

  /** The revealing loop as evidently intended: `over` records every
      staged bomb that goes off. */
  method RevealStagedFixed(g: Game) returns (h: Game)
    requires g.Valid()
    ensures h.Valid() && h == g.(graphic := h.graphic, flags := h.flags, hidden := h.hidden, over := h.over)
    ensures h.over == (g.over || HitBomb(g, |g.pressed|))
    ensures ReleasedAll(g, h)
  {
    h := g;
    var i := 0;
    ReleaseStart(g);
    while i < |g.pressed|
      invariant ReleaseInv(g, h, i)
      invariant h.over == (g.over || HitBomb(g, i))
    {
      h := ReleaseCounted(g, h, i);
      i := i + 1;
    }
    ReleaseDone(g, h);
  }

  /** Before the loop no staged cell has been revealed. */
  lemma NothingUnlisted(g: Game)
    ensures UnlistedStaged(g, g.pressed[..0], g)
  {
    assert Elems(g.pressed[..0]) == {};
    WithoutNothing(g.flags);
    WithoutNothing(g.hidden);
  }

  /** The revealing loop starts from the game itself, no bomb met yet. */
  lemma ReleaseStart(g: Game)
    requires g.Valid()
    ensures ReleaseInv(g, g, 0) && !HitBomb(g, 0)
  {
    NothingUnlisted(g);
  }

  /** The revealing loop has gone through every staged cell. */
  lemma ReleaseDone(g: Game, h: Game)
    requires ReleaseInv(g, h, |g.pressed|)
    ensures h.Valid() && h == g.(graphic := h.graphic, flags := h.flags, hidden := h.hidden, over := h.over)
    ensures ReleasedAll(g, h)
  {
    assert g.pressed[..|g.pressed|] == g.pressed;
  }

  /** What revealing every staged cell leaves: each staged cell released;
      the bomb revealed last shows BOMB_EXPLODED and every other staged
      bomb BOMB; without a staged bomb no other cell changes and each list
      has lost exactly the staged cells, and after one the other cells are
      as `lost_grid` leaves them. */
  ghost predicate ReleasedAll(g: Game, h: Game) {
    && g.Valid() && SameBoard(g, h)
    && (forall q :: q in g.pressed ==> Released(g, h, q))
    && (forall q :: q in g.pressed && q in g.bombs ==>
          h.Get(q) == (if LastStagedBomb(g, |g.pressed|, q) then BOMB_EXPLODED else BOMB))
    && (!HitBomb(g, |g.pressed|) ==> forall q :: g.In(q) && q !in g.pressed ==> h.Get(q) == g.Get(q))
    && Unstaged(g, g.pressed, HitBomb(g, |g.pressed|), h)
    && (!HitBomb(g, |g.pressed|) ==> UnlistedStaged(g, g.pressed, h))
  }

  /** What covering every staged cell leaves: the staged cells show
      HIDDEN and every other cell as before; `flags` loses the staged
      cells, and `hidden` keeps its other entries in order followed by
      the staged cells in the order they were last staged. */
  ghost predicate Recovered(g: Game, h: Game) {
    && g.Valid() && SameBoard(g, h)
    && (forall q :: g.In(q) ==> h.Get(q) == (if q in g.pressed then HIDDEN else g.Get(q)))
    && h.flags == Without(g.flags, Elems(g.pressed))
    && h.hidden == Without(g.hidden, Elems(g.pressed)) + LastOrder(g.pressed)
  }

  /** With nothing staged, the release changes no cell and no list. */
  lemma NothingStaged(g: Game)
    requires g.Valid() && g.pressed == []
    ensures ReleasedAll(g, g) && Recovered(g, g)
  {
    assert Elems(g.pressed) == {};
    WithoutNothing(g.flags);
    WithoutNothing(g.hidden);
    assert !HitBomb(g, 0);
  }

  /** Clearing the staging fields keeps what the release showed. */
  lemma Unstage(g: Game, h: Game, h': Game)
    requires g.Valid() && SameBoard(g, h)
    requires h' == h.(pressed := [], revealOnRelease := true)
    ensures ReleasedAll(g, h) ==> ReleasedAll(g, h')
    ensures Recovered(g, h) ==> Recovered(g, h')
  {
    assert forall q :: h.In(q) ==> h'.Get(q) == h.Get(q);
  }


  /** `reveal_pressed_neighours()` as evidently intended: `over` records a
      staged bomb going off and keeps a loss that happened before. */
  method RevealPressedNeighboursFixed(g: Game) returns (g': Game)
    requires g.Valid()
    ensures g'.Valid() && g'.pressed == [] && g'.revealOnRelease
    ensures !g.revealOnRelease ==>
      g' == g.(graphic := g'.graphic, flags := g'.flags, hidden := g'.hidden, pressed := [], revealOnRelease := true) &&
      Recovered(g, g')
    ensures g.revealOnRelease ==>
      g' == g.(graphic := g'.graphic, flags := g'.flags, hidden := g'.hidden, over := g'.over,
               pressed := [], revealOnRelease := true) &&
      ReleasedAll(g, g')
    ensures g.revealOnRelease ==> (g'.over <==> g.over || HitBomb(g, |g.pressed|))
  {
    g' := g;
    if g.pressed != [] {
      if g.revealOnRelease {
        g' := RevealStagedFixed(g);
      } else {
        g' := HideAll(g);
        assert Recovered(g, g');
      }
    } else {
      NothingStaged(g);
    }
    var h := g';
    g' := g'.(pressed := [], revealOnRelease := true);
    StagingKeepsValid(h, g');
    Unstage(g, h, g');
  }

  /** A chord that does not go ahead: `pressed_neighbours(i, j)` meets a
      flag count of zero or one different from the cell's number, and the
      release that follows covers the staged cells again. The staged cells
      were hidden already, so the board shows what it showed before, apart
      from cells an earlier press had staged. */
  method CancelledChord(g: Game, p: Pos) returns (g': Game)
    requires g.Valid() && g.In(p)
    requires FlagsAround(g, p) == 0 || FlagsAround(g, p) != g.Logic(p)
    ensures g'.Valid() && g'.pressed == [] && g'.revealOnRelease
    ensures g' == g.(graphic := g'.graphic, flags := g'.flags, hidden := g'.hidden, pressed := [], revealOnRelease := true)
    ensures forall q :: g.In(q) ==> g'.Get(q) == (if q in g.pressed then HIDDEN else g.Get(q))
    ensures exists added ::
      && StagedAround(g, p, added)
      && g'.flags == Without(g.flags, Elems(g.pressed + added))
      && g'.hidden == Without(g.hidden, Elems(g.pressed + added)) + LastOrder(g.pressed + added)
  {
    var g1 := PressedNeighbours(g, p);
    g' := RevealPressedNeighbours(g1);
    assert g1.pressed == g.pressed + g1.pressed[|g.pressed|..] by {
      assert g1.pressed == g1.pressed[..|g.pressed|] + g1.pressed[|g.pressed|..];
    }
    forall q | g.In(q) ensures g'.Get(q) == (if q in g.pressed then HIDDEN else g.Get(q)) {
      assert g1.Get(q) == g.Get(q);
    }
  }

  /** The discrepancy: with `revealOnRelease` set and a bomb among the staged
      cells, the board released as written shows that bomb uncovered while
      the game goes on; the corrected release ends the game. The
      requirements on `g1` and `g2` are what `RevealPressedNeighbours` and
      `RevealPressedNeighboursFixed` ensure of their results from `g`. */
  lemma StagedBombIgnored(g: Game, g1: Game, g2: Game, b: Pos)
    requires g.Valid() && g.revealOnRelease && b in g.pressed && g.Logic(b) == BOMB
    requires SameBoard(g, g1) && forall q :: q in g.pressed ==> Released(g, g1, q)
    requires g1.over == (g.over && g.pressed == [])
    requires g2.over == (g.over || HitBomb(g, |g.pressed|))
    ensures g1.Get(b) == BOMB || g1.Get(b) == BOMB_EXPLODED
    ensures !g1.over && g2.over
  {
    assert Released(g, g1, b);
    var a :| 0 <= a < |g.pressed| && g.pressed[a] == b;
  }
}
