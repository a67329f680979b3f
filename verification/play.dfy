/** The player-facing operations of `MineSweeper`: single reveals, chords,
    auto-flagging and the win test. */
module Play {
  import opened Tile
  import opened Seqs
  import opened Grid
  import opened Board
  import opened Flood
  import opened Loss

  /** `reveal_tile(i, j)`: the cell shows its logic value; a bomb loses the
      game through `lost_grid`, anything else changes only that cell. */
  method RevealTile(g: Game, p: Pos) returns (g': Game)
    requires g.Valid() && g.In(p)
    ensures g'.Valid()
    ensures g.Logic(p) != BOMB ==> g' == g.(graphic := g'.graphic, flags := g'.flags, hidden := g'.hidden)
    ensures g.Logic(p) != BOMB ==>
      g'.Get(p) == g.Logic(p) && forall q :: g.In(q) && q != p ==> g'.Get(q) == g.Get(q)
    ensures g.Logic(p) != BOMB ==>
      && g'.flags == (if g.Get(p) == FLAG then RemoveFirst(g.flags, p) else g.flags)
      && g'.hidden == (if g.Get(p) == HIDDEN then RemoveFirst(g.hidden, p) else g.hidden)
    ensures g.Logic(p) == BOMB ==>
      g' == g.(graphic := g'.graphic, flags := g'.flags, hidden := g'.hidden, over := true) &&
      g'.Get(p) == BOMB_EXPLODED
    ensures g.Logic(p) == BOMB ==> forall q :: g.In(q) && q != p && q in g.bombs ==>
      g'.Get(q) == (if g.Get(q) == FLAG then FLAG else BOMB)
    ensures g.Logic(p) == BOMB ==> forall q :: g.In(q) && q !in g.bombs && g.Get(q) != FLAG ==>
      g'.Get(q) == g.Get(q)
    ensures g.Logic(p) == BOMB ==> forall q :: g.In(q) && q !in g.bombs && g.Get(q) == FLAG ==>
      g'.Get(q) == FLAG || g'.Get(q) == BOMB_CROSSED
    ensures g.Logic(p) == BOMB ==>
      var F := if p in g.flags then RemoveFirst(g.flags, p) else g.flags;
      forall s :: 0 <= s < |F| && F[s] !in g.bombs ==>
        g'.Get(F[s]) == (if Crossed(F, g.bombs, s) then BOMB_CROSSED else FLAG)
  {
    ListedIffShown(g, p);
    var g1 := g.Set(p, g.Logic(p));
    g' := g1;
    if g1.Get(p) == BOMB {
      ListedIffShown(g1, p);
      assert g1.flags == (if p in g.flags then RemoveFirst(g.flags, p) else g.flags) && p !in g1.flags;
      g' := LostGrid(g1, p);
    }
  }

  /** `check_single_press`: a held cell is revealed, a zero cell floods its
      region and border, and the held cell is released. */
  method CheckSinglePress(g: Game) returns (g': Game)
    requires g.Valid()
    ensures g'.Valid() && g'.singlePress == None
    ensures g.singlePress == None ==> g' == g
    ensures g.singlePress.Some? && g.Logic(g.singlePress.value) == BOMB ==>
      g' == g.(graphic := g'.graphic, flags := g'.flags, hidden := g'.hidden, over := true, singlePress := None) &&
      g'.Get(g.singlePress.value) == BOMB_EXPLODED
    ensures g.singlePress.Some? && g.Logic(g.singlePress.value) == BOMB ==>
      var p := g.singlePress.value;
      && (forall q :: g.In(q) && q != p && q in g.bombs ==>
            g'.Get(q) == (if g.Get(q) == FLAG then FLAG else BOMB))
      && (forall q :: g.In(q) && q !in g.bombs && g.Get(q) != FLAG ==> g'.Get(q) == g.Get(q))
      && (forall q :: g.In(q) && q !in g.bombs && g.Get(q) == FLAG ==>
            g'.Get(q) == FLAG || g'.Get(q) == BOMB_CROSSED)
    ensures g.singlePress.Some? && g.Logic(g.singlePress.value) == BOMB ==>
      var p := g.singlePress.value;
      var F := if p in g.flags then RemoveFirst(g.flags, p) else g.flags;
      forall s :: 0 <= s < |F| && F[s] !in g.bombs ==>
        g'.Get(F[s]) == (if Crossed(F, g.bombs, s) then BOMB_CROSSED else FLAG)
    ensures g.singlePress.Some? && g.Logic(g.singlePress.value) != BOMB ==>
      var p := g.singlePress.value;
      g' == g.(graphic := g'.graphic, flags := g'.flags, hidden := g'.hidden, singlePress := None) &&
      forall q :: g.In(q) ==>
        g'.Get(q) == (if q == p || (g.Logic(p) == EMPTY && Touched(g, p, q)) then g.Logic(q) else g.Get(q))
    ensures g.singlePress.Some? && g.Logic(g.singlePress.value) != BOMB ==>
      var U := SweptCells(g, {g.singlePress.value});
      g'.flags == Without(g.flags, U) && g'.hidden == Without(g.hidden, U)
  {
    g' := g;
    if g.singlePress.Some? {
      var p := g.singlePress.value;
      g' := RevealTile(g, p);
      var g1 := g';
      ghost var all: seq<Pos> := [];
      if g'.Get(p) == EMPTY {
        var visited, other;
        g', visited, other := EmptyPatch(g1, p);
        forall q | g.In(q) ensures Touched(g1, p, q) <==> Touched(g, p, q) {
          TouchedSameLogic(g, g1, p, q);
        }
        StartInRegion(g, p);
        all := visited + other;
      }
      if g.Logic(p) != BOMB {
        SinglePressLists(g, p, g1, all, g');
      }
      StagingKeepsValid(g', g'.(singlePress := None));
      g' := g'.(singlePress := None);
    }
  }

  /** The lists after a safe single press on `p`: `reveal_tile` drops `p`
      from them, and a flood from a zero `p` drops the cells `all` it
      touched, so each list loses exactly the cells the press swept. */
  lemma SinglePressLists(g: Game, p: Pos, g1: Game, all: seq<Pos>, g2: Game)
    requires g.Valid() && g.In(p) && g.Logic(p) != BOMB
    requires g1.flags == (if g.Get(p) == FLAG then RemoveFirst(g.flags, p) else g.flags)
    requires g1.hidden == (if g.Get(p) == HIDDEN then RemoveFirst(g.hidden, p) else g.hidden)
    requires g.Logic(p) == EMPTY ==> forall q :: q in all <==> g.In(q) && Touched(g, p, q)
    requires g.Logic(p) == EMPTY ==>
      g2.flags == Without(g1.flags, Elems(all)) && g2.hidden == Without(g1.hidden, Elems(all))
    requires g.Logic(p) != EMPTY ==> g2.flags == g1.flags && g2.hidden == g1.hidden
    ensures g2.flags == Without(g.flags, SweptCells(g, {p}))
    ensures g2.hidden == Without(g.hidden, SweptCells(g, {p}))
  {
    var A := if g.Logic(p) == EMPTY then Elems(all) else {};
    forall q | g.In(q) ensures q in {p} + A <==> q in SweptCells(g, {p}) {
      if g.Logic(p) == EMPTY && Touched(g, p, q) {
        assert p in {p};
      }
    }
    ListedIffShown(g, p);
    assert g1.flags == Without(g.flags, {p}) by {
      RemoveIfListed(g.flags, p);
    }
    assert g1.hidden == Without(g.hidden, {p}) by {
      RemoveIfListed(g.hidden, p);
    }
    assert g2.flags == Without(g1.flags, A) && g2.hidden == Without(g1.hidden, A) by {
      WithoutNothing(g1.flags);
      WithoutNothing(g1.hidden);
    }
    DropSwept(g, p, g.flags, A);
    DropSwept(g, p, g.hidden, A);
  }

  /** Dropping `p` and then the cells `A` it flooded is dropping what the
      press swept. */
  lemma DropSwept(g: Game, p: Pos, s: seq<Pos>, A: set<Pos>)
    requires g.WellFormed() && forall q :: q in s ==> g.In(q)
    requires forall q :: g.In(q) ==> (q in {p} + A <==> q in SweptCells(g, {p}))
    ensures Without(Without(s, {p}), A) == Without(s, SweptCells(g, {p}))
  {
    WithoutTwice(s, {p}, A);
    WithoutSame(s, {p} + A, SweptCells(g, {p}));
  }


  /** The state of the auto-flag loop over `H`, the hidden list when the
      loop began: `h` is the game so far and `k` the iterator index into the
      live list `h.hidden`. Each turn flags the cell under the iterator,
      which drops it from the live list, so the iterator has flagged
      `H[0], H[2], ..., H[2k - 2]`; the survivors `H[1], H[3], ...` sit
      before it and `H[2k..]` after it. */
  ghost predicate FinishInv(g: Game, H: seq<Pos>, h: Game, k: int) {
    && g.Valid() && H == g.hidden
    && 0 <= k && 2 * k <= |H| + 1
    && h.flags == g.flags + EvenEntries(H, k)
    && |h.hidden| == |H| - k
    && (forall s :: 0 <= s < k && s < |h.hidden| ==> h.hidden[s] == H[2 * s + 1])
    && (forall s :: k <= s < |h.hidden| ==> h.hidden[s] == H[s + k])
    && h.Valid()
    && h == g.(graphic := h.graphic, flags := h.flags, hidden := h.hidden)
    && (forall t :: 0 <= t < |H| ==> h.Get(H[t]) == (if t < 2 * k && t % 2 == 0 then FLAG else HIDDEN))
    && (forall q :: g.In(q) && q !in H ==> h.Get(q) == g.Get(q))
  }

  /** The first `k` entries of `H` at even indices, `H[0], H[2], ...,
      H[2k - 2]`: the cells the auto-flag loop has flagged after `k`
      turns, in the order `set` appended them to the flag list. */
  function EvenEntries(H: seq<Pos>, k: nat): (r: seq<Pos>)
    requires 2 * k <= |H| + 1
    ensures |r| == k
    ensures forall s :: 0 <= s < k ==> r[s] == H[2 * s]
  {
    if k == 0 then [] else EvenEntries(H, k - 1) + [H[2 * (k - 1)]]
  }

  /** Dropping the entry under the iterator from the live hidden list
      keeps the survivors-then-rest shape one turn later. */
  lemma DropKeepsShape(cur: seq<Pos>, H: seq<Pos>, k: int)
    requires 0 <= k < |cur| && |cur| == |H| - k
    requires forall s :: 0 <= s < k ==> cur[s] == H[2 * s + 1]
    requires forall s :: k <= s < |cur| ==> cur[s] == H[s + k]
    ensures var r := cur[..k] + cur[k + 1..];
      && |r| == |H| - (k + 1)
      && (forall s :: 0 <= s < k + 1 && s < |r| ==> r[s] == H[2 * s + 1])
      && (forall s :: k + 1 <= s < |r| ==> r[s] == H[s + k + 1])
  {
    var r := cur[..k] + cur[k + 1..];
    forall s | 0 <= s < |r| ensures r[s] == if s < k then cur[s] else cur[s + 1] {
    }
  }

  /** One turn of the auto-flag loop. */
  method FlagAt(ghost g: Game, ghost H: seq<Pos>, h: Game, k: int) returns (h': Game)
    requires FinishInv(g, H, h, k) && k < |h.hidden|
    ensures FinishInv(g, H, h', k + 1)
  {
    var x := h.hidden[k];
    assert x == H[2 * k];
    h' := h.Set(x, FLAG);
    assert h'.flags == g.flags + EvenEntries(H, k + 1) by {
      assert h'.flags == h.flags + [x];
    }
    FlagKeepsShape(h.hidden, H, k, h'.hidden);
    assert forall t :: 0 <= t < |H| ==> h.In(H[t]) && h'.In(H[t]);
    FlagDisplay(H, h, h', k);
    assert forall q :: g.In(q) && q !in H ==> h'.Get(q) == g.Get(q);
  }

  /** Removing the entry under the iterator from the live hidden list keeps
      the survivors-then-rest shape one turn later. */
  lemma FlagKeepsShape(cur: seq<Pos>, H: seq<Pos>, k: int, r: seq<Pos>)
    requires NoDup(cur) && 0 <= k < |cur| && |cur| == |H| - k
    requires forall s :: 0 <= s < k ==> cur[s] == H[2 * s + 1]
    requires forall s :: k <= s < |cur| ==> cur[s] == H[s + k]
    requires r == RemoveFirst(cur, cur[k])
    ensures |r| == |H| - (k + 1)
    ensures forall s :: 0 <= s < k + 1 && s < |r| ==> r[s] == H[2 * s + 1]
    ensures forall s :: k + 1 <= s < |r| ==> r[s] == H[s + k + 1]
  {
    RemoveFirstAt(cur, k);
    DropKeepsShape(cur, H, k);
  }

  /** Flagging `H[2k]` extends the flagged even indices by one. */
  lemma FlagDisplay(H: seq<Pos>, h: Game, h': Game, k: nat)
    requires h.WellFormed() && h'.WellFormed() && h'.width == h.width && h'.height == h.height
    requires forall t :: 0 <= t < |H| ==> h.In(H[t]) && h'.In(H[t])
    requires 2 * k < |H| && NoDup(H)
    requires forall t :: 0 <= t < |H| ==> h.Get(H[t]) == (if t < 2 * k && t % 2 == 0 then FLAG else HIDDEN)
    requires h'.Get(H[2 * k]) == FLAG
    requires forall q :: h.In(q) && q != H[2 * k] ==> h'.Get(q) == h.Get(q)
    ensures forall t :: 0 <= t < |H| ==> h'.Get(H[t]) == (if t < 2 * (k + 1) && t % 2 == 0 then FLAG else HIDDEN)
  {
    forall t | 0 <= t < |H|
      ensures h'.Get(H[t]) == (if t < 2 * (k + 1) && t % 2 == 0 then FLAG else HIDDEN)
    {
      if t != 2 * k {
        assert H[t] != H[2 * k];
        if t != 2 * k + 1 {
          assert (t < 2 * (k + 1)) == (t < 2 * k);
        }
      }
    }
  }

  /** `auto_finish`: when every hidden cell is a bomb, the hidden list is
      walked while `set(i, j, FLAG)` removes each visited entry from it, so
      only the entries at even indices get flagged and the odd ones stay
      hidden, in order. Otherwise nothing changes. */
  method AutoFinish(g: Game) returns (g': Game)
    requires g.Valid()
    ensures g'.Valid()
    ensures !(forall q :: q in g.hidden ==> q in g.bombs) ==> g' == g
    ensures g.hidden == [] ==> g' == g
    ensures (forall q :: q in g.hidden ==> q in g.bombs) ==> EvenFlagged(g, g')
  {
    g' := g;
    if Elems(g.hidden) <= g.bombs {
      ghost var H := g.hidden;
      var k := 0;
      while k < |g'.hidden|
        invariant FinishInv(g, H, g', k)
        invariant k == 0 ==> g' == g
        decreases |g'.hidden| - k
      {
        g' := FlagAt(g, H, g', k);
        k := k + 1;
      }
      FinishDone(g, H, g', k);
    } else {
      var q :| q in Elems(g.hidden) && q !in g.bombs;
    }
  }

  /** When the live hidden list is used up, `(|H| + 1) / 2` turns have run:
      every even-indexed entry is flagged and appended to the flag list,
      and the odd-indexed ones make up the hidden list. */
  lemma FinishDone(g: Game, H: seq<Pos>, h: Game, k: int)
    requires FinishInv(g, H, h, k) && k >= |h.hidden|
    ensures k == (|H| + 1) / 2
    ensures EvenFlagged(g, h)
  {
    assert k == (|H| + 1) / 2;
  }

  /** What `auto_finish` leaves when every hidden cell is a bomb: the
      entries of the hidden list at even indices show FLAG and are
      appended, in order, to the flag list; the odd-indexed ones stay
      HIDDEN and form the new hidden list; nothing else changes. */
  ghost predicate EvenFlagged(g: Game, g': Game)
    requires g.Valid() && g'.Valid()
  {
    && g' == g.(graphic := g'.graphic, flags := g'.flags, hidden := g'.hidden)
    && (forall t :: 0 <= t < |g.hidden| ==> g'.Get(g.hidden[t]) == (if t % 2 == 0 then FLAG else HIDDEN))
    && (forall q :: g.In(q) && q !in g.hidden ==> g'.Get(q) == g.Get(q))
    && |g'.hidden| == |g.hidden| / 2
    && (forall s :: 0 <= s < |g'.hidden| ==> g'.hidden[s] == g.hidden[2 * s + 1])
    && g'.flags == g.flags + EvenEntries(g.hidden, (|g.hidden| + 1) / 2)
  }

  /** The corrected auto-flag loop once `k` entries of the snapshot `H`
      are flagged: the live hidden list is the rest of `H`. */
  ghost predicate FinishAllInv(g: Game, H: seq<Pos>, h: Game, k: int) {
    && g.Valid() && H == g.hidden && 0 <= k <= |H|
    && h.Valid()
    && h == g.(graphic := h.graphic, flags := h.flags, hidden := h.hidden)
    && h.hidden == H[k..]
    && h.flags == g.flags + H[..k]
    && (forall s :: 0 <= s < |H| ==> h.Get(H[s]) == (if s < k then FLAG else HIDDEN))
    && (forall q :: g.In(q) && q !in H ==> h.Get(q) == g.Get(q))
  }

  /** One entry of the corrected loop: the cell at the head of the live
      hidden list is flagged, which drops it from that list. */
  method FlagOne(ghost g: Game, H: seq<Pos>, h: Game, k: int) returns (h': Game)
    requires FinishAllInv(g, H, h, k) && k < |H|
    ensures FinishAllInv(g, H, h', k + 1)
  {
    var x := H[k];
    h' := h.Set(x, FLAG);
    assert h'.hidden == H[k + 1..] by {
      assert h.hidden == [x] + H[k + 1..];
    }
    FlagHead(g, H, h, k, h');
  }

  /** The corrected loop's state after its head entry `H[k]` has been
      flagged and appended to the flag list. */
  lemma FlagHead(g: Game, H: seq<Pos>, h: Game, k: int, h': Game)
    requires FinishAllInv(g, H, h, k) && k < |H|
    requires h'.Valid() && h' == h.(graphic := h'.graphic, flags := h'.flags, hidden := h'.hidden)
    requires h'.hidden == H[k + 1..] && h'.flags == h.flags + [H[k]]
    requires h'.Get(H[k]) == FLAG
    requires forall q :: h.In(q) && q != H[k] ==> h'.Get(q) == h.Get(q)
    ensures FinishAllInv(g, H, h', k + 1)
  {
    assert h'.flags == g.flags + H[..k + 1] by {
      Snoc(H, k);
    }
    forall s | 0 <= s < |H| ensures h'.Get(H[s]) == (if s < k + 1 then FLAG else HIDDEN) {
      if s != k {
        assert H[s] != H[k];
      }
    }
  }


  /** `auto_finish` as evidently intended, walking a copy of the hidden
      list (`for i, j in list(self.hidden_positions)`): once every hidden
      cell is a bomb, all of them are flagged and none stays hidden. */
  method AutoFinishFixed(g: Game) returns (g': Game)
    requires g.Valid()
    ensures g'.Valid()
    ensures !(forall q :: q in g.hidden ==> q in g.bombs) ==> g' == g
    ensures (forall q :: q in g.hidden ==> q in g.bombs) ==>
      && g' == g.(graphic := g'.graphic, flags := g'.flags, hidden := g'.hidden)
      && g'.hidden == []
      && (forall q :: g.In(q) ==> g'.Get(q) == (if q in g.hidden then FLAG else g.Get(q)))
      && g'.flags == g.flags + g.hidden
  {
    g' := g;
    if Elems(g.hidden) <= g.bombs {
      var H := g.hidden;
      var k := 0;
      while k < |H|
        invariant FinishAllInv(g, H, g', k)
      {
        g' := FlagOne(g, H, g', k);
        k := k + 1;
      }
      forall q | q in H ensures g'.Get(q) == FLAG {
        var s :| 0 <= s < |H| && H[s] == q;
      }
      assert H[..|H|] == H;
    } else {
      var q :| q in Elems(g.hidden) && q !in g.bombs;
    }
  }

  /** The entries of `ns` whose cell currently shows one of `shown`, in
      their original order: what remains of the neighbour list once the
      `to_delete` pass has removed the others. */
  function Keep(g: Game, ns: seq<Pos>, shown: set<int>): (r: seq<Pos>)
    requires g.WellFormed() && forall q :: q in ns ==> g.In(q)
    ensures forall q :: q in r <==> q in ns && g.Get(q) in shown
  {
    if ns == [] then []
    else
      var rest := Keep(g, ns[1..], shown);
      if g.Get(ns[0]) in shown then [ns[0]] + rest else rest
  }

  /** The kept entries stay in their original order: kept from a list in
      scan order around `p`, they are in scan order too. */
  lemma {:induction false} KeepSorted(g: Game, p: Pos, ns: seq<Pos>, shown: set<int>)
    requires g.WellFormed() && forall q :: q in ns ==> g.In(q)
    requires forall a, b :: 0 <= a < b < |ns| ==> Rank(p, ns[a]) < Rank(p, ns[b])
    ensures forall a, b :: 0 <= a < b < |Keep(g, ns, shown)| ==>
      Rank(p, Keep(g, ns, shown)[a]) < Rank(p, Keep(g, ns, shown)[b])
  {
    if ns != [] {
      var t := ns[1..];
      assert forall a, b :: 0 <= a < b < |t| ==> Rank(p, t[a]) < Rank(p, t[b]) by {
        forall a, b | 0 <= a < b < |t| ensures Rank(p, t[a]) < Rank(p, t[b]) {
          assert t[a] == ns[a + 1] && t[b] == ns[b + 1];
        }
      }
      KeepSorted(g, p, t, shown);
      var rest := Keep(g, t, shown);
      var r := Keep(g, ns, shown);
      if g.Get(ns[0]) in shown {
        assert r == [ns[0]] + rest;
        forall a, b | 0 <= a < b < |r| ensures Rank(p, r[a]) < Rank(p, r[b]) {
          if a == 0 {
            var q := rest[b - 1];
            assert q in rest && q in t;
            var k :| 0 <= k < |t| && t[k] == q;
            assert ns[k + 1] == q && r[b] == q && r[a] == ns[0];
          } else {
            assert r[a] == rest[a - 1] && r[b] == rest[b - 1];
          }
        }
      } else {
        assert r == rest;
        assert forall a, b :: 0 <= a < b < |rest| ==> Rank(p, rest[a]) < Rank(p, rest[b]);
      }
    }
  }

  /** Number of flagged cells around `p`. */
  ghost function FlagsAround(g: Game, p: Pos): nat {
    |set q | q in g.flags && Adjacent(p, q)|
  }

  /** `added` lists the neighbours of `p` showing HIDDEN, once each, in scan
      order: what `pressed_neighbours` appends to `pressed_positions`. */
  ghost predicate StagedAround(g: Game, p: Pos, added: seq<Pos>)
    requires g.WellFormed()
  {
    && (forall q :: q in added <==> g.In(q) && Adjacent(p, q) && g.Get(q) == HIDDEN)
    && (forall a, b :: 0 <= a < b < |added| ==> Rank(p, added[a]) < Rank(p, added[b]))
  }

  /** The hidden cells around `p`. */
  ghost function HiddenAround(g: Game, p: Pos): set<Pos>
    requires g.WellFormed()
  {
    set q | q in ValidNeighbours(g.width, g.height, p) && g.Get(q) == HIDDEN
  }

  /** The hidden cells listed in `u`. */
  ghost function HiddenIn(g: Game, u: seq<Pos>): set<Pos>
    requires g.WellFormed()
  {
    set q | q in u && g.In(q) && g.Get(q) == HIDDEN
  }

  /** `g'` is `g` after a display-only step: same board, same logic. */
  ghost predicate SameBoard(g: Game, g': Game) {
    g.WellFormed() && g'.WellFormed() && g'.width == g.width && g'.height == g.height && g'.logic == g.logic
  }

  /** `q` is uncovered once the chord's reveal loop has gone through the
      hidden cells `H`: it is one of them, or the flood from a zero one
      reaches it. */
  ghost predicate Swept(g: Game, H: set<Pos>, q: Pos)
    requires g.WellFormed()
  {
    q in H || exists n :: n in H && g.In(n) && g.Logic(n) == EMPTY && Touched(g, n, q)
  }

  /** The on-board cells swept from `H`, as a set. */
  ghost function SweptCells(g: Game, H: set<Pos>): (S: set<Pos>)
    requires g.WellFormed()
    ensures forall q :: q in S <==> g.In(q) && Swept(g, H, q)
  {
    set q | q in AllCells(g.width, g.height) && Swept(g, H, q)
  }

  /** Sweeping one more cell `n` adds `n` itself and, when it is a zero
      cell, what its flood reaches. */
  lemma SweptAdd(g: Game, H: set<Pos>, n: Pos, q: Pos)
    requires g.WellFormed() && g.In(n)
    ensures Swept(g, H + {n}, q) <==> Swept(g, H, q) || q == n || (g.Logic(n) == EMPTY && Touched(g, n, q))
  {
    if Swept(g, H, q) && q !in H {
      var m :| m in H && g.In(m) && g.Logic(m) == EMPTY && Touched(g, m, q);
      assert m in H + {n};
    }
    if g.Logic(n) == EMPTY && Touched(g, n, q) {
      assert n in H + {n};
    }
  }

  /** A chord that swept only safe cells uncovered no bomb. */
  lemma SweptNoBomb(g: Game, H: set<Pos>, q: Pos)
    requires g.Valid() && forall n :: n in H ==> g.In(n) && g.Logic(n) != BOMB
    ensures g.In(q) && Swept(g, H, q) ==> g.Logic(q) != BOMB
  {
    if g.In(q) && Swept(g, H, q) && q !in H {
      var m :| m in H && g.In(m) && g.Logic(m) == EMPTY && Touched(g, m, q);
      TouchedNoBomb(g, m, q);
    }
  }

  /** The hidden entries among the first `i + 1` of `u`. */
  lemma HiddenPrefixStep(g: Game, u: seq<Pos>, i: int)
    requires g.WellFormed() && 0 <= i < |u|
    ensures HiddenIn(g, u[..i + 1]) ==
      HiddenIn(g, u[..i]) + (if g.In(u[i]) && g.Get(u[i]) == HIDDEN then {u[i]} else {})
  {
    assert u[..i + 1] == u[..i] + [u[i]];
  }

  /** The state of the chord's reveal loop over `u` once `i` entries are
      done: no hidden entry so far was a bomb, and the display differs from
      the one before the loop exactly on the cells swept by those hidden
      entries, which show their logic values. */
  ghost predicate ChordInv(g: Game, u: seq<Pos>, h: Game, i: int) {
    && g.Valid() && 0 <= i <= |u|
    && (forall a :: 0 <= a < |u| ==> g.In(u[a]) && (g.Get(u[a]) == HIDDEN || g.Get(u[a]) == FLAG))
    && h.Valid()
    && h == g.(graphic := h.graphic, flags := h.flags, hidden := h.hidden)
    && (forall a :: 0 <= a < i && g.Get(u[a]) == HIDDEN ==> g.Logic(u[a]) != BOMB)
    && (forall q :: g.In(q) ==>
          h.Get(q) == (if Swept(g, HiddenIn(g, u[..i]), q) then g.Logic(q) else g.Get(q)))
  }

  /** Under the loop's state no bomb is swept, so every bomb keeps its
      display. */
  lemma BombsKept(g: Game, u: seq<Pos>, h: Game, i: int)
    requires ChordInv(g, u, h, i)
    ensures forall q :: g.In(q) && g.Logic(q) == BOMB ==>
      !Swept(g, HiddenIn(g, u[..i]), q) && h.Get(q) == g.Get(q)
  {
    var H := HiddenIn(g, u[..i]);
    forall n | n in H ensures g.In(n) && g.Logic(n) != BOMB {
      var a :| 0 <= a < i && u[..i][a] == n;
      assert u[a] == n;
    }
    forall q | g.In(q) ensures Swept(g, H, q) ==> g.Logic(q) != BOMB {
      SweptNoBomb(g, H, q);
    }
  }

  /** An entry showing FLAG is passed over: it showed FLAG before the loop,
      so it is not one of the hidden entries. */
  lemma SkipFlag(g: Game, u: seq<Pos>, h: Game, i: int)
    requires ChordInv(g, u, h, i) && i < |u|
    requires h.Get(u[i]) == FLAG
    ensures ChordInv(g, u, h, i + 1)
  {
    assert g.Get(u[i]) == FLAG by {
      assert IsLogicValue(g.Logic(u[i]));
    }
    HiddenPrefixStep(g, u, i);
    assert HiddenIn(g, u[..i + 1]) == HiddenIn(g, u[..i]);
    ChordNext(g, u, h, i);
  }

  /** A safe entry `n` that was already swept because it was flagged
      before the loop and a flood reached it: revealing it again, and
      flooding from it, sweeps nothing new. */
  lemma SweptAgain(g: Game, H: set<Pos>, n: Pos, q: Pos)
    requires g.Valid() && g.In(n) && n !in H && Swept(g, H, n)
    ensures g.Logic(n) == EMPTY && Touched(g, n, q) ==> Swept(g, H, q)
  {
    var m :| m in H && g.In(m) && g.Logic(m) == EMPTY && Touched(g, m, n);
    if g.Logic(n) == EMPTY && Touched(g, n, q) {
      RegionAbsorbs(g, m, n, q);
    }
  }

  /** One safe entry of the reveal loop: `set(k, l, logic)`, then a flood
      when the cell shows EMPTY. */
  method RevealSafe(ghost g: Game, u: seq<Pos>, h: Game, i: int) returns (h': Game)
    requires ChordInv(g, u, h, i) && i < |u|
    requires h.Logic(u[i]) != BOMB && h.Get(u[i]) != FLAG
    ensures ChordInv(g, u, h', i + 1)
  {
    var n := u[i];
    h' := h.Set(n, h.Logic(n));
    if h'.Get(n) == EMPTY {
      var h1 := h';
      var visited, other;
      h', visited, other := EmptyPatch(h1, n);
      Flooded(g, u, h, h1, h', i);
    } else {
      Uncovered(g, u, h, h', i);
    }
  }

  /** The cell `u[i]` now shows its non-zero logic value: entry `i` is done. */
  lemma Uncovered(g: Game, u: seq<Pos>, h: Game, h': Game, i: int)
    requires ChordInv(g, u, h, i) && i < |u|
    requires h'.Valid() && h' == h.(graphic := h'.graphic, flags := h'.flags, hidden := h'.hidden)
    requires g.Logic(u[i]) != BOMB && g.Logic(u[i]) != EMPTY && h.Get(u[i]) != FLAG
    requires h'.Get(u[i]) == g.Logic(u[i])
    requires forall q :: g.In(q) && q != u[i] ==> h'.Get(q) == h.Get(q)
    ensures ChordInv(g, u, h', i + 1)
  {
    var n := u[i];
    var H := HiddenIn(g, u[..i]);
    var H' := HiddenIn(g, u[..i + 1]);
    HiddenPrefixStep(g, u, i);
    forall q | g.In(q) ensures h'.Get(q) == (if Swept(g, H', q) then g.Logic(q) else g.Get(q)) {
      if g.Get(n) == HIDDEN {
        SweptAdd(g, H, n, q);
      }
    }
    SafeEntry(g, u, i);
    ChordNext(g, u, h', i);
  }

  /** The loop's state after entry `i`, from its parts. */
  lemma ChordNext(g: Game, u: seq<Pos>, h': Game, i: int)
    requires g.Valid() && 0 <= i < |u|
    requires forall a :: 0 <= a < |u| ==> g.In(u[a]) && (g.Get(u[a]) == HIDDEN || g.Get(u[a]) == FLAG)
    requires h'.Valid() && h' == g.(graphic := h'.graphic, flags := h'.flags, hidden := h'.hidden)
    requires forall a :: 0 <= a < i + 1 && g.Get(u[a]) == HIDDEN ==> g.Logic(u[a]) != BOMB
    requires forall q :: g.In(q) ==>
      h'.Get(q) == (if Swept(g, HiddenIn(g, u[..i + 1]), q) then g.Logic(q) else g.Get(q))
    ensures ChordInv(g, u, h', i + 1)
  {
  }

  /** The first `i + 1` entries hold no hidden bomb once entry `i` is
      safe. */
  lemma SafeEntry(g: Game, u: seq<Pos>, i: int)
    requires g.WellFormed() && 0 <= i < |u|
    requires forall a :: 0 <= a < |u| ==> g.In(u[a])
    requires g.Logic(u[i]) != BOMB
    requires forall a :: 0 <= a < i && g.Get(u[a]) == HIDDEN ==> g.Logic(u[a]) != BOMB
    ensures forall a :: 0 <= a < i + 1 && g.Get(u[a]) == HIDDEN ==> g.Logic(u[a]) != BOMB
  {
  }

  /** The cell `u[i]` is a zero cell and its region and border now show
      their logic values: entry `i` is done. */
  lemma Flooded(g: Game, u: seq<Pos>, h: Game, h1: Game, h': Game, i: int)
    requires ChordInv(g, u, h, i) && i < |u|
    requires h1.WellFormed() && h1.width == g.width && h1.height == g.height && h1.logic == g.logic
    requires h'.Valid() && h' == h.(graphic := h'.graphic, flags := h'.flags, hidden := h'.hidden)
    requires g.Logic(u[i]) == EMPTY && h.Get(u[i]) != FLAG
    requires forall q :: g.In(q) && q != u[i] ==> h1.Get(q) == h.Get(q)
    requires forall q :: g.In(q) ==> h'.Get(q) == (if Touched(h1, u[i], q) then g.Logic(q) else h1.Get(q))
    ensures ChordInv(g, u, h', i + 1)
  {
    var n := u[i];
    var H := HiddenIn(g, u[..i]);
    forall q | g.In(q) ensures Touched(h1, n, q) <==> Touched(g, n, q) {
      TouchedSameLogic(g, h1, n, q);
    }
    StartInRegion(g, n);
    var H' := HiddenIn(g, u[..i + 1]);
    HiddenPrefixStep(g, u, i);
    forall q | g.In(q) ensures h'.Get(q) == (if Swept(g, H', q) then g.Logic(q) else g.Get(q)) {
      if g.Get(n) == HIDDEN {
        SweptAdd(g, H, n, q);
      } else {
        SweptAgain(g, H, n, q);
      }
    }
    SafeEntry(g, u, i);
    ChordNext(g, u, h', i);
  }

  /** The chord met no bomb among the hidden cells `H`: the game goes on,
      and exactly the swept cells, the cells of `H` and what the floods
      from the zero ones reach, now show their logic values; every other
      cell shows what it showed before. */
  ghost predicate ChordCleared(g: Game, H: set<Pos>, g': Game) {
    && SameBoard(g, g')
    && g'.over == g.over
    && (forall q :: q in H ==> g.In(q))
    && forall q :: g.In(q) ==> g'.Get(q) == (if Swept(g, H, q) then g.Logic(q) else g.Get(q))
  }

  /** `b` is the first bomb of `H` in scan order around `p`. */
  ghost predicate FirstBomb(g: Game, p: Pos, H: set<Pos>, b: Pos) {
    && g.WellFormed()
    && b in H && g.In(b) && g.Logic(b) == BOMB
    && forall a :: a in H && g.In(a) && Rank(p, a) < Rank(p, b) ==> g.Logic(a) != BOMB
  }

  /** The cells of `H` before `b` in scan order around `p`. */
  ghost function EarlierIn(p: Pos, H: set<Pos>, b: Pos): set<Pos> {
    set a | a in H && Rank(p, a) < Rank(p, b)
  }

  /** The chord hit the bomb `b` after sweeping the cells of `H` before it
      in scan order, and `lost_grid` followed: the game is lost, `b` shows
      BOMB_EXPLODED, every other bomb shows FLAG if it was flagged and
      BOMB otherwise, the swept cells show their logic values, a flagged
      safe cell shows FLAG or BOMB_CROSSED, and every other cell shows what
      it showed before. */
  ghost predicate ChordLost(g: Game, p: Pos, H: set<Pos>, b: Pos, g': Game) {
    && SameBoard(g, g') && g.In(b)
    && g'.over && g'.Get(b) == BOMB_EXPLODED
    && (forall q :: g.In(q) && q != b && q in g.bombs ==>
          g'.Get(q) == (if g.Get(q) == FLAG then FLAG else BOMB))
    && (forall q :: g.In(q) && q !in g.bombs && Swept(g, EarlierIn(p, H, b), q) ==> g'.Get(q) == g.Logic(q))
    && (forall q :: g.In(q) && q !in g.bombs && !Swept(g, EarlierIn(p, H, b), q) && g.Get(q) != FLAG ==>
          g'.Get(q) == g.Get(q))
    && (forall q :: g.In(q) && q !in g.bombs && !Swept(g, EarlierIn(p, H, b), q) && g.Get(q) == FLAG ==>
          g'.Get(q) == FLAG || g'.Get(q) == BOMB_CROSSED)
  }

  /** The reveal loop of `pressed_neighbours` over the neighbours `u` that
      showed HIDDEN or FLAG, in scan order. Entries still showing FLAG are
      passed over; the first hidden bomb loses the game and ends the loop;
      every other entry is revealed, flooding from zero cells. */
  method ChordReveal(g: Game, p: Pos, u: seq<Pos>) returns (g': Game)
    requires g.Valid()
    requires forall a :: 0 <= a < |u| ==> g.In(u[a]) && (g.Get(u[a]) == HIDDEN || g.Get(u[a]) == FLAG)
    requires forall a, b :: 0 <= a < b < |u| ==> Rank(p, u[a]) < Rank(p, u[b])
    ensures g'.Valid()
    ensures g' == g.(graphic := g'.graphic, flags := g'.flags, hidden := g'.hidden, over := g'.over)
    ensures (forall q :: q in HiddenIn(g, u) ==> g.Logic(q) != BOMB) ==> ChordCleared(g, HiddenIn(g, u), g')
    ensures forall b :: FirstBomb(g, p, HiddenIn(g, u), b) ==> ChordLost(g, p, HiddenIn(g, u), b, g')
  {
    g' := g;
    var i := 0;
    assert u[..0] == [];
    while i < |u|
      invariant ChordInv(g, u, g', i)
    {
      var n := u[i];
      if g'.Get(n) == FLAG {
        SkipFlag(g, u, g', i);
      } else if g'.Logic(n) == BOMB {
        BombsKept(g, u, g', i);
        ghost var h := g';
        g' := LostGrid(g', n);
        FirstHiddenBomb(g, p, u, h, g', i);
        return;
      } else {
        g' := RevealSafe(g, u, g', i);
      }
      i := i + 1;
    }
    ChordFinished(g, p, u, g');
  }

  /** The loop went through all of `u` without meeting a hidden bomb. */
  lemma ChordFinished(g: Game, p: Pos, u: seq<Pos>, h: Game)
    requires ChordInv(g, u, h, |u|)
    ensures forall q :: q in HiddenIn(g, u) ==> g.Logic(q) != BOMB
    ensures ChordCleared(g, HiddenIn(g, u), h)
    ensures forall b :: !FirstBomb(g, p, HiddenIn(g, u), b)
  {
    assert u[..|u|] == u;
    forall q | q in HiddenIn(g, u) ensures g.Logic(q) != BOMB {
      var a :| 0 <= a < |u| && u[a] == q;
    }
  }

  /** The loop meets its first hidden bomb `u[i]`: the cells swept before
      it are the swept cells of the hidden entries earlier in scan order,
      and `lost_grid` leaves them alone. */
  lemma FirstHiddenBomb(g: Game, p: Pos, u: seq<Pos>, h: Game, g': Game, i: int)
    requires ChordInv(g, u, h, i) && i < |u|
    requires forall a, b :: 0 <= a < b < |u| ==> Rank(p, u[a]) < Rank(p, u[b])
    requires g.Get(u[i]) == HIDDEN && g.Logic(u[i]) == BOMB
    requires forall q :: g.In(q) && g.Logic(q) == BOMB ==> h.Get(q) == g.Get(q)
    requires g'.Valid()
    requires g' == h.(graphic := g'.graphic, flags := g'.flags, hidden := g'.hidden, over := true)
    requires g'.Get(u[i]) == BOMB_EXPLODED
    requires forall q :: h.In(q) && q != u[i] && q in h.bombs ==>
      g'.Get(q) == (if h.Get(q) == FLAG then FLAG else BOMB)
    requires forall q :: h.In(q) && q != u[i] && q !in h.bombs && h.Get(q) != FLAG ==> g'.Get(q) == h.Get(q)
    requires forall q :: h.In(q) && q != u[i] && q !in h.bombs && h.Get(q) == FLAG ==>
      g'.Get(q) == FLAG || g'.Get(q) == BOMB_CROSSED
    ensures g' == g.(graphic := g'.graphic, flags := g'.flags, hidden := g'.hidden, over := g'.over)
    ensures u[i] in HiddenIn(g, u) && g.Logic(u[i]) == BOMB
    ensures forall b :: FirstBomb(g, p, HiddenIn(g, u), b) ==> ChordLost(g, p, HiddenIn(g, u), b, g')
  {
    var H := HiddenIn(g, u);
    assert u[i] in u;
    forall b | FirstBomb(g, p, H, b) ensures b == u[i] {
      var j :| 0 <= j < |u| && u[j] == b;
      assert Rank(p, b) <= Rank(p, u[i]);
      assert j >= i;
      assert j <= i;
    }
    EarlierIsPrefix(g, p, u, i);
    LossOutcome(g, p, H, u[i], HiddenIn(g, u[..i]), h, g');
  }

  /** `lost_grid` on the bomb `b`, after the loop swept the cells of `E`,
      the hidden entries before `b` in scan order. */
  lemma LossOutcome(g: Game, p: Pos, H: set<Pos>, b: Pos, E: set<Pos>, h: Game, g': Game)
    requires g.Valid() && g.In(b) && g.Logic(b) == BOMB && E == EarlierIn(p, H, b)
    requires h.Valid() && h == g.(graphic := h.graphic, flags := h.flags, hidden := h.hidden)
    requires forall q :: g.In(q) ==> h.Get(q) == (if Swept(g, E, q) then g.Logic(q) else g.Get(q))
    requires forall q :: g.In(q) && g.Logic(q) == BOMB ==> h.Get(q) == g.Get(q)
    requires g'.Valid()
    requires g' == h.(graphic := g'.graphic, flags := g'.flags, hidden := g'.hidden, over := true)
    requires g'.Get(b) == BOMB_EXPLODED
    requires forall q :: h.In(q) && q != b && q in h.bombs ==>
      g'.Get(q) == (if h.Get(q) == FLAG then FLAG else BOMB)
    requires forall q :: h.In(q) && q != b && q !in h.bombs && h.Get(q) != FLAG ==> g'.Get(q) == h.Get(q)
    requires forall q :: h.In(q) && q != b && q !in h.bombs && h.Get(q) == FLAG ==>
      g'.Get(q) == FLAG || g'.Get(q) == BOMB_CROSSED
    ensures ChordLost(g, p, H, b, g')
  {
    forall q | g.In(q) && q != b && q in g.bombs
      ensures g'.Get(q) == (if g.Get(q) == FLAG then FLAG else BOMB)
    {
      assert g.Logic(q) == BOMB;
    }
    forall q | g.In(q) && q !in g.bombs
      ensures Swept(g, E, q) ==> g'.Get(q) == g.Logic(q)
      ensures !Swept(g, E, q) && g.Get(q) != FLAG ==> g'.Get(q) == g.Get(q)
      ensures !Swept(g, E, q) && g.Get(q) == FLAG ==> g'.Get(q) == FLAG || g'.Get(q) == BOMB_CROSSED
    {
      assert g.Logic(q) != BOMB && IsLogicValue(g.Logic(q));
      assert q != b;
    }
  }

  /** With `u` in scan order, its hidden entries before `u[i]` in scan
      order are those among its first `i` entries. */
  lemma EarlierIsPrefix(g: Game, p: Pos, u: seq<Pos>, i: int)
    requires g.WellFormed() && 0 <= i < |u|
    requires forall a, b :: 0 <= a < b < |u| ==> Rank(p, u[a]) < Rank(p, u[b])
    ensures EarlierIn(p, HiddenIn(g, u), u[i]) == HiddenIn(g, u[..i])
  {
    forall q | q in EarlierIn(p, HiddenIn(g, u), u[i]) ensures q in HiddenIn(g, u[..i]) {
      var j :| 0 <= j < |u| && u[j] == q;
      assert j < i;
      assert u[..i][j] == q;
    }
    forall q | q in HiddenIn(g, u[..i]) ensures q in EarlierIn(p, HiddenIn(g, u), u[i]) {
      var j :| 0 <= j < i && u[..i][j] == q;
      assert u[j] == q;
    }
  }

  /** Setting `pressed` or `revealOnRelease` leaves what a chord showed intact. */
  lemma RestagedOutcome(g: Game, p: Pos, H: set<Pos>, h: Game, h': Game)
    requires SameBoard(g, h)
    requires h' == h.(pressed := h'.pressed, revealOnRelease := h'.revealOnRelease)
    ensures ChordCleared(g, H, h) ==> ChordCleared(g, H, h')
    ensures forall b :: ChordLost(g, p, H, b, h) ==> ChordLost(g, p, H, b, h')
  {
    assert forall q :: g.In(q) ==> h'.Get(q) == h.Get(q);
  }

  /** `pressed_neighbours(i, j)`: stage the hidden neighbours for the
      button release, count the flags around, and when that count is
      non-zero and equals the cell's number, reveal the unflagged
      neighbours in scan order (Top, TopRight, Right, BottomRight, Bottom,
      BottomLeft, Left, TopLeft). */
  method PressedNeighbours(g: Game, p: Pos) returns (g': Game)
    requires g.Valid() && g.In(p)
    ensures g'.Valid()
    ensures |g'.pressed| >= |g.pressed| && g'.pressed[..|g.pressed|] == g.pressed
    ensures StagedAround(g, p, g'.pressed[|g.pressed|..])
    ensures FlagsAround(g, p) == 0 || FlagsAround(g, p) != g.Logic(p) ==>
      g' == g.(pressed := g'.pressed, revealOnRelease := false)
    ensures FlagsAround(g, p) != 0 && FlagsAround(g, p) == g.Logic(p) ==>
      && g' == g.(graphic := g'.graphic, flags := g'.flags, hidden := g'.hidden, over := g'.over, pressed := g'.pressed)
      && ((forall q :: q in HiddenAround(g, p) ==> g.Logic(q) != BOMB) ==> ChordCleared(g, HiddenAround(g, p), g'))
      && (forall b :: FirstBomb(g, p, HiddenAround(g, p), b) ==> ChordLost(g, p, HiddenAround(g, p), b, g'))
  {
    var ns := ValidNeighbours(g.width, g.height, p);
    var u := Keep(g, ns, {HIDDEN, FLAG});
    var added := Keep(g, u, {HIDDEN});
    KeptNeighbours(g, p, ns, u, added);
    var flagCount := CountFlags(g, p, u);
    // The staged list is written first in the source; nothing in between
    // reads it, so it is written last here.
    if flagCount == 0 || flagCount != g.Logic(p) {
      g' := g.(pressed := g.pressed + added, revealOnRelease := false);
      StagingKeepsValid(g, g');
    } else {
      g' := CommitChord(g, p, u, added);
    }
    assert g'.pressed[..|g.pressed|] == g.pressed && g'.pressed[|g.pressed|..] == added;
  }

  /** What the two filtering passes of `pressed_neighbours` leave: `u`
      lists the neighbours showing HIDDEN or FLAG in scan order, `added`
      those showing HIDDEN, and the hidden ones of `u` are the hidden
      neighbours of `p`. */
  lemma KeptNeighbours(g: Game, p: Pos, ns: seq<Pos>, u: seq<Pos>, added: seq<Pos>)
    requires g.WellFormed() && ns == ValidNeighbours(g.width, g.height, p)
    requires u == Keep(g, ns, {HIDDEN, FLAG}) && added == Keep(g, u, {HIDDEN})
    ensures forall a :: 0 <= a < |u| ==> g.In(u[a]) && (g.Get(u[a]) == HIDDEN || g.Get(u[a]) == FLAG)
    ensures forall q :: q in u <==> g.In(q) && Adjacent(p, q) && (g.Get(q) == HIDDEN || g.Get(q) == FLAG)
    ensures forall a, b :: 0 <= a < b < |u| ==> Rank(p, u[a]) < Rank(p, u[b])
    ensures StagedAround(g, p, added)
    ensures HiddenIn(g, u) == HiddenAround(g, p)
  {
    KeptShowing(g, p, ns, u);
    KeepSorted(g, p, ns, {HIDDEN, FLAG});
    KeptHidden(g, p, u, added);
  }

  /** The entries kept by the first pass. */
  lemma KeptShowing(g: Game, p: Pos, ns: seq<Pos>, u: seq<Pos>)
    requires g.WellFormed() && forall q :: q in ns <==> g.In(q) && Adjacent(p, q)
    requires forall a, b :: 0 <= a < b < |ns| ==> Rank(p, ns[a]) < Rank(p, ns[b])
    requires u == Keep(g, ns, {HIDDEN, FLAG})
    ensures forall q :: q in u <==> g.In(q) && Adjacent(p, q) && (g.Get(q) == HIDDEN || g.Get(q) == FLAG)
    ensures forall a :: 0 <= a < |u| ==> g.In(u[a]) && (g.Get(u[a]) == HIDDEN || g.Get(u[a]) == FLAG)
  {
    forall q ensures q in u <==> g.In(q) && Adjacent(p, q) && (g.Get(q) == HIDDEN || g.Get(q) == FLAG) {
      if q in u {
        assert q in ns && g.Get(q) in {HIDDEN, FLAG};
      } else if g.In(q) && Adjacent(p, q) {
        assert q in ns;
      }
    }
    forall a | 0 <= a < |u|
      ensures g.In(u[a]) && (g.Get(u[a]) == HIDDEN || g.Get(u[a]) == FLAG)
    {
      assert u[a] in u;
    }
  }

  /** The entries kept by the second pass, and the hidden ones of `u`. */
  lemma KeptHidden(g: Game, p: Pos, u: seq<Pos>, added: seq<Pos>)
    requires g.WellFormed()
    requires forall q :: q in u <==> g.In(q) && Adjacent(p, q) && (g.Get(q) == HIDDEN || g.Get(q) == FLAG)
    requires forall a, b :: 0 <= a < b < |u| ==> Rank(p, u[a]) < Rank(p, u[b])
    requires added == Keep(g, u, {HIDDEN})
    ensures StagedAround(g, p, added)
    ensures HiddenIn(g, u) == HiddenAround(g, p)
  {
    KeepSorted(g, p, u, {HIDDEN});
    forall q ensures q in added <==> g.In(q) && Adjacent(p, q) && g.Get(q) == HIDDEN {
      if q in added {
        assert q in u && g.Get(q) in {HIDDEN};
      }
    }
    forall q ensures q in HiddenIn(g, u) <==> q in HiddenAround(g, p) {
      HiddenAroundIff(g, p, q);
    }
  }

  /** The hidden cells around `p`, pointwise. */
  lemma HiddenAroundIff(g: Game, p: Pos, q: Pos)
    requires g.WellFormed()
    ensures q in HiddenAround(g, p) <==> g.In(q) && Adjacent(p, q) && g.Get(q) == HIDDEN
  {
  }

  /** The matching branch of `pressed_neighbours`: the reveal loop, with
      the hidden neighbours staged. */
  method CommitChord(g: Game, p: Pos, u: seq<Pos>, added: seq<Pos>) returns (g': Game)
    requires g.Valid()
    requires forall a :: 0 <= a < |u| ==> g.In(u[a]) && (g.Get(u[a]) == HIDDEN || g.Get(u[a]) == FLAG)
    requires forall a, b :: 0 <= a < b < |u| ==> Rank(p, u[a]) < Rank(p, u[b])
    requires forall q :: q in added ==> g.In(q)
    ensures g'.Valid()
    ensures g' == g.(graphic := g'.graphic, flags := g'.flags, hidden := g'.hidden, over := g'.over,
                     pressed := g.pressed + added)
    ensures (forall q :: q in HiddenIn(g, u) ==> g.Logic(q) != BOMB) ==> ChordCleared(g, HiddenIn(g, u), g')
    ensures forall b :: FirstBomb(g, p, HiddenIn(g, u), b) ==> ChordLost(g, p, HiddenIn(g, u), b, g')
  {
    var g1 := ChordReveal(g, p, u);
    g' := g1.(pressed := g.pressed + added);
    StagingKeepsValid(g1, g');
    RestagedOutcome(g, p, HiddenIn(g, u), g1, g');
  }

  /** The flag-counting loop of `pressed_neighbours` over the kept
      neighbours `u`. */
  method CountFlags(g: Game, p: Pos, u: seq<Pos>) returns (flagCount: nat)
    requires g.Valid()
    requires forall q :: q in u <==> g.In(q) && Adjacent(p, q) && (g.Get(q) == HIDDEN || g.Get(q) == FLAG)
    requires forall a, b :: 0 <= a < b < |u| ==> Rank(p, u[a]) < Rank(p, u[b])
    ensures flagCount == FlagsAround(g, p)
  {
    ghost var F := Elems(g.flags);
    assert NoDup(u) by {
      forall a, b | 0 <= a < b < |u| ensures u[a] != u[b] {
        assert Rank(p, u[a]) < Rank(p, u[b]);
      }
    }
    forall a | 0 <= a < |u| ensures g.In(u[a]) && (g.Get(u[a]) == FLAG <==> u[a] in F) {
      assert u[a] in u;
      ListedIffShown(g, u[a]);
    }
    flagCount := CountShown(g, u, F);
    FlaggedAmong(g, p, u);
  }

  /** The counting loop itself: the entries of `u` showing FLAG, which are
      the ones listed in `F`. */
  method CountShown(g: Game, u: seq<Pos>, ghost F: set<Pos>) returns (flagCount: nat)
    requires g.WellFormed() && NoDup(u)
    requires forall a :: 0 <= a < |u| ==> g.In(u[a]) && (g.Get(u[a]) == FLAG <==> u[a] in F)
    ensures flagCount == |Elems(u) * F|
  {
    flagCount := 0;
    var i := 0;
    while i < |u|
      invariant 0 <= i <= |u|
      invariant flagCount == |Elems(u[..i]) * F|
    {
      PrefixCardStep(u, i, F);
      assert g.Get(u[i]) == FLAG <==> u[i] in F;
      if g.Get(u[i]) == FLAG {
        flagCount := flagCount + 1;
      }
      i := i + 1;
    }
    assert u[..i] == u;
  }

  /** The flagged entries of `u` are the flagged cells around `p`. */
  lemma FlaggedAmong(g: Game, p: Pos, u: seq<Pos>)
    requires g.Valid()
    requires forall q :: q in u <==> g.In(q) && Adjacent(p, q) && (g.Get(q) == HIDDEN || g.Get(q) == FLAG)
    ensures Elems(u) * Elems(g.flags) == set q | q in g.flags && Adjacent(p, q)
  {
    forall q ensures q in Elems(u) * Elems(g.flags) <==> q in g.flags && Adjacent(p, q) {
      if q in g.flags {
        ListedIffShown(g, q);
      }
    }
  }

  /** `check_win`: the board is won when no cell shows HIDDEN; pressed and
      flagged cells do not count against it. */
  method CheckWin(g: Game) returns (won: bool)
    requires g.WellFormed()
    ensures won <==> forall q :: g.In(q) ==> g.Get(q) != HIDDEN
    ensures g.Valid() ==> (won <==> g.hidden == [])
  {
    if g.Valid() && g.hidden != [] {
      ListedIffShown(g, g.hidden[0]);
    }
    var i := 0;
    while i < g.height
      invariant 0 <= i <= g.height
      invariant forall q :: g.In(q) && q.row < i ==> g.Get(q) != HIDDEN
    {
      var j := 0;
      while j < g.width
        invariant 0 <= j <= g.width
        invariant forall q :: g.In(q) && (q.row < i || (q.row == i && q.col < j)) ==> g.Get(q) != HIDDEN
      {
        if g.graphic[i][j] == HIDDEN {
          assert g.Get(Pos(i, j)) == HIDDEN;
          return false;
        }
        j := j + 1;
      }
      i := i + 1;
    }
    return true;
  }
}
