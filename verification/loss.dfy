/** `lost_grid`: the losing display. Its last loop walks `flag_positions`
    while `set` removes each crossed flag from that very list, so Python's
    list iterator skips the entry that follows every crossed one. */
module Loss {
  import opened Tile
  import opened Seqs
  import opened Grid
  import opened Board

  /** Whether the iterator over the flag list `F` (as it was when the loop
      began) reaches entry `t`: the first entry is always reached, and an
      entry is skipped exactly when the one before it was reached and
      crossed out (removed from the list). */
  predicate Examined(F: seq<Pos>, bombs: set<Pos>, t: nat)
    requires t <= |F|
  {
    t == 0 || !(Examined(F, bombs, t - 1) && F[t - 1] !in bombs)
  }

  /** Entry `t` of `F` is reached and is a wrong flag, so it is crossed. */
  predicate Crossed(F: seq<Pos>, bombs: set<Pos>, t: nat)
    requires t < |F|
  {
    Examined(F, bombs, t) && F[t] !in bombs
  }

  /** How many wrong flags stand in an unbroken run directly before `t`. */
  function WrongRun(F: seq<Pos>, bombs: set<Pos>, t: nat): nat
    requires t <= |F|
  {
    if t == 0 || F[t - 1] in bombs then 0 else 1 + WrongRun(F, bombs, t - 1)
  }

  /** Closed form of the skipping: an entry is reached exactly when an even
      number of wrong flags directly precede it. */
  lemma {:induction false} ExaminedIffEvenRun(F: seq<Pos>, bombs: set<Pos>, t: nat)
    requires t <= |F|
    ensures Examined(F, bombs, t) <==> WrongRun(F, bombs, t) % 2 == 0
  {
    if t > 0 && F[t - 1] !in bombs {
      ExaminedIffEvenRun(F, bombs, t - 1);
    }
  }

  /** The first wrong flag in list order is always crossed. */
  lemma {:induction false} FirstWrongFlagCrossed(F: seq<Pos>, bombs: set<Pos>, t: nat)
    requires t < |F| && F[t] !in bombs
    requires forall s :: 0 <= s < t ==> F[s] in bombs
    ensures Crossed(F, bombs, t)
  {
    ExaminedIffEvenRun(F, bombs, t);
    if t > 0 {
      assert F[t - 1] in bombs;
    }
  }

  /** A wrong flag directly after a crossed one is skipped. */
  lemma SkipAfterCrossed(F: seq<Pos>, bombs: set<Pos>, t: nat)
    requires t + 1 < |F| && Crossed(F, bombs, t)
    ensures !Examined(F, bombs, t + 1) && !Crossed(F, bombs, t + 1)
  {
  }

  /** Every wrong flag gets crossed exactly when no two wrong flags are
      adjacent in the list. */
  lemma AllWrongFlagsCrossedIff(F: seq<Pos>, bombs: set<Pos>)
    ensures (forall t :: 0 <= t < |F| && F[t] !in bombs ==> Crossed(F, bombs, t)) <==>
            (forall t :: 0 <= t < |F| - 1 ==> F[t] in bombs || F[t + 1] in bombs)
  {
    if forall t :: 0 <= t < |F| && F[t] !in bombs ==> Crossed(F, bombs, t) {
      forall t | 0 <= t < |F| - 1 ensures F[t] in bombs || F[t + 1] in bombs {
        if F[t] !in bombs && F[t + 1] !in bombs {
          assert Crossed(F, bombs, t);
        }
      }
    }
    if forall t :: 0 <= t < |F| - 1 ==> F[t] in bombs || F[t + 1] in bombs {
      forall t | 0 <= t < |F| && F[t] !in bombs ensures Crossed(F, bombs, t) {
        if t > 0 {
          assert F[t - 1] in bombs;
        }
      }
    }
  }

  /** The bomb loop of `lost_grid`: every bomb cell not showing FLAG shows
      BOMB. The bombs are visited in an unspecified order. */
  method ShowBombs(g: Game) returns (g': Game)
    requires g.Valid()
    ensures g'.Valid()
    ensures g' == g.(graphic := g'.graphic, hidden := g'.hidden)
    ensures forall q :: g.In(q) ==> g'.Get(q) == (if q in g.bombs && g.Get(q) != FLAG then BOMB else g.Get(q))
  {
    g' := g;
    var rest := g.bombs;
    while rest != {}
      invariant rest <= g.bombs
      invariant g'.Valid()
      invariant g' == g.(graphic := g'.graphic, hidden := g'.hidden)
      invariant forall q :: g.In(q) ==>
        g'.Get(q) == (if q in g.bombs - rest && g.Get(q) != FLAG then BOMB else g.Get(q))
    {
      var q :| q in rest;
      if g'.Get(q) != FLAG {
        g' := g'.Set(q, BOMB);
      }
      rest := rest - {q};
    }
  }

  /** The state of the wrong-flag loop over `F`, the flag list of `g` when
      the loop began: `h` is the game so far, `k` the iterator index into
      the live list `h.flags`, and `t` the entry of `F` the iterator reads
      next (`|F| + 1` once it has run past the end after a removal). */
  ghost predicate CrossInv(g: Game, F: seq<Pos>, h: Game, k: int, t: int) {
    && g.Valid() && F == g.flags
    && 0 <= t <= |F| + 1
    && (t <= |F| ==> 0 <= k <= |h.flags| && h.flags[k..] == F[t..])
    && (t == |F| + 1 ==> k == |h.flags| + 1)
    && (t < |F| ==> Examined(F, g.bombs, t))
    && h.Valid()
    && h == g.(graphic := h.graphic, flags := h.flags)
    && (forall s :: 0 <= s < |F| ==>
          h.Get(F[s]) == (if s < t && Crossed(F, g.bombs, s) then BOMB_CROSSED else FLAG))
    && (forall q :: g.In(q) && q !in F ==> h.Get(q) == g.Get(q))
    && (forall q :: g.In(q) && q in g.bombs ==> h.Get(q) == g.Get(q))
  }

  /** Removing the entry under the iterator from a duplicate-free live list
      whose tail from `k` is `F[t..]`: after the iterator has advanced, it
      sits on `F[t + 2]`, or one past the end when `F[t]` was last. */
  lemma DropUnderIterator(cur: seq<Pos>, k: int, F: seq<Pos>, t: int)
    requires NoDup(cur) && 0 <= k < |cur| && 0 <= t <= |F| && cur[k..] == F[t..]
    ensures RemoveFirst(cur, cur[k]) == cur[..k] + cur[k + 1..]
    ensures t + 1 < |F| ==> k + 1 <= |cur| - 1 && RemoveFirst(cur, cur[k])[k + 1..] == F[t + 2..]
    ensures t + 1 >= |F| ==> |cur| - 1 == k
  {
    RemoveFirstAt(cur, k);
    assert |cur| - k == |F| - t;
    if t + 1 < |F| {
      assert (cur[..k] + cur[k + 1..])[k + 1..] == cur[k + 2..];
      assert cur[k + 2..] == F[t + 2..];
    }
  }

  /** The loop reads a bomb's flag: it only advances. */
  lemma PassBomb(g: Game, F: seq<Pos>, h: Game, k: int, t: int)
    requires CrossInv(g, F, h, k, t) && 0 <= k < |h.flags|
    requires h.In(h.flags[k]) && h.Logic(h.flags[k]) == BOMB
    ensures CrossInv(g, F, h, k + 1, t + 1)
  {
    assert h.flags[k] == F[t];
    assert h.flags[k + 1..] == F[t + 1..];
  }

  /** The loop reads a wrong flag: it crosses it, which drops it from the
      live list and makes the iterator skip the next entry. */
  method CrossAt(ghost g: Game, ghost F: seq<Pos>, h: Game, k: int, ghost t: int)
      returns (h': Game, ghost t': int)
    requires CrossInv(g, F, h, k, t) && 0 <= k < |h.flags|
    requires h.In(h.flags[k]) && h.Logic(h.flags[k]) != BOMB
    ensures CrossInv(g, F, h', k + 1, t')
    ensures |h'.flags| == |h.flags| - 1
  {
    var x := h.flags[k];
    assert x == F[t];
    assert Crossed(F, g.bombs, t);
    DropUnderIterator(h.flags, k, F, t);
    h' := h.Set(x, BOMB_CROSSED);
    if t + 1 < |F| {
      SkipAfterCrossed(F, g.bombs, t);
    }
    forall s | 0 <= s < |F|
      ensures h'.Get(F[s]) == (if s < t + 2 && Crossed(F, g.bombs, s) then BOMB_CROSSED else FLAG)
    {
      if s != t {
        assert F[s] != x;
      }
    }
    t' := t + 2;
  }

  /** The wrong-flag loop of `lost_grid`, as Python runs it: an iterator
      index `k` into the live flag list, which shrinks whenever a flag is
      crossed. Entry `s` of the list as it was at the start ends crossed
      exactly when `Crossed` holds; every other cell keeps its display. */
  method CrossWrongFlags(g: Game) returns (g': Game)
    requires g.Valid()
    ensures g'.Valid()
    ensures g' == g.(graphic := g'.graphic, flags := g'.flags)
    ensures forall s :: 0 <= s < |g.flags| ==>
      g'.Get(g.flags[s]) == (if Crossed(g.flags, g.bombs, s) then BOMB_CROSSED else FLAG)
    ensures forall q :: g.In(q) && q !in g.flags ==> g'.Get(q) == g.Get(q)
    ensures forall q :: g.In(q) && q in g.bombs ==> g'.Get(q) == g.Get(q)
  {
    ghost var F := g.flags;
    g' := g;
    var k := 0;
    ghost var t := 0;
    while k < |g'.flags|
      invariant CrossInv(g, F, g', k, t)
      decreases |g'.flags| + 1 - k
    {
      assert g'.In(g'.flags[k]);
      if g'.Logic(g'.flags[k]) != BOMB {
        g', t := CrossAt(g, F, g', k, t);
      } else {
        PassBomb(g, F, g', k, t);
        t := t + 1;
      }
      k := k + 1;
    }
    assert t >= |F|;
  }

  /** `lost_grid(i, j)`: the game is over, unflagged bombs show BOMB, the
      detonated cell shows BOMB_EXPLODED, flagged bombs stay FLAG, and a
      wrong flag is crossed exactly when the shrinking-list loop reaches it.
      The list walked is the flag list once the detonated cell has left it. */
  method LostGrid(g: Game, p: Pos) returns (g': Game)
    requires g.Valid() && g.In(p)
    ensures g'.Valid()
    ensures g' == g.(graphic := g'.graphic, flags := g'.flags, hidden := g'.hidden, over := true)
    ensures g'.Get(p) == BOMB_EXPLODED
    ensures forall q :: g.In(q) && q != p && q in g.bombs ==>
      g'.Get(q) == (if g.Get(q) == FLAG then FLAG else BOMB)
    ensures forall q :: g.In(q) && q != p && q !in g.bombs && g.Get(q) != FLAG ==> g'.Get(q) == g.Get(q)
    ensures var F := if p in g.flags then RemoveFirst(g.flags, p) else g.flags;
      forall s :: 0 <= s < |F| && F[s] !in g.bombs ==>
        g'.Get(F[s]) == (if Crossed(F, g.bombs, s) then BOMB_CROSSED else FLAG)
    ensures forall q :: g.In(q) && q != p && q !in g.bombs && g.Get(q) == FLAG ==>
      g'.Get(q) == FLAG || g'.Get(q) == BOMB_CROSSED
  {
    var g0 := g.(over := true);
    assert forall q :: g0.In(q) ==> g0.Get(q) == g.Get(q);
    var g1 := ShowBombs(g0);
    var g2 := g1.Set(p, BOMB_EXPLODED);
    ghost var F := if p in g.flags then RemoveFirst(g.flags, p) else g.flags;
    assert g2.flags == F;
    FlagsLeft(g.flags, p);
    g' := CrossWrongFlags(g2);
    forall q | g.In(q) && q != p && q !in g.bombs && g.Get(q) != FLAG
      ensures g'.Get(q) == g.Get(q)
    {
      ListedIffShown(g, q);
      assert q !in F;
    }
    FlagsStayMarked(g, p, F, g');
  }

  /** After the wrong-flag loop over `F`, the flags left once the
      detonated cell `p` has gone, each safe flagged cell other than `p`
      shows FLAG or BOMB_CROSSED. */
  lemma FlagsStayMarked(g: Game, p: Pos, F: seq<Pos>, g': Game)
    requires g.Valid() && g'.WellFormed() && g'.width == g.width && g'.height == g.height
    requires forall q :: q in F <==> q in g.flags && q != p
    requires forall s :: 0 <= s < |F| && F[s] !in g.bombs ==>
      g'.Get(F[s]) == (if Crossed(F, g.bombs, s) then BOMB_CROSSED else FLAG)
    ensures forall q :: g.In(q) && q != p && q !in g.bombs && g.Get(q) == FLAG ==>
      g'.Get(q) == FLAG || g'.Get(q) == BOMB_CROSSED
  {
    forall q | g.In(q) && q != p && q !in g.bombs && g.Get(q) == FLAG
      ensures g'.Get(q) == FLAG || g'.Get(q) == BOMB_CROSSED
    {
      ListedIffShown(g, q);
      var s :| 0 <= s < |F| && F[s] == q;
    }
  }

  /** The flag list once `set(i, j, BOMB_EXPLODED)` has dropped `(i, j)`
      from it: every other flagged cell, each once. */
  lemma FlagsLeft(flags: seq<Pos>, p: Pos)
    requires NoDup(flags)
    ensures var F := if p in flags then RemoveFirst(flags, p) else flags;
      NoDup(F) && forall q :: q in F <==> q in flags && q != p
  {
    if p in flags {
      RemoveFirstNoDup(flags, p);
    }
  }

  /** The corrected wrong-flag loop once `k` entries of the snapshot `F`
      are done: each wrong flag among them is crossed, the rest of `F`
      still shows FLAG, and nothing else has changed. */
  ghost predicate CrossAllInv(g: Game, F: seq<Pos>, h: Game, k: int) {
    && g.Valid() && F == g.flags && 0 <= k <= |F|
    && h.Valid()
    && h == g.(graphic := h.graphic, flags := h.flags)
    && (forall s :: 0 <= s < |F| ==>
          h.Get(F[s]) == (if s < k && F[s] !in g.bombs then BOMB_CROSSED else FLAG))
    && (forall q :: g.In(q) && q !in F ==> h.Get(q) == g.Get(q))
  }

  /** One entry of the corrected loop. */
  method CrossOne(ghost g: Game, F: seq<Pos>, h: Game, k: int) returns (h': Game)
    requires CrossAllInv(g, F, h, k) && k < |F|
    ensures CrossAllInv(g, F, h', k + 1)
  {
    var x := F[k];
    assert x in g.flags;
    if h.Logic(x) != BOMB {
      ListedIffShown(h, x);
      h' := h.Set(x, BOMB_CROSSED);
      forall s | 0 <= s < |F|
        ensures h'.Get(F[s]) == (if s < k + 1 && F[s] !in g.bombs then BOMB_CROSSED else FLAG)
      {
        if s != k {
          assert F[s] != x;
        }
      }
    } else {
      h' := h;
    }
  }

  /** The wrong-flag loop as evidently intended, walking a copy of the
      flag list (`for row, col in list(self.flag_positions)`): every
      flagged non-bomb ends crossed and flagged bombs stay FLAG. */
  method CrossWrongFlagsFixed(g: Game) returns (g': Game)
    requires g.Valid()
    ensures g'.Valid()
    ensures g' == g.(graphic := g'.graphic, flags := g'.flags)
    ensures forall q :: q in g.flags ==> g'.Get(q) == (if q in g.bombs then FLAG else BOMB_CROSSED)
    ensures forall q :: g.In(q) && q !in g.flags ==> g'.Get(q) == g.Get(q)
  {
    var F := g.flags;
    g' := g;
    var k := 0;
    while k < |F|
      invariant CrossAllInv(g, F, g', k)
    {
      g' := CrossOne(g, F, g', k);
      k := k + 1;
    }
    forall q | q in g.flags ensures g'.Get(q) == (if q in g.bombs then FLAG else BOMB_CROSSED) {
      var s :| 0 <= s < |F| && F[s] == q;
    }
  }
}
