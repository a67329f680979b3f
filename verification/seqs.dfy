/** Sequence helpers that mirror the Python list operations the game uses. */
module Seqs {

  predicate NoDup<T(==)>(s: seq<T>) {
    forall a, b :: 0 <= a < b < |s| ==> s[a] != s[b]
  }

  function Elems<T>(s: seq<T>): set<T> {
    set x | x in s
  }

  /** Python's `list.remove(x)`: drops the first occurrence of `x`. */
  function RemoveFirst<T(==)>(s: seq<T>, x: T): (r: seq<T>)
    requires x in s
    ensures |r| == |s| - 1
    ensures forall y :: y in r ==> y in s
  {
    assert s == [s[0]] + s[1..];
    if s[0] == x then s[1..] else [s[0]] + RemoveFirst(s[1..], x)
  }

  /** Number of entries of `s` that lie in `X`. */
  function Count<T>(s: seq<T>, X: set<T>): nat {
    if s == [] then 0 else (if s[0] in X then 1 else 0) + Count(s[1..], X)
  }

  lemma NoDupTail<T>(s: seq<T>)
    requires NoDup(s) && s != []
    ensures NoDup(s[1..]) && s[0] !in s[1..]
  {
    var t := s[1..];
    forall a, b | 0 <= a < b < |t| ensures t[a] != t[b] {
      assert t[a] == s[a+1] && t[b] == s[b+1];
    }
  }

  /** `list.remove(x)` drops the first `x`: the one after a prefix free of `x`. */
  lemma {:induction false} RemoveFirstSplit<T>(a: seq<T>, x: T, b: seq<T>)
    requires x !in a
    ensures RemoveFirst(a + [x] + b, x) == a + b
  {
    var s := a + [x] + b;
    if a == [] {
      assert s[0] == x && s[1..] == b;
    } else {
      var t := a[1..];
      assert a[0] != x by { assert a[0] in a; }
      assert s[0] == a[0] && s[1..] == t + [x] + b;
      RemoveFirstSplit(t, x, b);
      calc {
        RemoveFirst(s, x);
        [a[0]] + RemoveFirst(t + [x] + b, x);
        [a[0]] + (t + b);
        { assert a == [a[0]] + t; }
        a + b;
      }
    }
  }

  /** On a list without duplicates, removing the value found at index `k`
      removes exactly that index. */
  lemma RemoveFirstAt<T>(s: seq<T>, k: int)
    requires NoDup(s) && 0 <= k < |s|
    ensures RemoveFirst(s, s[k]) == s[..k] + s[k+1..]
  {
    assert s == s[..k] + [s[k]] + s[k+1..];
    RemoveFirstSplit(s[..k], s[k], s[k+1..]);
  }

  lemma RemoveAtKeepsNoDup<T>(s: seq<T>, k: int)
    requires NoDup(s) && 0 <= k < |s|
    ensures NoDup(s[..k] + s[k+1..])
    ensures forall y :: y in s[..k] + s[k+1..] <==> y in s && y != s[k]
  {
    var r := s[..k] + s[k+1..];
    forall a, b | 0 <= a < b < |r|
      ensures r[a] != r[b]
    {
      var a' := if a < k then a else a + 1;
      var b' := if b < k then b else b + 1;
      assert r[a] == s[a'] && r[b] == s[b'];
    }
    forall y
      ensures y in r <==> y in s && y != s[k]
    {
      if y in r {
        var i :| 0 <= i < |r| && r[i] == y;
        var i' := if i < k then i else i + 1;
        assert s[i'] == y;
      }
      if y in s && y != s[k] {
        var i :| 0 <= i < |s| && s[i] == y;
        if i < k { assert r[i] == y; } else { assert i > k; assert r[i-1] == y; }
      }
    }
  }

  /** `list.remove(x)` on a duplicate-free list leaves every other value,
      each still once. */
  lemma RemoveFirstNoDup<T>(s: seq<T>, x: T)
    requires NoDup(s) && x in s
    ensures NoDup(RemoveFirst(s, x))
    ensures forall y :: y in RemoveFirst(s, x) <==> y in s && y != x
  {
    var k :| 0 <= k < |s| && s[k] == x;
    RemoveFirstAt(s, k);
    RemoveAtKeepsNoDup(s, k);
  }

  lemma AppendNoDup<T>(s: seq<T>, x: T)
    requires NoDup(s) && x !in s
    ensures NoDup(s + [x])
  {
  }

  /** Appending `x` when `x` is already present, then removing the first
      `x`, moves it to the end: Python's `append` followed by `remove` of a
      value that was already listed. */
  lemma {:induction false} AppendThenRemove<T>(s: seq<T>, x: T)
    requires x in s
    ensures RemoveFirst(s + [x], x) == RemoveFirst(s, x) + [x]
  {
    assert (s + [x])[0] == s[0];
    if s[0] != x {
      assert (s + [x])[1..] == s[1..] + [x];
      AppendThenRemove(s[1..], x);
    } else {
      assert (s + [x])[1..] == s[1..] + [x];
    }
  }

  /** For a list without duplicates, counting members of `X` gives the size
      of the set of listed members of `X`. */
  lemma {:induction false} CountIsCard<T>(s: seq<T>, X: set<T>)
    requires NoDup(s)
    ensures Count(s, X) == |Elems(s) * X|
  {
    if s != [] {
      NoDupTail(s);
      CountIsCard(s[1..], X);
      var rest := Elems(s[1..]) * X;
      assert Elems(s) == {s[0]} + Elems(s[1..]);
      if s[0] in X {
        assert Elems(s) * X == {s[0]} + rest;
        assert s[0] !in rest;
      } else {
        assert Elems(s) * X == rest;
      }
    }
  }

  /** Growing a duplicate-free prefix by one entry grows the set of its
      members in `X` by that entry exactly when it lies in `X`. */
  lemma PrefixCardStep<T>(s: seq<T>, k: int, X: set<T>)
    requires NoDup(s) && 0 <= k < |s|
    ensures |Elems(s[..k+1]) * X| == |Elems(s[..k]) * X| + (if s[k] in X then 1 else 0)
  {
    assert s[..k+1] == s[..k] + [s[k]];
    assert Elems(s[..k+1]) == Elems(s[..k]) + {s[k]};
    assert s[k] !in Elems(s[..k]);
    if s[k] in X {
      assert Elems(s[..k+1]) * X == Elems(s[..k]) * X + {s[k]};
    } else {
      assert Elems(s[..k+1]) * X == Elems(s[..k]) * X;
    }
  }
  /** The entries of `s` outside `X`, in their order in `s`: what is left
      of a list once each member of `X` has been removed from it. */
  function Without<T>(s: seq<T>, X: set<T>): seq<T> {
    if s == [] then []
    else (if s[0] in X then [] else [s[0]]) + Without(s[1..], X)
  }

  /** `Without(s, X)` holds exactly the entries of `s` outside `X`. */
  lemma {:induction false} WithoutMembers<T>(s: seq<T>, X: set<T>, y: T)
    ensures y in Without(s, X) <==> y in s && y !in X
  {
    if s != [] {
      WithoutMembers(s[1..], X, y);
      assert y in s <==> y == s[0] || y in s[1..];
    }
  }

  lemma {:induction false} WithoutAppend<T>(s: seq<T>, t: seq<T>, X: set<T>)
    ensures Without(s + t, X) == Without(s, X) + Without(t, X)
  {
    if s != [] {
      assert (s + t)[0] == s[0] && (s + t)[1..] == s[1..] + t;
      WithoutAppend(s[1..], t, X);
    } else {
      assert s + t == t;
    }
  }

  /** Removing `A` and then `B` is removing both at once. */
  lemma {:induction false} WithoutTwice<T>(s: seq<T>, A: set<T>, B: set<T>)
    ensures Without(Without(s, A), B) == Without(s, A + B)
  {
    if s != [] {
      WithoutTwice(s[1..], A, B);
      var head := if s[0] in A then [] else [s[0]];
      WithoutAppend(head, Without(s[1..], A), B);
      assert Without(head, B) == (if s[0] in A + B then [] else [s[0]]) by {
        if s[0] !in A { assert head[1..] == []; }
      }
    }
  }

  /** Only the members of `X` that occur in `s` matter to `Without(s, X)`. */
  lemma {:induction false} WithoutSame<T>(s: seq<T>, A: set<T>, B: set<T>)
    requires forall y :: y in s ==> (y in A <==> y in B)
    ensures Without(s, A) == Without(s, B)
  {
    if s != [] {
      assert s[0] in s;
      WithoutSame(s[1..], A, B);
    }
  }

  /** On a list without duplicates, `list.remove(x)` is `Without(s, {x})`. */
  lemma {:induction false} RemoveFirstIsWithout<T>(s: seq<T>, x: T)
    requires NoDup(s) && x in s
    ensures RemoveFirst(s, x) == Without(s, {x})
  {
    NoDupTail(s);
    if s[0] == x {
      WithoutSame(s[1..], {x}, {});
      WithoutNothing(s[1..]);
    } else {
      RemoveFirstIsWithout(s[1..], x);
    }
  }

  lemma {:induction false} WithoutNothing<T>(s: seq<T>)
    ensures Without(s, {}) == s
  {
    if s != [] {
      WithoutNothing(s[1..]);
      assert s == [s[0]] + s[1..];
    }
  }

  /** The distinct entries of `s`, each placed where it occurs last: the
      order a list reaches when every entry of `s` in turn is removed from
      it and appended again. */
  function LastOrder<T(==)>(s: seq<T>): seq<T> {
    if s == [] then []
    else Without(LastOrder(s[..|s| - 1]), {s[|s| - 1]}) + [s[|s| - 1]]
  }

  /** `LastOrder(s)` lists every entry of `s` exactly once. */
  lemma {:induction false} LastOrderMembers<T>(s: seq<T>)
    ensures NoDup(LastOrder(s))
    ensures forall y :: y in LastOrder(s) <==> y in s
  {
    if s != [] {
      var init, q := s[..|s| - 1], s[|s| - 1];
      LastOrderMembers(init);
      WithoutNoDup(LastOrder(init), {q});
      var r := Without(LastOrder(init), {q});
      forall y ensures y in r <==> y in init && y != q {
        WithoutMembers(LastOrder(init), {q}, y);
      }
      assert s == init + [q];
      assert NoDup(r + [q]) by {
        forall a, b | 0 <= a < b < |r + [q]| ensures (r + [q])[a] != (r + [q])[b] {
          if b == |r| { assert (r + [q])[a] in r; }
        }
      }
    }
  }


  lemma {:induction false} WithoutNoDup<T>(s: seq<T>, X: set<T>)
    requires NoDup(s)
    ensures NoDup(Without(s, X))
  {
    if s != [] {
      NoDupTail(s);
      WithoutNoDup(s[1..], X);
      var t := Without(s[1..], X);
      WithoutMembers(s[1..], X, s[0]);
      if s[0] !in X {
        forall a, b | 0 <= a < b < |[s[0]] + t| ensures ([s[0]] + t)[a] != ([s[0]] + t)[b] {
          if a == 0 { assert ([s[0]] + t)[b] in t; }
        }
      }
    }
  }

  /** A list without duplicates is its own `LastOrder`. */
  lemma {:induction false} LastOrderNoDup<T>(s: seq<T>)
    requires NoDup(s)
    ensures LastOrder(s) == s
  {
    if s != [] {
      var init, q := s[..|s| - 1], s[|s| - 1];
      LastEntryNew(s);
      LastOrderNoDup(init);
      WithoutSame(init, {q}, {});
      WithoutNothing(init);
    }
  }

  /** The last entry of a duplicate-free list is new to the rest of it. */
  lemma LastEntryNew<T>(s: seq<T>)
    requires NoDup(s) && s != []
    ensures NoDup(s[..|s| - 1]) && s[|s| - 1] !in s[..|s| - 1]
    ensures s == s[..|s| - 1] + [s[|s| - 1]]
  {
    var init := s[..|s| - 1];
    forall a, b | 0 <= a < b < |init| ensures init[a] != init[b] {
      assert init[a] == s[a] && init[b] == s[b];
    }
    forall a | 0 <= a < |init| ensures init[a] != s[|s| - 1] {
      assert init[a] == s[a];
    }
  }


  /** `list.remove(x)` guarded by `x in list`, on a duplicate-free list. */
  lemma RemoveIfListed<T>(s: seq<T>, x: T)
    requires NoDup(s)
    ensures (if x in s then RemoveFirst(s, x) else s) == Without(s, {x})
  {
    if x in s {
      RemoveFirstIsWithout(s, x);
    } else {
      WithoutSame(s, {x}, {});
      WithoutNothing(s);
    }
  }
  /** One more entry at the end of a list: its members and its `LastOrder`. */
  lemma Snoc<T>(s: seq<T>, i: int)
    requires 0 <= i < |s|
    ensures s[..i + 1] == s[..i] + [s[i]]
    ensures Elems(s[..i + 1]) == Elems(s[..i]) + {s[i]}
    ensures LastOrder(s[..i + 1]) == Without(LastOrder(s[..i]), {s[i]}) + [s[i]]
  {
    var t := s[..i + 1];
    assert t[..|t| - 1] == s[..i] && t[|t| - 1] == s[i];
    assert t == s[..i] + [s[i]];
  }
}
