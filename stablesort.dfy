/**
 * Python's `list.sort(key=..., reverse=...)` as the scraper uses it: several
 * passes over one list, each on one numeric field of a three-field key, each
 * pass stable. The entries are of any type `T`; `field(x, f)` is field `f`
 * (0, 1 or 2) of entry `x`'s key.
 *
 * Every pass carries a ghost "origin" sequence: `o[k]` is the position, in the
 * list `s` given to the first pass, of the entry now in slot `k`. The order a
 * list has after some passes is stated on origins by `Precedes`.
 */
module StableSort {

  // ---------------------------------------------------------------------------
  // Orders on keys
  // ---------------------------------------------------------------------------

  /** Key `a` goes strictly before key `b`: smaller first, or larger first
      when sorting with `reverse=True`. */
  predicate KeyFirst(a: int, b: int, reverse: bool) {
    if reverse then a > b else a < b
  }

  /** Lexicographic "strictly before" on three-field keys. */
  predicate TripleFirst(a: (int, int, int), b: (int, int, int), reverse: bool) {
    KeyFirst(a.0, b.0, reverse)
    || (a.0 == b.0 && (KeyFirst(a.1, b.1, reverse) || (a.1 == b.1 && KeyFirst(a.2, b.2, reverse))))
  }

  /** Non-decreasing (non-increasing with `reverse`) on three-field keys. */
  predicate InOrder(a: (int, int, int), b: (int, int, int), reverse: bool) {
    TripleFirst(a, b, reverse) || a == b
  }

  /** The whole key of entry `x`. */
  function Triple<T>(field: (T, nat) -> int, x: T): (int, int, int) {
    (field(x, 0), field(x, 1), field(x, 2))
  }

  /** The order after `level` passes between the entries that came from
      positions `p` and `q` of `s`: pass `level` sorts on field `3 - level`
      (the last field first) and leaves ties in the order of the previous
      pass; level 0 is the order of `s` itself. */
  ghost predicate Precedes<T>(field: (T, nat) -> int, s: seq<T>, p: nat, q: nat, level: nat, reverse: bool)
    requires p < |s| && q < |s| && level <= 3
    decreases level
  {
    if level == 0 then p < q
    else
      var kp := field(s[p], 3 - level);
      var kq := field(s[q], 3 - level);
      KeyFirst(kp, kq, reverse) || (kp == kq && Precedes(field, s, p, q, level - 1, reverse))
  }

  lemma {:induction false} PrecedesTransitive<T>(field: (T, nat) -> int, s: seq<T>, p: nat, q: nat, r: nat,
                                                 level: nat, reverse: bool)
    requires p < |s| && q < |s| && r < |s| && level <= 3
    requires Precedes(field, s, p, q, level, reverse) && Precedes(field, s, q, r, level, reverse)
    ensures Precedes(field, s, p, r, level, reverse)
    decreases level
  {
    if level > 0 {
      var f := 3 - level;
      if field(s[p], f) == field(s[q], f) == field(s[r], f) {
        PrecedesTransitive(field, s, p, q, r, level - 1, reverse);
      }
    }
  }

  /** No entry goes strictly before itself. */
  lemma {:induction false} PrecedesIrreflexive<T>(field: (T, nat) -> int, s: seq<T>, p: nat, level: nat, reverse: bool)
    requires p < |s| && level <= 3
    ensures !Precedes(field, s, p, p, level, reverse)
    decreases level
  {
    if level > 0 {
      PrecedesIrreflexive(field, s, p, level - 1, reverse);
    }
  }

  /** After the three passes the order is the lexicographic order on the
      whole key, with ties broken by position in `s`. */
  lemma PrecedesLexicographic<T>(field: (T, nat) -> int, s: seq<T>, p: nat, q: nat, reverse: bool)
    requires p < |s| && q < |s|
    ensures Precedes(field, s, p, q, 3, reverse)
        <==> TripleFirst(Triple(field, s[p]), Triple(field, s[q]), reverse)
             || (Triple(field, s[p]) == Triple(field, s[q]) && p < q)
  {
    var a, b := Triple(field, s[p]), Triple(field, s[q]);
    assert Precedes(field, s, p, q, 1, reverse) <==> KeyFirst(a.2, b.2, reverse) || (a.2 == b.2 && p < q);
    assert Precedes(field, s, p, q, 2, reverse)
        <==> KeyFirst(a.1, b.1, reverse) || (a.1 == b.1 && Precedes(field, s, p, q, 1, reverse));
  }

  // ---------------------------------------------------------------------------
  // Arrangements
  // ---------------------------------------------------------------------------

  /** Slot `k` of `a` holds entry `s[o[k]]`. */
  ghost predicate Arranged<T>(a: seq<T>, s: seq<T>, o: seq<nat>) {
    |o| == |a| && forall k :: 0 <= k < |o| ==> o[k] < |s| && a[k] == s[o[k]]
  }

  /** Slot `k` of `a` holds entry `s[o[k]]` and `keys[k]` is that entry's
      field for pass `level`. */
  ghost predicate Paired<T>(a: seq<T>, keys: seq<int>, o: seq<nat>, level: nat,
                            field: (T, nat) -> int, s: seq<T>)
    requires level <= 3
  {
    Arranged(a, s, o) && |keys| == |o|
    && forall k :: 0 <= k < |o| ==> keys[k] == field(s[o[k]], 3 - level)
  }

  /** The list is ordered as pass `level` leaves it. */
  ghost predicate SortedAt<T>(field: (T, nat) -> int, s: seq<T>, o: seq<nat>, level: nat, reverse: bool)
    requires level <= 3 && forall k :: 0 <= k < |o| ==> o[k] < |s|
  {
    forall p, q :: 0 <= p < q < |o| ==> Precedes(field, s, o[p], o[q], level, reverse)
  }

  function Indices(n: nat): (o: seq<nat>)
    ensures |o| == n && forall k :: 0 <= k < n ==> o[k] == k
  {
    seq(n, k => k)
  }

  /** The list as given is arranged by the identity and is in the order of
      level 0. */
  lemma InitialArrangement<T>(field: (T, nat) -> int, s: seq<T>, reverse: bool)
    ensures Arranged(s, s, Indices(|s|))
    ensures SortedAt(field, s, Indices(|s|), 0, reverse)
  {
  }

  /** In a list ordered by any pass no two slots came from the same position,
      so the origins are a permutation of the positions of `s`. */
  lemma SortedOriginsDistinct<T>(field: (T, nat) -> int, s: seq<T>, o: seq<nat>, level: nat, reverse: bool)
    requires level <= 3 && forall k :: 0 <= k < |o| ==> o[k] < |s|
    requires SortedAt(field, s, o, level, reverse)
    ensures forall p, q :: 0 <= p < q < |o| ==> o[p] != o[q]
  {
    forall p, q | 0 <= p < q < |o|
      ensures o[p] != o[q]
    {
      PrecedesIrreflexive(field, s, o[p], level, reverse);
    }
  }

  /** A rearrangement that uses every position of `s` once holds the same
      entries as `s`, each as many times. */
  lemma {:induction false} ArrangementPermutes<T>(a: seq<T>, s: seq<T>, o: seq<nat>)
    requires Arranged(a, s, o) && |a| == |s|
    requires forall p, q :: 0 <= p < q < |o| ==> o[p] != o[q]
    ensures multiset(a) == multiset(s)
    decreases |a|
  {
    if |a| > 0 {
      // Take out the last slot and the position of `s` it came from.
      var k := |a| - 1;
      var j := o[k];
      var s' := s[..j] + s[j + 1..];
      var o' := seq(k, p requires 0 <= p < k => if o[p] <= j then o[p] else o[p] - 1);
      forall p | 0 <= p < k
        ensures o'[p] < |s'| && a[p] == s'[o'[p]]
      {
        assert o[p] != j;
      }
      forall p, q | 0 <= p < q < k
        ensures o'[p] != o'[q]
      {
        assert o[p] != j && o[q] != j;
      }
      ArrangementPermutes(a[..k], s', o');
      assert a == a[..k] + [a[k]];
      assert s == s[..j] + [s[j]] + s[j + 1..];
    }
  }

  /** A list ordered by the third pass is in lexicographic key order, and
      entries with equal keys keep their order in `s`. */
  lemma SortedByTriple<T>(field: (T, nat) -> int, s: seq<T>, o: seq<nat>, xs: seq<T>, reverse: bool)
    requires Arranged(xs, s, o)
    requires SortedAt(field, s, o, 3, reverse)
    ensures forall i, j :: 0 <= i < j < |xs| ==> InOrder(Triple(field, xs[i]), Triple(field, xs[j]), reverse)
    ensures forall i, j :: 0 <= i < j < |xs| && Triple(field, xs[i]) == Triple(field, xs[j]) ==> o[i] < o[j]
  {
    forall i, j | 0 <= i < j < |xs|
      ensures InOrder(Triple(field, xs[i]), Triple(field, xs[j]), reverse)
      ensures Triple(field, xs[i]) == Triple(field, xs[j]) ==> o[i] < o[j]
    {
      PrecedesLexicographic(field, s, o[i], o[j], reverse);
    }
  }

  // ---------------------------------------------------------------------------
  // Three passes
  // ---------------------------------------------------------------------------

  /** Sorts a copy of `entries` with three stable passes, on field 2, then 1,
      then 0 of the key. The result is `entries` rearranged (`origin[k]` is
      the position in `entries` of result slot `k`, and no position is used
      twice, so each entry occurs as often as in `entries`), in lexicographic
      key order (descending when `reverse`) with entries of equal key in their
      order in `entries`. */
  method SortByKey<T>(entries: seq<T>, field: (T, nat) -> int, reverse: bool)
    returns (sorted: seq<T>, ghost origin: seq<nat>)
    ensures |sorted| == |entries| == |origin|
    ensures forall k :: 0 <= k < |origin| ==> origin[k] < |entries| && sorted[k] == entries[origin[k]]
    ensures forall i, j :: 0 <= i < j < |origin| ==> origin[i] != origin[j]
    ensures multiset(sorted) == multiset(entries)
    ensures forall i, j :: 0 <= i < j < |sorted| ==> InOrder(Triple(field, sorted[i]), Triple(field, sorted[j]), reverse)
    ensures forall i, j ::
      0 <= i < j < |sorted| && Triple(field, sorted[i]) == Triple(field, sorted[j]) ==> origin[i] < origin[j]
  {
    if |entries| == 0 {
      return [], [];
    }
    var a := new T[|entries|](k => if 0 <= k < |entries| then entries[k] else entries[0]);
    assert a[..] == entries;
    ghost var o := ThreePasses(a, field, reverse);
    sorted := a[..];
    SortedByTriple(field, entries, o, sorted, reverse);
    SortedOriginsDistinct(field, entries, o, 3, reverse);
    ArrangementPermutes(sorted, entries, o);
    origin := o;
  }

  /** The passes on field 2, 1 and 0 of the key, in place. */
  method ThreePasses<T>(a: array<T>, field: (T, nat) -> int, reverse: bool) returns (ghost o: seq<nat>)
    modifies a
    ensures Arranged(a[..], old(a[..]), o)
    ensures SortedAt(field, old(a[..]), o, 3, reverse)
  {
    ghost var s := a[..];
    InitialArrangement(field, s, reverse);
    o := Indices(|s|);
    var level := 1;  // pass 1 sorts on field 2 (the patch number)
    o := StablePass(a, field, level, reverse, s, o);
    level := 2;      // pass 2 on field 1 (the minor number)
    o := StablePass(a, field, level, reverse, s, o);
    level := 3;      // pass 3 on field 0 (the major number)
    o := StablePass(a, field, level, reverse, s, o);
  }

  // ---------------------------------------------------------------------------
  // One pass
  // ---------------------------------------------------------------------------

  /** One stable `list.sort(key=..., reverse=reverse)` pass over `a` on field
      `3 - level`. As in CPython the keys of all entries are computed first,
      then moved together with their entries; the sort itself is an insertion
      sort. On entry the list is in the order the previous pass leaves. */
  method StablePass<T>(a: array<T>, field: (T, nat) -> int, level: nat, reverse: bool,
                       ghost s: seq<T>, ghost o0: seq<nat>)
    returns (ghost o: seq<nat>)
    requires 1 <= level <= 3 && |s| == a.Length
    requires Arranged(a[..], s, o0)
    requires SortedAt(field, s, o0, level - 1, reverse)
    modifies a
    ensures Arranged(a[..], s, o)
    ensures SortedAt(field, s, o, level, reverse)
  {
    var n := a.Length;
    var keys := new int[n];
    for k := 0 to n
      modifies keys
      invariant forall m :: 0 <= m < k ==> keys[m] == field(s[o0[m]], 3 - level)
    {
      keys[k] := field(a[k], 3 - level);
    }
    o := SortByKeys(a, keys, field, level, reverse, s, o0);
  }

  /** The sort proper: insertion of each slot in turn into the sorted prefix
      before it, moving every entry together with its key. */
  method SortByKeys<T>(a: array<T>, keys: array<int>, field: (T, nat) -> int, level: nat, reverse: bool,
                       ghost s: seq<T>, ghost o0: seq<nat>)
    returns (ghost o: seq<nat>)
    requires 1 <= level <= 3 && a as object != keys && |s| == a.Length
    requires Paired(a[..], keys[..], o0, level, field, s)
    requires SortedAt(field, s, o0, level - 1, reverse)
    modifies a, keys
    ensures Paired(a[..], keys[..], o, level, field, s)
    ensures SortedAt(field, s, o, level, reverse)
  {
    var n := a.Length;
    o := o0;
    for i := 0 to n
      invariant Paired(a[..], keys[..], o, level, field, s)
      invariant forall k :: i <= k < n ==> o[k] == o0[k]
      invariant forall p, q :: 0 <= p < q < i ==> Precedes(field, s, o[p], o[q], level, reverse)
      invariant forall p, q :: 0 <= p < i <= q < n ==> Precedes(field, s, o[p], o[q], level - 1, reverse)
    {
      o := Insert(a, keys, field, i, level, reverse, s, o);
    }
  }

  /** What insertion of slot `i` keeps true while the entry being inserted
      sits at slot `j`: the rest of `o[..i+1]` is sorted, the entry precedes
      everything it has moved past, everything left of it precedes it in the
      previous pass's order, and the whole prefix precedes the untouched
      suffix in that order. */
  ghost predicate InsertOrder<T>(field: (T, nat) -> int, s: seq<T>, o: seq<nat>, i: nat, j: nat,
                                 level: nat, reverse: bool)
    requires 1 <= level <= 3 && j <= i < |o|
    requires forall k :: 0 <= k < |o| ==> o[k] < |s|
  {
    && (forall p, q :: 0 <= p < q <= i && p != j && q != j ==> Precedes(field, s, o[p], o[q], level, reverse))
    && (forall q :: j < q <= i ==> Precedes(field, s, o[j], o[q], level, reverse))
    && (forall p :: 0 <= p < j ==> Precedes(field, s, o[p], o[j], level - 1, reverse))
    && (forall p, q :: 0 <= p <= i < q < |o| ==> Precedes(field, s, o[p], o[q], level - 1, reverse))
  }

  /** Swapping the entry at `j` with its left neighbour, whose key it strictly
      beats, keeps the insertion invariant with the entry now at `j - 1`. */
  lemma InsertSwapStep<T>(field: (T, nat) -> int, s: seq<T>, o: seq<nat>, i: nat, j: nat,
                          level: nat, reverse: bool)
    requires 1 <= level <= 3 && 0 < j <= i < |o|
    requires forall k :: 0 <= k < |o| ==> o[k] < |s|
    requires InsertOrder(field, s, o, i, j, level, reverse)
    requires KeyFirst(field(s[o[j]], 3 - level), field(s[o[j - 1]], 3 - level), reverse)
    ensures InsertOrder(field, s, o[j - 1 := o[j]][j := o[j - 1]], i, j - 1, level, reverse)
  {
    var o' := o[j - 1 := o[j]][j := o[j - 1]];
    assert Precedes(field, s, o[j], o[j - 1], level, reverse);
    forall p, q | 0 <= p < q <= i && p != j - 1 && q != j - 1
      ensures Precedes(field, s, o'[p], o'[q], level, reverse)
    {
      if p == j {
        assert Precedes(field, s, o[j - 1], o[q], level, reverse);
      } else if q == j {
        assert Precedes(field, s, o[p], o[j - 1], level, reverse);
      }
    }
    forall p, q | 0 <= p <= i < q < |o|
      ensures Precedes(field, s, o'[p], o'[q], level - 1, reverse)
    {
      if p == j - 1 {
        assert Precedes(field, s, o[j], o[q], level - 1, reverse);
      } else if p == j {
        assert Precedes(field, s, o[j - 1], o[q], level - 1, reverse);
      }
    }
  }

  /** When the entry stops (at the front, or behind an entry whose key it does
      not strictly beat) the whole prefix `o[..i+1]` is sorted. */
  lemma InsertStop<T>(field: (T, nat) -> int, s: seq<T>, o: seq<nat>, i: nat, j: nat,
                      level: nat, reverse: bool)
    requires 1 <= level <= 3 && j <= i < |o|
    requires forall k :: 0 <= k < |o| ==> o[k] < |s|
    requires InsertOrder(field, s, o, i, j, level, reverse)
    requires j > 0 ==> !KeyFirst(field(s[o[j]], 3 - level), field(s[o[j - 1]], 3 - level), reverse)
    ensures forall p, q :: 0 <= p < q <= i ==> Precedes(field, s, o[p], o[q], level, reverse)
  {
    if j > 0 {
      assert Precedes(field, s, o[j - 1], o[j], level - 1, reverse);
      assert Precedes(field, s, o[j - 1], o[j], level, reverse);
    }
    forall p, q | 0 <= p < q <= i
      ensures Precedes(field, s, o[p], o[q], level, reverse)
    {
      if q == j && p < j - 1 {
        assert Precedes(field, s, o[p], o[j - 1], level, reverse);
        PrecedesTransitive(field, s, o[p], o[j - 1], o[j], level, reverse);
      } else if q == j {
      } else if p == j {
        assert Precedes(field, s, o[j], o[q], level, reverse);
      } else {
        assert Precedes(field, s, o[p], o[q], level, reverse);
      }
    }
  }

  /** Moves the entry at slot `i` (and its key) left past every entry of the
      sorted prefix `a[..i]` whose key it strictly beats; entries with an equal
      key stay in front of it, which is what makes the pass stable. */
  method Insert<T>(a: array<T>, keys: array<int>, field: (T, nat) -> int, i: nat, level: nat, reverse: bool,
                   ghost s: seq<T>, ghost o0: seq<nat>)
    returns (ghost o: seq<nat>)
    requires 1 <= level <= 3 && i < a.Length && a as object != keys && |s| == a.Length
    requires Paired(a[..], keys[..], o0, level, field, s)
    requires forall p, q :: 0 <= p < q < i ==> Precedes(field, s, o0[p], o0[q], level, reverse)
    requires forall p, q :: 0 <= p <= i < q < a.Length ==> Precedes(field, s, o0[p], o0[q], level - 1, reverse)
    requires forall p :: 0 <= p < i ==> Precedes(field, s, o0[p], o0[i], level - 1, reverse)
    modifies a, keys
    ensures Paired(a[..], keys[..], o, level, field, s)
    ensures forall k :: i < k < a.Length ==> o[k] == o0[k]
    ensures forall p, q :: 0 <= p < q <= i ==> Precedes(field, s, o[p], o[q], level, reverse)
    ensures forall p, q :: 0 <= p <= i < q < a.Length ==> Precedes(field, s, o[p], o[q], level - 1, reverse)
  {
    var n := a.Length;
    o := o0;
    var j := i;
    while j > 0 && KeyFirst(keys[j], keys[j - 1], reverse)
      invariant 0 <= j <= i
      invariant Paired(a[..], keys[..], o, level, field, s)
      invariant forall k :: i < k < n ==> o[k] == o0[k]
      invariant InsertOrder(field, s, o, i, j, level, reverse)
    {
      InsertSwapStep(field, s, o, i, j, level, reverse);
      o := SwapSlots(a, keys, field, j, level, s, o);
      j := j - 1;
    }
    InsertStop(field, s, o, i, j, level, reverse);
  }

  /** Exchanging two neighbouring slots of the list, of its keys and of the
      origins keeps them paired. */
  lemma PairedSwap<T>(a: seq<T>, keys: seq<int>, o: seq<nat>, level: nat,
                      field: (T, nat) -> int, s: seq<T>, j: nat)
    requires 0 < j < |o| && level <= 3
    requires Paired(a, keys, o, level, field, s)
    ensures Paired(a[j - 1 := a[j]][j := a[j - 1]], keys[j - 1 := keys[j]][j := keys[j - 1]],
                   o[j - 1 := o[j]][j := o[j - 1]], level, field, s)
  {
  }

  /** Exchanges slots `j - 1` and `j` of the list and of its keys. */
  method SwapSlots<T>(a: array<T>, keys: array<int>, field: (T, nat) -> int, j: nat, level: nat,
                      ghost s: seq<T>, ghost o0: seq<nat>)
    returns (ghost o: seq<nat>)
    requires 0 < j < a.Length && level <= 3 && a as object != keys
    requires Paired(a[..], keys[..], o0, level, field, s)
    modifies a, keys
    ensures o == o0[j - 1 := o0[j]][j := o0[j - 1]]
    ensures Paired(a[..], keys[..], o, level, field, s)
  {
    PairedSwap(a[..], keys[..], o0, level, field, s, j);
    Swap(a, j - 1, j);
    Swap(keys, j - 1, j);
    o := o0[j - 1 := o0[j]][j := o0[j - 1]];
  }

  /** Exchanges two slots of an array. */
  method Swap<T>(a: array<T>, i: nat, j: nat)
    requires i < j < a.Length
    modifies a
    ensures a[..] == old(a[..])[i := old(a[j])][j := old(a[i])]
  {
    a[i], a[j] := a[j], a[i];
  }
}
