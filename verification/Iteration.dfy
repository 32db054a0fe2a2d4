/** Repeating a step, and steps that respect an addition. */
module Iteration {

  function Iterate<W>(f: W -> W, w: W, k: nat): W
    decreases k
  {
    if k == 0 then w else Iterate(f, f(w), k - 1)
  }

  /** Feeding `b` in piece by piece: each step takes a piece in and drops it. */
  function Feed<W>(next: (W, W) -> W, drop: W -> W, w: W, b: W, k: nat): W
    decreases k
  {
    if k == 0 then w else Feed(next, drop, next(w, b), drop(b), k - 1)
  }

  lemma {:induction false} IterateIsLinear<W(!new)>(f: W -> W, add: (W, W) -> W, x: W, y: W, k: nat)
    requires forall a, b :: f(add(a, b)) == add(f(a), f(b))
    ensures Iterate(f, add(x, y), k) == add(Iterate(f, x, k), Iterate(f, y, k))
    decreases k
  {
    if k > 0 {
      IterateIsLinear(f, add, f(x), f(y), k - 1);
    }
  }

  /** Adding everything first and stepping is feeding it in. */
  lemma {:induction false} AddedIsFed<W(!new)>(f: W -> W, add: (W, W) -> W, next: (W, W) -> W, drop: W -> W, w: W, b: W, k: nat)
    requires forall a, c :: f(add(a, c)) == add(next(a, c), drop(c))
    ensures Iterate(f, add(w, b), k) == add(Feed(next, drop, w, b, k), Iterate(drop, b, k))
    decreases k
  {
    if k > 0 {
      AddedIsFed(f, add, next, drop, next(w, b), drop(b), k - 1);
    }
  }

  /** A table of a function's values from 0 up. */
  ghost predicate Tabulates<W(!new)>(table: seq<W>, entry: nat -> W) {
    table == [] || (table[|table| - 1] == entry(|table| - 1) && Tabulates(table[..|table| - 1], entry))
  }

  lemma OneEntryMore<W(!new)>(table: seq<W>, entry: nat -> W, n: nat, c: W, longer: seq<W>)
    requires Tabulates(table, entry) && |table| == n && c == entry(n) && longer == table + [c]
    ensures Tabulates(longer, entry)
  {
    assert longer[..n] == table;
  }

  lemma {:induction false} EntryAt<W(!new)>(table: seq<W>, entry: nat -> W, n: nat)
    requires Tabulates(table, entry) && n < |table|
    ensures table[n] == entry(n)
    decreases |table|
  {
    if n < |table| - 1 {
      EntryAt(table[..|table| - 1], entry, n);
    }
  }
}
