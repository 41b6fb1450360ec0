/** Why merging the two least counts is optimal. The cost of the greedy merging is a
    function of the multiset of counts alone, and no assignment of code lengths that
    meets Kraft's inequality is cheaper. */
module Optimality {
  import opened KraftSums

  // ---------- The greedy cost ----------

  /** A bag of counts, kept as an ascending list. */
  datatype Counts = Nil | Cons(head: int, tail: Counts)

  predicate Ascending(s: Counts) {
    s.Cons? && s.tail.Cons? ==> s.head <= s.tail.head && Ascending(s.tail)
  }

  function Length(s: Counts): nat {
    if s.Nil? then 0 else 1 + Length(s.tail)
  }

  function Insert(x: int, s: Counts): (r: Counts)
    ensures Length(r) == Length(s) + 1
  {
    if s.Nil? || x <= s.head then Cons(x, s) else Cons(s.head, Insert(x, s.tail))
  }

  /** The sum of the counts of all the nodes that repeatedly merging the two least
      counts creates. */
  function GreedyCost(s: Counts): int
    decreases Length(s)
  {
    if s.Nil? || s.tail.Nil? then 0
    else
      var merged := s.head + s.tail.head;
      assert Length(s) == 2 + Length(s.tail.tail);
      merged + GreedyCost(Insert(merged, s.tail.tail))
  }

  lemma GreedyCostUnfold(a: int, b: int, s: Counts)
    ensures GreedyCost(Cons(a, Cons(b, s))) == a + b + GreedyCost(Insert(a + b, s))
  {
  }

  /** s' is s with its two least counts a and b replaced by their sum. */
  predicate GreedyMerge(s: Counts, a: int, b: int, s': Counts) {
    s.Cons? && s.tail.Cons? && s.head == a && s.tail.head == b && s' == Insert(a + b, s.tail.tail)
  }

  lemma GreedyCostStep(s: Counts, a: int, b: int, s': Counts)
    requires GreedyMerge(s, a, b, s')
    ensures GreedyCost(s) == a + b + GreedyCost(s')
  {
    GreedyCostUnfold(a, b, s.tail.tail);
  }

  lemma {:induction false} InsertCommutes(x: int, y: int, s: Counts)
    ensures Insert(x, Insert(y, s)) == Insert(y, Insert(x, s))
  {
    if s.Cons? {
      InsertCommutes(x, y, s.tail);
    }
  }

  // ---------- Weights with code lengths ----------

  /** A list of weights, each with the length of its code. */
  datatype Coded = End | Item(weight: int, length: nat, rest: Coded)

  /** The product w * l, as a recursive function so that proofs about sums of products
      stay linear. */
  function Times(w: int, l: nat): int {
    if l == 0 then 0 else w + Times(w, l - 1)
  }

  function Cost(c: Coded): int {
    if c.End? then 0 else Times(c.weight, c.length) + Cost(c.rest)
  }

  function Weights(c: Coded): Counts {
    if c.End? then Nil else Insert(c.weight, Weights(c.rest))
  }

  predicate AtLeast(c: Coded, a: int) {
    c.Item? ==> a <= c.weight && AtLeast(c.rest, a)
  }

  predicate Within(c: Coded, m: nat) {
    c.Item? ==> c.length <= m && Within(c.rest, m)
  }

  /** The Kraft sum of the lengths, times 2^m. */
  function Kraft(c: Coded, m: nat): nat
    requires Within(c, m)
  {
    if c.End? then 0 else Pow2(m - c.length) + Kraft(c.rest, m)
  }

  lemma {:induction false} TimesIsProduct(w: int, l: nat)
    ensures Times(w, l) == w * l
  {
    if l > 0 {
      TimesIsProduct(w, l - 1);
    }
  }

  lemma {:induction false} TimesMonotone(w: int, l: nat, h: nat)
    requires w >= 0 && l <= h
    ensures Times(w, l) <= Times(w, h)
    decreases h
  {
    if l < h {
      TimesMonotone(w, l, h - 1);
    }
  }

  lemma {:induction false} TimesAdd(a: int, b: int, l: nat)
    ensures Times(a + b, l) == Times(a, l) + Times(b, l)
  {
    if l > 0 {
      TimesAdd(a, b, l - 1);
    }
  }

  /** The heavier weight should have the shorter length. */
  lemma {:induction false} Crossing(a: int, w: int, l: nat, h: nat)
    requires a <= w && l <= h
    ensures Times(a, h) + Times(w, l) <= Times(a, l) + Times(w, h)
    decreases h
  {
    if l < h {
      Crossing(a, w, l, h - 1);
    }
  }

  lemma {:induction false} WithinMore(c: Coded, l: nat, m: nat)
    requires Within(c, l) && l <= m
    ensures Within(c, m)
  {
    if c.Item? {
      WithinMore(c.rest, l, m);
    }
  }

  lemma {:induction false} AtLeastLess(c: Coded, b: int, a: int)
    requires AtLeast(c, b) && a <= b
    ensures AtLeast(c, a)
  {
    if c.Item? {
      AtLeastLess(c.rest, b, a);
    }
  }

  // ---------- The exchange argument ----------

  /** Takes a least weight out of the list. */
  lemma {:induction false} TakeMin(c: Coded, m: nat) returns (a: int, l: nat, c': Coded)
    requires c.Item? && Within(c, m)
    ensures AtLeast(c, 0) ==> a >= 0
    ensures AtLeast(c, a) && AtLeast(c', a) && Weights(c) == Cons(a, Weights(c'))
    ensures l <= m && Within(c', m) && Kraft(c, m) == Pow2(m - l) + Kraft(c', m)
    ensures Cost(c) == Times(a, l) + Cost(c')
  {
    if c.rest.End? {
      a, l, c' := c.weight, c.length, End;
    } else {
      a, l, c' := TakeMin(c.rest, m);
      if c.weight <= a {
        AtLeastLess(c.rest, a, c.weight);
        a, l, c' := c.weight, c.length, c.rest;
      } else {
        c' := Item(c.weight, c.length, c');
      }
    }
  }

  /** Gives the weight a, which is no heavier than any of the list, the greatest length:
      the Kraft sum stays and the cost cannot grow. */
  lemma {:induction false} GiveMax(a: int, l: nat, c: Coded, m: nat) returns (l': nat, c': Coded)
    requires AtLeast(c, a) && l <= m && Within(c, m)
    ensures l <= l' <= m && Within(c', l') && Within(c', m)
    ensures Weights(c') == Weights(c) && AtLeast(c', a)
    ensures Pow2(m - l') + Kraft(c', m) == Pow2(m - l) + Kraft(c, m)
    ensures Times(a, l') + Cost(c') <= Times(a, l) + Cost(c)
    decreases c
  {
    if c.End? {
      l', c' := l, c;
    } else if l < c.length {
      l', c' := GiveMax(a, c.length, c.rest, m);
      Crossing(a, c.weight, l, c.length);
      c' := Item(c.weight, l, c');
    } else {
      l', c' := GiveMax(a, l, c.rest, m);
      c' := Item(c.weight, c.length, c');
    }
  }

  /** Takes a least weight out of the list, with a greatest length. */
  lemma Extract(c: Coded, m: nat) returns (a: int, l: nat, c': Coded)
    requires c.Item? && Within(c, m)
    ensures AtLeast(c, 0) ==> a >= 0
    ensures AtLeast(c, a) && AtLeast(c', a) && Weights(c) == Cons(a, Weights(c'))
    ensures l <= m && Within(c', l) && Within(c', m)
    ensures Kraft(c, m) == Pow2(m - l) + Kraft(c', m)
    ensures Times(a, l) + Cost(c') <= Cost(c)
  {
    a, l, c' := TakeMin(c, m);
    l, c' := GiveMax(a, l, c', m);
  }

  /** Scaling by powers of two keeps a strict inequality between Kraft sums. */
  lemma {:induction false} ScaleDown(c: Coded, l: nat, m: nat)
    requires l <= m && Within(c, l) && Within(c, m) && Kraft(c, m) < Pow2(m)
    ensures Kraft(c, l) < Pow2(l)
    decreases m
  {
    if l < m {
      WithinMore(c, l, m - 1);
      KraftDouble(c, m - 1);
      ScaleDown(c, l, m - 1);
    }
  }

  lemma {:induction false} KraftDouble(c: Coded, m: nat)
    requires Within(c, m)
    ensures Within(c, m + 1) && Kraft(c, m + 1) == 2 * Kraft(c, m)
  {
    if c.Item? {
      KraftDouble(c.rest, m);
    }
  }

  lemma MergedCost(a: int, la: nat, b: int, lb: nat)
    requires a >= 0 && 1 <= lb <= la
    ensures a + b + Times(a + b, lb - 1) <= Times(a, la) + Times(b, lb)
  {
    TimesAdd(a, b, lb);
    TimesMonotone(a, lb, la);
  }

  /** One merge of the two least weights: their codes are replaced by one shorter code for
      the merged weight, which still meets Kraft's inequality and saves the merged weight. */
  lemma MergeStep(c: Coded, m: nat) returns (c': Coded, m': nat, a: int, b: int, s: Counts)
    requires c.Item? && c.rest.Item? && AtLeast(c, 0)
    requires Within(c, m) && Kraft(c, m) <= Pow2(m)
    ensures AtLeast(c', 0) && Within(c', m') && Kraft(c', m') <= Pow2(m')
    ensures Weights(c) == Cons(a, Cons(b, s)) && Weights(c') == Insert(a + b, s)
    ensures a + b + Cost(c') <= Cost(c)
  {
    var la, lb, c1, c2;
    a, la, c1 := Extract(c, m);
    assert c1.Item? by {
      assert Length(Weights(c)) >= 2;
    }
    ScaleDown(c1, la, m);
    AtLeastLess(c1, a, 0);
    b, lb, c2 := Extract(c1, la);
    AtLeastLess(c2, b, 0);
    ScaleDown(Item(b, lb, c2), lb, la);
    assert lb >= 1 && 2 + Kraft(c2, lb) <= Pow2(lb);
    c', m', s := Item(a + b, lb - 1, c2), lb, Weights(c2);
    assert Pow2(1) == 2;
    MergedCost(a, la, b, lb);
  }

  /** No lengths that meet Kraft's inequality beat the greedy merging. */
  lemma {:induction false} GreedyIsOptimal(c: Coded, m: nat)
    requires AtLeast(c, 0) && Within(c, m) && Kraft(c, m) <= Pow2(m)
    ensures GreedyCost(Weights(c)) <= Cost(c)
    decreases Length(Weights(c))
  {
    if c.Item? && c.rest.Item? {
      var c', m', a, b, s := MergeStep(c, m);
      GreedyIsOptimal(c', m');
      GreedyCostUnfold(a, b, s);
    } else if c.Item? {
      TimesMonotone(c.weight, 0, c.length);
    }
  }
}
