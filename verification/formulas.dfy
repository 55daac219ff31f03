/**
  The fragment of the integer theory the model builder asserts: integer terms
  (named variables and literals), ordering comparisons, and n-ary disjunction and
  conjunction, with their meaning under an assignment of integers to variable names.
 */
module Formulas {
  import opened Seqs

  /** An integer term: a named decision variable or a literal. */
  datatype Term = Var(name: string) | Lit(n: int)

  /** A boolean term built from comparisons and logical combinators. */
  datatype Formula =
    | Ge(lhs: Term, rhs: Term)
    | Le(lhs: Term, rhs: Term)
    | Lt(lhs: Term, rhs: Term)
    | Gt(lhs: Term, rhs: Term)
    | Or(disjuncts: seq<Formula>)
    | And(conjuncts: seq<Formula>)

  /** What a satisfying model binds each variable to. */
  type Assignment = string -> int

  function Value(t: Term, a: Assignment): int {
    match t
    case Var(name) => a(name)
    case Lit(n) => n
  }

  /** The values of a sequence of terms, in order. */
  function Values(ts: seq<Term>, a: Assignment): (vs: seq<int>)
    ensures |vs| == |ts|
    ensures forall k :: 0 <= k < |ts| ==> vs[k] == Value(ts[k], a)
  {
    seq(|ts|, k requires 0 <= k < |ts| => Value(ts[k], a))
  }

  predicate Eval(f: Formula, a: Assignment) {
    match f
    case Ge(l, r) => Value(l, a) >= Value(r, a)
    case Le(l, r) => Value(l, a) <= Value(r, a)
    case Lt(l, r) => Value(l, a) < Value(r, a)
    case Gt(l, r) => Value(l, a) > Value(r, a)
    case Or(fs) => exists i :: 0 <= i < |fs| && Eval(fs[i], a)
    case And(fs) => forall i :: 0 <= i < |fs| ==> Eval(fs[i], a)
  }

  /** Every asserted formula holds: the solver's assertions accumulate as a conjunction. */
  predicate EvalAll(fs: seq<Formula>, a: Assignment) {
    forall i :: 0 <= i < |fs| ==> Eval(fs[i], a)
  }

  lemma EvalAllAppend(fs: seq<Formula>, gs: seq<Formula>, a: Assignment)
    ensures EvalAll(fs + gs, a) <==> EvalAll(fs, a) && EvalAll(gs, a)
  {
    if EvalAll(fs, a) && EvalAll(gs, a) {
      forall i | 0 <= i < |fs + gs| ensures Eval((fs + gs)[i], a) {
        if i >= |fs| {
          assert (fs + gs)[i] == gs[i - |fs|];
        }
      }
    }
    if EvalAll(fs + gs, a) {
      forall i | 0 <= i < |fs| ensures Eval(fs[i], a) {
        assert (fs + gs)[i] == fs[i];
      }
      forall i | 0 <= i < |gs| ensures Eval(gs[i], a) {
        assert (fs + gs)[|fs| + i] == gs[i];
      }
    }
  }

  /** The clause `s < t || s > t`: the two terms take different values. */
  function PairClause(s: Term, t: Term): (f: Formula)
    ensures forall a :: Eval(f, a) <==> Value(s, a) != Value(t, a)
  {
    var f := Or([Lt(s, t), Gt(s, t)]);
    assert forall a :: Eval(f, a) <==> Eval(Lt(s, t), a) || Eval(Gt(s, t), a) by {
      forall a ensures Eval(f, a) <==> Eval(Lt(s, t), a) || Eval(Gt(s, t), a) {
        assert f.disjuncts[0] == Lt(s, t) && f.disjuncts[1] == Gt(s, t);
      }
    }
    f
  }

  /**
    One pair clause for every unordered pair of terms, in the order of
    two-element combinations: the first term with each later one, then the rest.
   */
  function DistinctPairs(ts: seq<Term>): (r: seq<Formula>)
    ensures |r| == |ts| * (|ts| - 1) / 2
    decreases |ts|
  {
    if |ts| == 0 then []
    else
      var first := seq(|ts| - 1, j requires 0 <= j < |ts| - 1 => PairClause(ts[0], ts[j + 1]));
      var rest := DistinctPairs(ts[1..]);
      assert |rest| == (|ts| - 1) * (|ts| - 2) / 2;
      first + rest
  }

  /** Every pair `(ts[i], ts[j])` with `i < j` has its clause in DistinctPairs. */
  lemma {:induction false} DistinctPairsComplete(ts: seq<Term>)
    ensures forall i, j :: 0 <= i < j < |ts| ==> PairClause(ts[i], ts[j]) in DistinctPairs(ts)
    decreases |ts|
  {
    if |ts| > 0 {
      var tail := ts[1..];
      DistinctPairsComplete(tail);
      var first := seq(|ts| - 1, j requires 0 <= j < |ts| - 1 => PairClause(ts[0], ts[j + 1]));
      var rest := DistinctPairs(tail);
      assert DistinctPairs(ts) == first + rest;
      forall i, j | 0 <= i < j < |ts| ensures PairClause(ts[i], ts[j]) in first + rest {
        if i == 0 {
          assert first[j - 1] == PairClause(ts[i], ts[j]);
        } else {
          assert tail[i - 1] == ts[i] && tail[j - 1] == ts[j];
          assert PairClause(tail[i - 1], tail[j - 1]) in rest;
        }
      }
    }
  }

  /** Every clause in DistinctPairs is the clause of some pair `(ts[i], ts[j])` with `i < j`. */
  lemma {:induction false} DistinctPairsSound(ts: seq<Term>)
    ensures forall f :: f in DistinctPairs(ts) ==>
      exists i, j :: 0 <= i < j < |ts| && f == PairClause(ts[i], ts[j])
    decreases |ts|
  {
    if |ts| > 0 {
      var tail := ts[1..];
      DistinctPairsSound(tail);
      var first := seq(|ts| - 1, j requires 0 <= j < |ts| - 1 => PairClause(ts[0], ts[j + 1]));
      var rest := DistinctPairs(tail);
      assert DistinctPairs(ts) == first + rest;
      forall f | f in first + rest
        ensures exists i, j :: 0 <= i < j < |ts| && f == PairClause(ts[i], ts[j])
      {
        if f in first {
          var k :| 0 <= k < |first| && first[k] == f;
          assert f == PairClause(ts[0], ts[k + 1]);
        } else {
          assert f in rest;
          var i, j :| 0 <= i < j < |tail| && f == PairClause(tail[i], tail[j]);
          assert f == PairClause(ts[i + 1], ts[j + 1]);
        }
      }
    }
  }

  /** If all pair clauses hold, the terms take pairwise different values. */
  lemma PairsHoldImpliesDistinct(ts: seq<Term>, a: Assignment)
    requires EvalAll(DistinctPairs(ts), a)
    ensures Distinct(Values(ts, a))
  {
    DistinctPairsComplete(ts);
    var r := DistinctPairs(ts);
    var vs := Values(ts, a);
    forall i, j | 0 <= i < |vs| && 0 <= j < |vs| && i != j ensures vs[i] != vs[j] {
      var lo, hi := if i < j then i else j, if i < j then j else i;
      var k :| 0 <= k < |r| && r[k] == PairClause(ts[lo], ts[hi]);
      assert Eval(r[k], a);
    }
  }

  /** If the terms take pairwise different values, all pair clauses hold. */
  lemma DistinctImpliesPairsHold(ts: seq<Term>, a: Assignment)
    requires Distinct(Values(ts, a))
    ensures EvalAll(DistinctPairs(ts), a)
  {
    DistinctPairsSound(ts);
    var r := DistinctPairs(ts);
    var vs := Values(ts, a);
    forall k | 0 <= k < |r| ensures Eval(r[k], a) {
      assert r[k] in r;
      var i, j :| 0 <= i < j < |ts| && r[k] == PairClause(ts[i], ts[j]);
      assert vs[i] != vs[j];
    }
  }

  /** All pair clauses of `ts` hold exactly when the terms take pairwise different values. */
  lemma DistinctPairsMeaning(ts: seq<Term>)
    ensures forall a :: EvalAll(DistinctPairs(ts), a) <==> Distinct(Values(ts, a))
  {
    forall a ensures EvalAll(DistinctPairs(ts), a) <==> Distinct(Values(ts, a)) {
      if EvalAll(DistinctPairs(ts), a) {
        PairsHoldImpliesDistinct(ts, a);
      }
      if Distinct(Values(ts, a)) {
        DistinctImpliesPairsHold(ts, a);
      }
    }
  }

  /**
    The uniqueness constraint of one row, column or cube: the conjunction of all
    pair clauses, which holds exactly when the terms take pairwise different values.
   */
  function ConstrainDistinctValues(ts: seq<Term>): (f: Formula)
    ensures f.And? && |f.conjuncts| == |ts| * (|ts| - 1) / 2
    ensures forall a :: Eval(f, a) <==> Distinct(Values(ts, a))
  {
    DistinctPairsMeaning(ts);
    And(DistinctPairs(ts))
  }
}
