/** The subset rule of add_knowledge as a function of the list of sentences
    it starts from. Two positions walk the list, `i` over the first
    sentence of a pair and `j` over the second; the list grows while they
    walk, and both walks go on to the sentences added on the way. A pair of
    different, non-empty sentences whose first one's cells are among the
    second one's adds their resolvent, unless one of the two cell sets was
    used before. That check sets a flag that is never cleared, so after the
    first pair that hits a used set no sentence is added any more. */
module Resolution {
  import opened Game
  import opened Sentences
  import opened Saturation
  import SetFacts

  /** Every cell some sentence speaks of. */
  function CellsOf(facts: seq<Constraint>): (u: set<Cell>)
    ensures forall k | 0 <= k < |facts| :: facts[k].cells <= u
  {
    if facts == [] then {} else CellsOf(facts[..|facts| - 1]) + facts[|facts| - 1].cells
  }

  /** Every sentence speaks only of cells of `u`. */
  predicate Within(facts: seq<Constraint>, u: set<Cell>) {
    forall k | 0 <= k < |facts| :: facts[k].cells <= u
  }

  /** The cell sets the walk has used, as a set. */
  function Elems(used: seq<set<Cell>>): set<set<Cell>> {
    set s | s in used
  }

  /** All sets of cells of `u`; what is left of them after removing the
      used ones bounds how many sentences the walk can still add. */
  function Subsets(u: set<Cell>): set<set<Cell>> {
    set s: set<Cell> | s <= u
  }

  /** The test applied to each used cell set, as written: same size and
      included. */
  predicate SameCells(a: set<Cell>, b: set<Cell>) {
    |a| == |b| && a <= b
  }

  /** The loop over the used cell sets: whether `a` or `b` is one of them.
      The size-and-inclusion test is set equality. */
  function Repeats(used: seq<set<Cell>>, a: set<Cell>, b: set<Cell>): (r: bool)
    ensures r <==> exists k | 0 <= k < |used| :: used[k] == a || used[k] == b
  {
    if used == [] then false
    else
      var last := used[|used| - 1];
      if SameCells(a, last) then
        SetFacts.SubsetOfSameSize(a, last);
        true
      else if SameCells(b, last) then
        SetFacts.SubsetOfSameSize(b, last);
        true
      else
        Repeats(used[..|used| - 1], a, b)
  }

  /** The condition on a pair: different sentences, both with cells, the
      cells of the first among those of the second. */
  predicate Resolves(s1: Constraint, s2: Constraint) {
    s1 != s2 && |s1.cells| != 0 && |s2.cells| != 0 && s1.cells <= s2.cells
  }

  /** The list, the used cell sets and the flag, as the walk carries them. */
  datatype Walk = Walk(facts: seq<Constraint>, used: seq<set<Cell>>, repeated: bool)

  /** One pair of the walk: a pair the test rejects changes nothing; an
      accepted pair sets the flag when one of its cell sets was used; a
      fresh pair appends its resolvent and records both cell sets. */
  function PairStep(facts: seq<Constraint>, i: nat, j: nat, used: seq<set<Cell>>, repeated: bool): (w: Walk)
    requires i < |facts| && j < |facts|
    ensures |facts| <= |w.facts| <= |facts| + 1 && w.facts[..|facts|] == facts
    ensures w.facts == facts <==> w.used == used
  {
    var s1, s2 := facts[i], facts[j];
    if !Resolves(s1, s2) then Walk(facts, used, repeated)
    else
      var again := repeated || Repeats(used, s1.cells, s2.cells);
      if again then Walk(facts, used, again)
      else Walk(facts + [Resolvent(s1, s2)], used + [s1.cells, s2.cells], again)
  }

  /** The walk from the pair at positions `(i, j)`, with the used cell sets
      `used` and the flag `repeated`. `u` holds every cell of the list; it
      does not change the result and only bounds the walk. */
  function ResolveFrom(facts: seq<Constraint>, i: nat, j: nat, used: seq<set<Cell>>,
                       repeated: bool, ghost u: set<Cell>): (r: seq<Constraint>)
    requires i <= |facts| && j <= |facts|
    requires Within(facts, u) && forall k | 0 <= k < |used| :: used[k] <= u
    ensures |facts| <= |r| && r[..|facts|] == facts
    ensures Within(r, u)
    decreases Subsets(u) - Elems(used), |facts| - i, |facts| - j
  {
    if i == |facts| then facts
    else if j == |facts| then ResolveFrom(facts, i + 1, 0, used, repeated, u)
    else
      var s1, s2 := facts[i], facts[j];
      if !Resolves(s1, s2) then ResolveFrom(facts, i, j + 1, used, repeated, u)
      else
        var again := repeated || Repeats(used, s1.cells, s2.cells);
        if again then ResolveFrom(facts, i, j + 1, used, again, u)
        else
          assert s1.cells in Subsets(u) - Elems(used);
          assert Elems(used + [s1.cells, s2.cells]) == Elems(used) + {s1.cells, s2.cells};
          var grown := facts + [Resolvent(s1, s2)];
          assert grown[..|facts|] == facts;
          ResolveFrom(grown, i, j + 1, used + [s1.cells, s2.cells], again, u)
  }

  /** Past the last second sentence, the walk moves on to the next first
      sentence. */
  lemma ResolveFromNextRow(facts: seq<Constraint>, i: nat, used: seq<set<Cell>>, repeated: bool, u: set<Cell>)
    requires i < |facts|
    requires Within(facts, u) && forall k | 0 <= k < |used| :: used[k] <= u
    ensures ResolveFrom(facts, i, |facts|, used, repeated, u) == ResolveFrom(facts, i + 1, 0, used, repeated, u)
  {
  }

  /** Past the last first sentence, the walk is over. */
  lemma ResolveFromEnd(facts: seq<Constraint>, used: seq<set<Cell>>, repeated: bool, u: set<Cell>)
    requires Within(facts, u) && forall k | 0 <= k < |used| :: used[k] <= u
    ensures ResolveFrom(facts, |facts|, 0, used, repeated, u) == facts
  {
  }

  /** A pair the rule does not accept is passed over. */
  lemma ResolveFromPass(facts: seq<Constraint>, i: nat, j: nat, used: seq<set<Cell>>, repeated: bool, u: set<Cell>)
    requires i < |facts| && j < |facts| && !Resolves(facts[i], facts[j])
    requires Within(facts, u) && forall k | 0 <= k < |used| :: used[k] <= u
    ensures ResolveFrom(facts, i, j, used, repeated, u) == ResolveFrom(facts, i, j + 1, used, repeated, u)
  {
  }

  /** An accepted pair with a used cell set, or with the flag already set,
      sets the flag and adds nothing. */
  lemma ResolveFromRepeat(facts: seq<Constraint>, i: nat, j: nat, used: seq<set<Cell>>, repeated: bool, u: set<Cell>)
    requires i < |facts| && j < |facts| && Resolves(facts[i], facts[j])
    requires repeated || Repeats(used, facts[i].cells, facts[j].cells)
    requires Within(facts, u) && forall k | 0 <= k < |used| :: used[k] <= u
    ensures ResolveFrom(facts, i, j, used, repeated, u) == ResolveFrom(facts, i, j + 1, used, true, u)
  {
  }

  /** An accepted pair with fresh cell sets adds its resolvent and uses
      both cell sets up. */
  lemma ResolveFromAdd(facts: seq<Constraint>, i: nat, j: nat, used: seq<set<Cell>>, u: set<Cell>)
    requires i < |facts| && j < |facts| && Resolves(facts[i], facts[j])
    requires !Repeats(used, facts[i].cells, facts[j].cells)
    requires Within(facts, u) && forall k | 0 <= k < |used| :: used[k] <= u
    ensures ResolveFrom(facts, i, j, used, false, u)
         == ResolveFrom(facts + [Resolvent(facts[i], facts[j])], i, j + 1, used + [facts[i].cells, facts[j].cells], false, u)
  {
  }

  /** The resolvent speaks only of cells the sentences speak of. */
  lemma ResolventWithin(facts: seq<Constraint>, i: nat, j: nat, u: set<Cell>)
    requires i < |facts| && j < |facts| && Within(facts, u)
    ensures Within(facts + [Resolvent(facts[i], facts[j])], u)
  {
    assert facts[j].cells <= u;
  }

  /** Using a cell set of `u` that was not used before leaves fewer unused
      sets of cells. */
  lemma UsingShrinksUnused(used: seq<set<Cell>>, a: set<Cell>, b: set<Cell>, u: set<Cell>)
    requires a <= u && b <= u && forall k | 0 <= k < |used| :: used[k] <= u && used[k] != a
    ensures forall k | 0 <= k < |used| + 2 :: (used + [a, b])[k] <= u
    ensures Subsets(u) - Elems(used + [a, b]) < Subsets(u) - Elems(used)
  {
    assert a in Subsets(u) - Elems(used);
    assert Elems(used + [a, b]) == Elems(used) + {a, b};
  }

  /** The whole subset rule. */
  /** The walk from a pair is the walk from the next pair after that pair's
      step. */
  lemma PairStepContinues(facts: seq<Constraint>, i: nat, j: nat, used: seq<set<Cell>>, repeated: bool, u: set<Cell>)
    requires i < |facts| && j < |facts|
    requires Within(facts, u) && forall k | 0 <= k < |used| :: used[k] <= u
    ensures var w := PairStep(facts, i, j, used, repeated);
            && Within(w.facts, u) && (forall k | 0 <= k < |w.used| :: w.used[k] <= u)
            && ResolveFrom(facts, i, j, used, repeated, u) == ResolveFrom(w.facts, i, j + 1, w.used, w.repeated, u)
  {
    var s1, s2 := facts[i], facts[j];
    if !Resolves(s1, s2) {
      ResolveFromPass(facts, i, j, used, repeated, u);
    } else if repeated || Repeats(used, s1.cells, s2.cells) {
      ResolveFromRepeat(facts, i, j, used, repeated, u);
    } else {
      ResolveFromAdd(facts, i, j, used, u);
      ResolventWithin(facts, i, j, u);
      UsingShrinksUnused(used, s1.cells, s2.cells, u);
    }
  }

  /** A step never gives back a used cell set, and a step that records
      none adds no sentence. */
  lemma PairStepShrinks(facts: seq<Constraint>, i: nat, j: nat, used: seq<set<Cell>>, repeated: bool, u: set<Cell>)
    requires i < |facts| && j < |facts|
    requires Within(facts, u) && forall k | 0 <= k < |used| :: used[k] <= u
    ensures var w := PairStep(facts, i, j, used, repeated);
            && Subsets(u) - Elems(w.used) <= Subsets(u) - Elems(used)
            && (Subsets(u) - Elems(w.used) == Subsets(u) - Elems(used) ==> w.facts == facts)
  {
    var s1, s2 := facts[i], facts[j];
    if Resolves(s1, s2) && !(repeated || Repeats(used, s1.cells, s2.cells)) {
      UsingShrinksUnused(used, s1.cells, s2.cells, u);
    }
  }

  function Resolve(facts: seq<Constraint>): seq<Constraint> {
    ResolveFrom(facts, 0, 0, [], false, CellsOf(facts))
  }

  /** The sentence at position `k` is the resolvent of an earlier pair the
      rule accepts. */
  ghost predicate DerivedAt(facts: seq<Constraint>, k: int)
    requires 0 <= k < |facts|
  {
    exists a, b | 0 <= a < k && 0 <= b < k ::
      Resolves(facts[a], facts[b]) && facts[k] == Resolvent(facts[a], facts[b])
  }

  /** Every sentence from position `n` on is derived. */
  ghost predicate DerivedFrom(facts: seq<Constraint>, n: int) {
    forall k | 0 <= n <= k < |facts| :: DerivedAt(facts, k)
  }

  /** Each added sentence is the resolvent of two sentences before it. */
  lemma {:induction false} ResolveFromOnlyDerives(facts: seq<Constraint>, i: nat, j: nat,
                                                 used: seq<set<Cell>>, repeated: bool, u: set<Cell>, n: nat)
    requires i <= |facts| && j <= |facts|
    requires Within(facts, u) && forall k | 0 <= k < |used| :: used[k] <= u
    requires n <= |facts| && DerivedFrom(facts, n)
    ensures DerivedFrom(ResolveFrom(facts, i, j, used, repeated, u), n)
    decreases Subsets(u) - Elems(used), |facts| - i, |facts| - j
  {
    if i == |facts| {
    } else if j == |facts| {
      ResolveFromOnlyDerives(facts, i + 1, 0, used, repeated, u, n);
    } else {
      var s1, s2 := facts[i], facts[j];
      if !Resolves(s1, s2) {
        ResolveFromOnlyDerives(facts, i, j + 1, used, repeated, u, n);
      } else {
        var again := repeated || Repeats(used, s1.cells, s2.cells);
        if again {
          ResolveFromOnlyDerives(facts, i, j + 1, used, again, u, n);
        } else {
          assert s1.cells in Subsets(u) - Elems(used);
          assert Elems(used + [s1.cells, s2.cells]) == Elems(used) + {s1.cells, s2.cells};
          var grown := facts + [Resolvent(s1, s2)];
          forall k | n <= k < |grown| ensures DerivedAt(grown, k) {
            if k < |facts| {
              assert DerivedAt(facts, k);
              var a, b :| 0 <= a < k && 0 <= b < k &&
                          Resolves(facts[a], facts[b]) && facts[k] == Resolvent(facts[a], facts[b]);
              assert grown[a] == facts[a] && grown[b] == facts[b];
            } else {
              assert grown[i] == s1 && grown[j] == s2;
            }
          }
          ResolveFromOnlyDerives(grown, i, j + 1, used + [s1.cells, s2.cells], again, u, n);
        }
      }
    }
  }

  /** Once the flag is set the walk adds nothing: the flag is never
      cleared. */
  lemma {:induction false} NothingAddedOnceRepeated(facts: seq<Constraint>, i: nat, j: nat,
                                                    used: seq<set<Cell>>, u: set<Cell>)
    requires i <= |facts| && j <= |facts|
    requires Within(facts, u) && forall k | 0 <= k < |used| :: used[k] <= u
    ensures ResolveFrom(facts, i, j, used, true, u) == facts
    decreases |facts| - i, |facts| - j
  {
    if i == |facts| {
    } else if j == |facts| {
      NothingAddedOnceRepeated(facts, i + 1, 0, used, u);
    } else {
      NothingAddedOnceRepeated(facts, i, j + 1, used, u);
    }
  }

  /** A derived sentence is true whenever the sentences before it are. */
  lemma {:induction false} DerivedIsTrue(facts: seq<Constraint>, k: int, mines: set<Cell>)
    requires 0 <= k < |facts| && DerivedAt(facts, k)
    requires forall t | 0 <= t < k :: facts[t].HoldsFor(mines)
    ensures facts[k].HoldsFor(mines)
  {
    var a, b :| 0 <= a < k && 0 <= b < k &&
                Resolves(facts[a], facts[b]) && facts[k] == Resolvent(facts[a], facts[b]);
    ResolventIsTrue(facts[a], facts[b], mines);
  }

  /** The subset rule keeps the old sentences, adds only resolvents of
      earlier pairs, and so turns true sentences into true sentences. */
  lemma {:induction false} ResolveIsSound(facts: seq<Constraint>, mines: set<Cell>)
    requires AllHold(facts, mines)
    ensures |facts| <= |Resolve(facts)| && Resolve(facts)[..|facts|] == facts
    ensures DerivedFrom(Resolve(facts), |facts|)
    ensures AllHold(Resolve(facts), mines)
  {
    var r := Resolve(facts);
    ResolveFromOnlyDerives(facts, 0, 0, [], false, CellsOf(facts), |facts|);
    var k := |facts|;
    while k < |r|
      invariant |facts| <= k <= |r|
      invariant forall t | 0 <= t < k :: r[t].HoldsFor(mines)
    {
      DerivedIsTrue(r, k, mines);
      k := k + 1;
    }
  }
}
