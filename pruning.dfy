/** The clean-up of add_knowledge that drops sentences without cells. It
    removes from the list it is iterating over: Python's list iterator
    keeps a position, `list.remove` takes out the first element EQUAL to
    the sentence (by value, not by identity) and shifts the rest left, so
    the element after a removed one is never looked at. Sentences are
    therefore only ever dropped, never reordered, but an empty sentence can
    survive. */
module Pruning {
  import opened Sentences

  /** The position `list.index(c)` finds: the first element equal to `c`. */
  function FirstIndex(facts: seq<Constraint>, c: Constraint): (j: nat)
    requires c in facts
    ensures j < |facts| && facts[j] == c
    ensures forall t | 0 <= t < j :: facts[t] != c
  {
    if facts[0] == c then 0 else 1 + FirstIndex(facts[1..], c)
  }

  /** `list.remove(c)`: the list without its first element equal to `c`. */
  function RemoveFirst(facts: seq<Constraint>, c: Constraint): (r: seq<Constraint>)
    requires c in facts
    ensures |r| == |facts| - 1
  {
    var j := FirstIndex(facts, c);
    facts[..j] + facts[j + 1..]
  }

  /** `list.remove(c)` takes out one copy of `c` and nothing else. */
  lemma RemoveFirstTakesOneCopy(facts: seq<Constraint>, c: Constraint)
    requires c in facts
    ensures multiset(RemoveFirst(facts, c)) == multiset(facts) - multiset{c}
  {
    var j := FirstIndex(facts, c);
    var front, back := facts[..j], facts[j + 1..];
    assert facts == front + [c] + back;
    assert RemoveFirst(facts, c) == front + back;
    calc {
      multiset(facts);
      multiset(front + [c]) + multiset(back);
      multiset(front) + multiset{c} + multiset(back);
    }
  }

  /** The loop from position `i` on: an empty sentence at the current
      position is removed (its first equal copy, in fact), and the position
      moves on by one either way. Only empty sentences are dropped. */
  function PruneFrom(facts: seq<Constraint>, i: nat): seq<Constraint>
    decreases |facts|, |facts| - i
  {
    if i >= |facts| then facts
    else if |facts[i].cells| == 0 then PruneFrom(RemoveFirst(facts, facts[i]), i + 1)
    else PruneFrom(facts, i + 1)
  }

  /** The element `list.remove(c)` takes out is the first one equal to
      `c`. */
  lemma RemoveFirstAt(facts: seq<Constraint>, c: Constraint, j: nat)
    requires j < |facts| && facts[j] == c && forall t | 0 <= t < j :: facts[t] != c
    ensures RemoveFirst(facts, c) == facts[..j] + facts[j + 1..]
  {
    assert j == FirstIndex(facts, c);
  }

  /** One step of the loop at a sentence without cells. */
  lemma PruneStep(facts: seq<Constraint>, i: nat)
    requires i < |facts| && |facts[i].cells| == 0
    ensures PruneFrom(facts, i) == PruneFrom(RemoveFirst(facts, facts[i]), i + 1)
  {
  }

  /** One step of the loop at a sentence with cells. */
  lemma PruneSkip(facts: seq<Constraint>, i: nat)
    requires i < |facts| && |facts[i].cells| != 0
    ensures PruneFrom(facts, i) == PruneFrom(facts, i + 1)
  {
  }

  /** The loop stops at the end of the list. */
  lemma PruneEnd(facts: seq<Constraint>, i: nat)
    requires i >= |facts|
    ensures PruneFrom(facts, i) == facts
  {
  }

  /** From any position on, the loop only drops sentences, and only ones
      without cells. */
  lemma {:induction false} PruneFromOnlyDropsEmpty(facts: seq<Constraint>, i: nat)
    ensures multiset(PruneFrom(facts, i)) <= multiset(facts)
    ensures forall c: Constraint | c.cells != {} :: multiset(PruneFrom(facts, i))[c] == multiset(facts)[c]
    decreases |facts|, |facts| - i
  {
    if i >= |facts| {
    } else if |facts[i].cells| == 0 {
      RemoveFirstTakesOneCopy(facts, facts[i]);
      PruneFromOnlyDropsEmpty(RemoveFirst(facts, facts[i]), i + 1);
    } else {
      PruneFromOnlyDropsEmpty(facts, i + 1);
    }
  }

  /** The whole clean-up loop. */
  function Prune(facts: seq<Constraint>): seq<Constraint> {
    PruneFrom(facts, 0)
  }

  /** Every sentence that survives was in the list before, and every
      sentence with cells survives, as often as it occurred. */
  lemma PruneKeepsSentencesWithCells(facts: seq<Constraint>)
    ensures forall c | c in Prune(facts) :: c in facts
    ensures forall c | c in facts && c.cells != {} :: c in Prune(facts)
  {
    PruneFromOnlyDropsEmpty(facts, 0);
    forall c | c in Prune(facts) ensures c in facts {
      assert multiset(Prune(facts))[c] > 0;
    }
  }

  /** Two empty sentences in a row: removing the first shifts the second
      under the iterator's position, so it is skipped and stays. */
  lemma PruneCanKeepEmpty()
    ensures Prune([Constraint({}, 0), Constraint({}, 0)]) == [Constraint({}, 0)]
  {
    var e := Constraint({}, 0);
    assert RemoveFirst([e, e], e) == [e];
    assert PruneFrom([e], 1) == [e];
  }
}
