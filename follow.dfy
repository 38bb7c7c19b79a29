/**
 FOLLOW sets: the two rules `compute_follow_sets` applies to each occurrence of a
 non-terminal in a production body, and the fixed point its loop reaches.
 */
module FollowSets {
  import opened Symbols
  import opened Grammars
  import opened FirstSets

  /** Every element of every FIRST set. */
  ghost function FirstValues(first: SetMap): set<Symbol>
  {
    set a, x | a in first && x in first[a] :: x
  }

  /** Where FOLLOW elements come from: "$", the terminals and the FIRST sets, never "ε". */
  ghost function FollowUniverse(first: SetMap, terminals: seq<Symbol>): set<Symbol>
  {
    ({End} + Elems(terminals) + FirstValues(first)) - {Eps}
  }

  /** The two rules for the occurrence of B = p[i] in production p of head a, with β = p[i+1..]:
      FIRST(β) without "ε" is in FOLLOW(B), and FOLLOW(a) is in FOLLOW(B) when FIRST(β)
      holds "ε" or B is the last symbol. */
  ghost predicate OccurrenceClosed(first: SetMap, terminals: seq<Symbol>, s: SetMap, a: Symbol, p: Production, i: nat)
    requires i < |p| && a in s && p[i] in s
  {
    var beta := FirstOfSeq(p[i + 1..], first, terminals);
    && beta - {Eps} <= s[p[i]]
    && ((Eps in beta || i == |p| - 1) ==> s[a] <= s[p[i]])
  }

  /** Both rules hold at every occurrence of a non-terminal in production p of head a. */
  ghost predicate ProductionClosed(nts: seq<Symbol>, first: SetMap, terminals: seq<Symbol>, s: SetMap, a: Symbol, p: Production)
    requires a in s && forall b :: b in nts ==> b in s
  {
    forall i :: 0 <= i < |p| && p[i] in nts ==> OccurrenceClosed(first, terminals, s, a, p, i)
  }

  /** Both rules hold at every occurrence in every production of head a. */
  ghost predicate HeadFollowClosed(g: Grammar, nts: seq<Symbol>, first: SetMap, terminals: seq<Symbol>, s: SetMap, a: Symbol)
    requires a in s && forall b :: b in nts ==> b in s
  {
    a in g ==> forall p :: p in g[a] ==> ProductionClosed(nts, first, terminals, s, a, p)
  }

  /** The condition a finished pass leaves behind, including the seed "$" of the start symbol. */
  ghost predicate FollowClosed(g: Grammar, nts: seq<Symbol>, start: Symbol, first: SetMap, terminals: seq<Symbol>, s: SetMap)
  {
    && (forall a :: a in nts ==> a in s)
    && start in s && End in s[start]
    && forall a :: a in nts ==> HeadFollowClosed(g, nts, first, terminals, s, a)
  }

  /** The FOLLOW sets of a grammar: closed, keyed by the non-terminals, below every closed
      assignment. */
  ghost predicate IsLeastFollow(g: Grammar, nts: seq<Symbol>, start: Symbol, first: SetMap, terminals: seq<Symbol>, f: SetMap)
  {
    && f.Keys == Elems(nts)
    && FollowClosed(g, nts, start, first, terminals, f)
    && forall s :: FollowClosed(g, nts, start, first, terminals, s) ==> Below(f, s)
  }

  /** The FOLLOW sets are determined by the grammar and the FIRST sets. */
  lemma LeastFollowUnique(g: Grammar, nts: seq<Symbol>, start: Symbol, first: SetMap, terminals: seq<Symbol>, f1: SetMap, f2: SetMap)
    requires IsLeastFollow(g, nts, start, first, terminals, f1)
    requires IsLeastFollow(g, nts, start, first, terminals, f2)
    ensures f1 == f2
  {
    assert Below(f1, f2) && Below(f2, f1);
    forall a | a in f1 ensures f1[a] == f2[a] {
    }
  }

  /** The seed of the loop, an empty set per non-terminal and "$" for the start symbol, is
      below every closed assignment. */
  lemma FollowSeedLeast(g: Grammar, nts: seq<Symbol>, start: Symbol, first: SetMap, terminals: seq<Symbol>)
    requires start in nts
    ensures var f := (map a | a in Elems(nts) :: {})[start := {End}];
            forall s :: FollowClosed(g, nts, start, first, terminals, s) ==> Below(f, s)
  {
  }

  /** Rule 1 at the occurrence p[i] of a production of head a keeps the sets below every
      closed assignment. */
  lemma RuleOneSound(g: Grammar, nts: seq<Symbol>, start: Symbol, first: SetMap, terminals: seq<Symbol>,
                     f: SetMap, a: Symbol, p: Production, i: nat)
    requires a in nts && a in g && p in g[a] && i < |p| && p[i] in nts && p[i] in f
    requires forall s :: FollowClosed(g, nts, start, first, terminals, s) ==> Below(f, s)
    ensures var f' := f[p[i] := f[p[i]] + (FirstOfSeq(p[i + 1..], first, terminals) - {Eps})];
            forall s :: FollowClosed(g, nts, start, first, terminals, s) ==> Below(f', s)
  {
    forall s | FollowClosed(g, nts, start, first, terminals, s)
      ensures Below(f[p[i] := f[p[i]] + (FirstOfSeq(p[i + 1..], first, terminals) - {Eps})], s)
    {
      assert HeadFollowClosed(g, nts, first, terminals, s, a);
      assert ProductionClosed(nts, first, terminals, s, a, p);
      assert OccurrenceClosed(first, terminals, s, a, p, i);
    }
  }

  /** Rule 2 at the occurrence p[i] of a production of head a, when FIRST of the rest holds
      "ε" or p[i] is last, keeps the sets below every closed assignment. */
  lemma RuleTwoSound(g: Grammar, nts: seq<Symbol>, start: Symbol, first: SetMap, terminals: seq<Symbol>,
                     f: SetMap, a: Symbol, p: Production, i: nat)
    requires a in nts && a in g && p in g[a] && i < |p| && p[i] in nts && p[i] in f && a in f
    requires Eps in FirstOfSeq(p[i + 1..], first, terminals) || i == |p| - 1
    requires forall s :: FollowClosed(g, nts, start, first, terminals, s) ==> Below(f, s)
    ensures var f' := f[p[i] := f[p[i]] + f[a]];
            forall s :: FollowClosed(g, nts, start, first, terminals, s) ==> Below(f', s)
  {
    forall s | FollowClosed(g, nts, start, first, terminals, s)
      ensures Below(f[p[i] := f[p[i]] + f[a]], s)
    {
      assert HeadFollowClosed(g, nts, first, terminals, s, a);
      assert ProductionClosed(nts, first, terminals, s, a, p);
      assert OccurrenceClosed(first, terminals, s, a, p, i);
    }
  }

  /** What holds of the FOLLOW sets between any two updates of the loop: one set per
      non-terminal, "$" in the start symbol's, each inside the FOLLOW universe, and all
      below every closed assignment. */
  ghost predicate FollowBound(g: Grammar, nts: seq<Symbol>, start: Symbol, first: SetMap, terminals: seq<Symbol>, f: SetMap)
  {
    && f.Keys == Elems(nts)
    && start in f && End in f[start]
    && Within(f, FollowUniverse(first, terminals))
    && forall s :: FollowClosed(g, nts, start, first, terminals, s) ==> Below(f, s)
  }

  /** The seed of the loop satisfies the bound. */
  lemma FollowSeed(g: Grammar, nts: seq<Symbol>, start: Symbol, first: SetMap, terminals: seq<Symbol>)
    requires start in nts
    ensures FollowBound(g, nts, start, first, terminals, (map a | a in Elems(nts) :: {})[start := {End}])
  {
    FollowSeedLeast(g, nts, start, first, terminals);
    MarkersDiffer();
  }

  /** When the loop stops, the bound and closure make the sets the least closed assignment,
      and no FOLLOW set holds "ε". */
  lemma FollowDone(g: Grammar, nts: seq<Symbol>, start: Symbol, first: SetMap, terminals: seq<Symbol>, f: SetMap)
    requires FollowBound(g, nts, start, first, terminals, f) && FollowClosed(g, nts, start, first, terminals, f)
    ensures IsLeastFollow(g, nts, start, first, terminals, f)
    ensures forall a :: a in f ==> Eps !in f[a]
  {
  }

  /** A rule-1 update that adds something keeps the bound and strictly shrinks the missing
      pairs. */
  lemma RuleOneStep(g: Grammar, nts: seq<Symbol>, start: Symbol, first: SetMap, terminals: seq<Symbol>,
                    f: SetMap, a: Symbol, p: Production, i: nat)
    requires FollowBound(g, nts, start, first, terminals, f)
    requires a in nts && a in g && p in g[a] && i < |p| && p[i] in nts
    requires !(FirstOfSeq(p[i + 1..], first, terminals) - {Eps} <= f[p[i]])
    ensures var f' := f[p[i] := f[p[i]] + (FirstOfSeq(p[i + 1..], first, terminals) - {Eps})];
            && FollowBound(g, nts, start, first, terminals, f')
            && Missing(nts, FollowUniverse(first, terminals), f') < Missing(nts, FollowUniverse(first, terminals), f)
  {
    var extra := FirstOfSeq(p[i + 1..], first, terminals) - {Eps};
    RuleOneSound(g, nts, start, first, terminals, f, a, p, i);
    RuleOneWithin(p[i + 1..], first, terminals);
    GrowShrinksMissing(nts, FollowUniverse(first, terminals), f, p[i], extra);
  }

  /** A rule-2 update that adds something keeps the bound and strictly shrinks the missing
      pairs. */
  lemma RuleTwoStep(g: Grammar, nts: seq<Symbol>, start: Symbol, first: SetMap, terminals: seq<Symbol>,
                    f: SetMap, a: Symbol, p: Production, i: nat)
    requires FollowBound(g, nts, start, first, terminals, f)
    requires a in nts && a in g && p in g[a] && i < |p| && p[i] in nts
    requires Eps in FirstOfSeq(p[i + 1..], first, terminals) || i == |p| - 1
    requires !(f[a] <= f[p[i]])
    ensures var f' := f[p[i] := f[p[i]] + f[a]];
            && FollowBound(g, nts, start, first, terminals, f')
            && Missing(nts, FollowUniverse(first, terminals), f') < Missing(nts, FollowUniverse(first, terminals), f)
  {
    RuleTwoSound(g, nts, start, first, terminals, f, a, p, i);
    GrowShrinksMissing(nts, FollowUniverse(first, terminals), f, p[i], f[a]);
  }

  /** Rule 1 adds nothing outside the FOLLOW universe. */
  lemma RuleOneWithin(beta: seq<Symbol>, first: SetMap, terminals: seq<Symbol>)
    ensures FirstOfSeq(beta, first, terminals) - {Eps} <= FollowUniverse(first, terminals)
  {
    var u := {Eps} + Elems(terminals) + FirstValues(first);
    forall a | a in first ensures first[a] <= u {
      forall x | x in first[a] ensures x in FirstValues(first) {
      }
    }
    FirstOfSeqWithin(beta, first, terminals, u);
  }

  /** When the FIRST sets hold only terminals and "ε", and "$" is a terminal, every FOLLOW
      element is a terminal. */
  lemma FollowUniverseTerminals(first: SetMap, terminals: seq<Symbol>)
    requires End in terminals
    requires forall a :: a in first ==> first[a] <= Elems(terminals) + {Eps}
    ensures FollowUniverse(first, terminals) <= Elems(terminals)
  {
  }
}
