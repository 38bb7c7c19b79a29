/**
 FIRST sets: `_compute_first_for_sequence` as a specification function, what it computes
 symbol by symbol, and the closure and leastness conditions that the fixed-point loop of
 `compute_first_sets` reaches.
 */
module FirstSets {
  import opened Symbols
  import opened Grammars

  /** FIRST of a sequence, scanning left to right with the current FIRST sets `first`.
      "ε" stops the scan and contributes "ε"; a terminal stops it and contributes itself;
      any other symbol contributes its FIRST set without "ε" and lets the scan go on only
      when that set holds "ε" (adding "ε" when it was the last symbol). */
  function FirstOfSeq(s: seq<Symbol>, first: SetMap, terminals: seq<Symbol>): set<Symbol>
    decreases |s|
  {
    if s == [] then {}
    else if s[0] == Eps then {Eps}
    else if s[0] in terminals then {s[0]}
    else
      var f := Lookup(first, s[0]);
      if Eps in f then (f - {Eps}) + (if |s| == 1 then {Eps} else FirstOfSeq(s[1..], first, terminals))
      else f
  }

  /** A symbol the scan passes: neither "ε" nor a terminal, with "ε" in its FIRST set. */
  predicate Nullable(x: Symbol, first: SetMap, terminals: seq<Symbol>)
  {
    x != Eps && x !in terminals && Eps in Lookup(first, x)
  }

  /** The scan reaches position `k`: it passed every symbol before it. */
  predicate Reaches(s: seq<Symbol>, k: nat, first: SetMap, terminals: seq<Symbol>)
    requires k <= |s|
  {
    forall j :: 0 <= j < k ==> Nullable(s[j], first, terminals)
  }

  /** What a reached symbol `y` puts into the result (`last`: it is the final symbol). */
  predicate Contributes(y: Symbol, x: Symbol, last: bool, first: SetMap, terminals: seq<Symbol>)
  {
    if y == Eps then x == Eps
    else if y in terminals then x == y
    else (x != Eps && x in Lookup(first, y)) || (last && x == Eps && Eps in Lookup(first, y))
  }

  lemma ReachesStep(s: seq<Symbol>, k: nat, first: SetMap, terminals: seq<Symbol>)
    requires 0 < k <= |s|
    ensures Reaches(s, k, first, terminals) <==>
            Nullable(s[0], first, terminals) && Reaches(s[1..], k - 1, first, terminals)
  {
    if Nullable(s[0], first, terminals) && Reaches(s[1..], k - 1, first, terminals) {
      forall j | 0 <= j < k ensures Nullable(s[j], first, terminals) {
        if j > 0 { assert s[j] == s[1..][j - 1]; }
      }
    }
  }

  /** FIRST of a sequence element by element: `x` is in it exactly when the scan reaches some
      position whose symbol contributes `x`. In particular the empty sequence gives the empty
      set, and "ε" is in the result only when the scan reaches an "ε" symbol or passes the
      last symbol. */
  lemma {:induction false} FirstOfSeqMembers(s: seq<Symbol>, first: SetMap, terminals: seq<Symbol>, x: Symbol)
    ensures x in FirstOfSeq(s, first, terminals) <==>
            exists k: nat :: k < |s| && Reaches(s, k, first, terminals)
                             && Contributes(s[k], x, k == |s| - 1, first, terminals)
    decreases |s|
  {
    if s == [] {
    } else {
      assert Reaches(s, 0, first, terminals);
      if !Nullable(s[0], first, terminals) {
        forall k: nat | 0 < k < |s| ensures !Reaches(s, k, first, terminals) {
          ReachesStep(s, k, first, terminals);
        }
      } else if |s| > 1 {
        var rest := s[1..];
        FirstOfSeqMembers(rest, first, terminals, x);
        if x in FirstOfSeq(rest, first, terminals) {
          var k: nat :| k < |rest| && Reaches(rest, k, first, terminals)
                        && Contributes(rest[k], x, k == |rest| - 1, first, terminals);
          ReachesStep(s, k + 1, first, terminals);
          assert s[k + 1] == rest[k];
        }
        forall k: nat | 0 < k < |s| && Reaches(s, k, first, terminals)
                        && Contributes(s[k], x, k == |s| - 1, first, terminals)
          ensures x in FirstOfSeq(rest, first, terminals)
        {
          ReachesStep(s, k, first, terminals);
          assert s[k] == rest[k - 1];
        }
      }
    }
  }

  /** FIRST of a sequence stays inside any set `u` that holds "ε", every terminal and every
      current FIRST set. */
  lemma {:induction false} FirstOfSeqWithin(s: seq<Symbol>, first: SetMap, terminals: seq<Symbol>, u: set<Symbol>)
    requires Eps in u && Elems(terminals) <= u && Within(first, u)
    ensures FirstOfSeq(s, first, terminals) <= u
    decreases |s|
  {
    if |s| > 1 {
      FirstOfSeqWithin(s[1..], first, terminals, u);
    }
  }

  /** FIRST of a sequence is monotone in the FIRST sets it reads. */
  lemma {:induction false} FirstOfSeqMonotone(s: seq<Symbol>, f: SetMap, g: SetMap, terminals: seq<Symbol>)
    requires Below(f, g)
    ensures FirstOfSeq(s, f, terminals) <= FirstOfSeq(s, g, terminals)
    decreases |s|
  {
    if s != [] && s[0] != Eps && s[0] !in terminals {
      assert Lookup(f, s[0]) <= Lookup(g, s[0]);
      if |s| > 1 {
        FirstOfSeqMonotone(s[1..], f, g, terminals);
      }
    }
  }

  /** Head a is closed under the sets s: it has a set there, and the FIRST of each of its
      productions is contained in it. */
  ghost predicate HeadClosed(g: Grammar, terminals: seq<Symbol>, s: SetMap, a: Symbol)
  {
    a in s && (a in g ==> forall p :: p in g[a] ==> FirstOfSeq(p, s, terminals) <= s[a])
  }

  /** The condition a finished pass leaves behind: every non-terminal is closed. */
  ghost predicate FirstClosed(g: Grammar, nts: seq<Symbol>, terminals: seq<Symbol>, s: SetMap)
  {
    forall a :: a in nts ==> HeadClosed(g, terminals, s, a)
  }

  /** The FIRST sets of a grammar: closed, keyed by the non-terminals, and below every closed
      assignment (so nothing is in a FIRST set without a reason). */
  ghost predicate IsLeastFirst(g: Grammar, nts: seq<Symbol>, terminals: seq<Symbol>, f: SetMap)
  {
    && f.Keys == Elems(nts)
    && FirstClosed(g, nts, terminals, f)
    && forall s :: FirstClosed(g, nts, terminals, s) ==> Below(f, s)
  }

  /** One update of the loop, FIRST(a) := FIRST(a) + FIRST(p) for a production p of a, keeps
      the sets below every closed assignment and inside any `u` that bounds them and holds
      "ε" and the terminals. */
  lemma FirstUpdateSound(g: Grammar, nts: seq<Symbol>, terminals: seq<Symbol>, f: SetMap, a: Symbol, p: Production, u: set<Symbol>)
    requires a in nts && a in f && a in g && p in g[a]
    requires forall s :: FirstClosed(g, nts, terminals, s) ==> Below(f, s)
    requires Eps in u && Elems(terminals) <= u && Within(f, u)
    ensures var f' := f[a := f[a] + FirstOfSeq(p, f, terminals)];
            && Within(f', u)
            && forall s :: FirstClosed(g, nts, terminals, s) ==> Below(f', s)
  {
    FirstOfSeqWithin(p, f, terminals, u);
    var f' := f[a := f[a] + FirstOfSeq(p, f, terminals)];
    forall s | FirstClosed(g, nts, terminals, s) ensures Below(f', s) {
      assert HeadClosed(g, terminals, s, a);
      FirstOfSeqMonotone(p, f, s, terminals);
    }
  }

  /** What holds of the FIRST sets between any two updates of the loop: one set per
      non-terminal, each inside terminals ∪ {"ε"}, and all below every closed assignment. */
  ghost predicate FirstBound(g: Grammar, nts: seq<Symbol>, terminals: seq<Symbol>, f: SetMap)
  {
    && f.Keys == Elems(nts)
    && Within(f, Elems(terminals) + {Eps})
    && forall s :: FirstClosed(g, nts, terminals, s) ==> Below(f, s)
  }

  /** An update that adds something keeps the bound and strictly shrinks the missing pairs. */
  lemma FirstStep(g: Grammar, nts: seq<Symbol>, terminals: seq<Symbol>, f: SetMap, a: Symbol, p: Production)
    requires FirstBound(g, nts, terminals, f)
    requires a in nts && a in g && p in g[a]
    requires !(FirstOfSeq(p, f, terminals) <= f[a])
    ensures var f' := f[a := f[a] + FirstOfSeq(p, f, terminals)];
            && FirstBound(g, nts, terminals, f')
            && Missing(nts, Elems(terminals) + {Eps}, f') < Missing(nts, Elems(terminals) + {Eps}, f)
  {
    var u := Elems(terminals) + {Eps};
    FirstUpdateSound(g, nts, terminals, f, a, p, u);
    FirstOfSeqWithin(p, f, terminals, u);
    GrowShrinksMissing(nts, u, f, a, FirstOfSeq(p, f, terminals));
  }

  /** The FIRST sets are determined by the grammar: any two results of the fixed-point
      computation coincide, so computing them again yields identical sets. */
  lemma LeastFirstUnique(g: Grammar, nts: seq<Symbol>, terminals: seq<Symbol>, f1: SetMap, f2: SetMap)
    requires IsLeastFirst(g, nts, terminals, f1) && IsLeastFirst(g, nts, terminals, f2)
    ensures f1 == f2
  {
    assert Below(f1, f2) && Below(f2, f1);
    forall a | a in f1 ensures f1[a] == f2[a] {
    }
  }
}
