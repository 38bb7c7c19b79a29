/**
 Grammar ingestion (`read_grammar` after tokenisation) and symbol classification
 (`_find_terminals`), as specification functions and the lemmas that say what they mean.

 A grammar maps each head to its productions. The Python OrderedDict also remembers the
 order in which heads were first seen; the model keeps that order in a separate sequence
 of heads (`non_terminals`).
 */
module Grammars {
  import opened Symbols

  type Grammar = map<Symbol, seq<Production>>

  /** One already-split grammar line: `head -> body1 | body2 | ...`. */
  datatype Rule = Rule(head: Symbol, bodies: seq<Production>)

  /** The productions recorded for a head so far (none when it is not a key yet). */
  function BodiesIn(g: Grammar, a: Symbol): seq<Production>
  {
    if a in g then g[a] else []
  }

  /** One line's effect on the grammar: create the key if needed, then extend. */
  function MergeRule(g: Grammar, r: Rule): Grammar
  {
    g[r.head := BodiesIn(g, r.head) + r.bodies]
  }

  /** The grammar after ingesting `rules` in order, starting from `g`. */
  function Merged(g: Grammar, rules: seq<Rule>): Grammar
    decreases |rules|
  {
    if rules == [] then g
    else MergeRule(Merged(g, rules[..|rules| - 1]), rules[|rules| - 1])
  }

  /** The list of non-terminals after ingesting `rules`: a head is appended when new. */
  function Heads(nts: seq<Symbol>, rules: seq<Rule>): seq<Symbol>
    decreases |rules|
  {
    if rules == [] then nts
    else
      var prev := Heads(nts, rules[..|rules| - 1]);
      var h := rules[|rules| - 1].head;
      if h in prev then prev else prev + [h]
  }

  /** Ingesting one more line: the grammar and the head list after `rules[..i + 1]` are the
      ones after `rules[..i]` updated with line `i`. */
  lemma PrefixStep(g: Grammar, nts: seq<Symbol>, rules: seq<Rule>, i: nat)
    requires i < |rules|
    ensures Merged(g, rules[..i + 1]) == MergeRule(Merged(g, rules[..i]), rules[i])
    ensures Heads(nts, rules[..i + 1]) ==
              var prev := Heads(nts, rules[..i]);
              if rules[i].head in prev then prev else prev + [rules[i].head]
  {
    assert rules[..i + 1][..i] == rules[..i];
  }

  /** Reference definition: the bodies of every rule for head `a`, in rule order. */
  function BodiesOf(rules: seq<Rule>, a: Symbol): seq<Production>
  {
    if rules == [] then []
    else (if rules[0].head == a then rules[0].bodies else []) + BodiesOf(rules[1..], a)
  }

  function HeadSet(rules: seq<Rule>): set<Symbol>
  {
    set r | r in rules :: r.head
  }

  lemma {:induction false} BodiesOfSnoc(rules: seq<Rule>, r: Rule, a: Symbol)
    ensures BodiesOf(rules + [r], a) == BodiesOf(rules, a) + (if r.head == a then r.bodies else [])
  {
    if rules == [] {
      assert rules + [r] == [r];
    } else {
      assert (rules + [r])[1..] == rules[1..] + [r];
      BodiesOfSnoc(rules[1..], r, a);
    }
  }

  /** A repeated head keeps its earlier bodies and gets the new ones appended after them,
      in the order the lines came. */
  lemma {:induction false} MergedBodies(g: Grammar, rules: seq<Rule>, a: Symbol)
    ensures BodiesIn(Merged(g, rules), a) == BodiesIn(g, a) + BodiesOf(rules, a)
    decreases |rules|
  {
    if rules != [] {
      var init, last := rules[..|rules| - 1], rules[|rules| - 1];
      assert rules == init + [last];
      MergedBodies(g, init, a);
      BodiesOfSnoc(init, last, a);
    }
  }

  /** The keys after ingestion are the old keys plus every head seen. */
  lemma {:induction false} MergedKeys(g: Grammar, rules: seq<Rule>)
    ensures Merged(g, rules).Keys == g.Keys + HeadSet(rules)
    decreases |rules|
  {
    if rules != [] {
      var init, last := rules[..|rules| - 1], rules[|rules| - 1];
      assert rules == init + [last];
      MergedKeys(g, init);
      assert HeadSet(rules) == HeadSet(init) + {last.head};
    }
  }

  /** Each head enters the list once, old entries keep their place, and the list holds
      exactly the old entries and the heads of the new rules. */
  lemma {:induction false} HeadsSpec(nts: seq<Symbol>, rules: seq<Rule>)
    requires Distinct(nts)
    ensures Distinct(Heads(nts, rules))
    ensures Elems(Heads(nts, rules)) == Elems(nts) + HeadSet(rules)
    ensures nts <= Heads(nts, rules)
    decreases |rules|
  {
    if rules != [] {
      var init, last := rules[..|rules| - 1], rules[|rules| - 1];
      assert rules == init + [last];
      HeadsSpec(nts, init);
      assert HeadSet(rules) == HeadSet(init) + {last.head};
      var prev := Heads(nts, init);
      assert Elems(prev + [last.head]) == Elems(prev) + {last.head};
    }
  }

  /** First-seen order: the list after any prefix of the lines is a prefix of the final list,
      so a head never moves once it is in, and later heads come after it. */
  lemma {:induction false} HeadsPrefix(nts: seq<Symbol>, rules: seq<Rule>, i: nat)
    requires i <= |rules|
    ensures Heads(nts, rules[..i]) <= Heads(nts, rules)
    decreases |rules|
  {
    if i < |rules| {
      var init := rules[..|rules| - 1];
      assert init[..i] == rules[..i];
      HeadsPrefix(nts, init, i);
    } else {
      assert rules[..i] == rules;
    }
  }

  /** On a fresh parser the start symbol, the first entry of the list, is the first head. */
  lemma {:induction false} FirstHeadIsStart(rules: seq<Rule>)
    requires rules != []
    ensures Heads([], rules) != [] && Heads([], rules)[0] == rules[0].head
    decreases |rules|
  {
    if |rules| > 1 {
      var init := rules[..|rules| - 1];
      assert init[0] == rules[0];
      FirstHeadIsStart(init);
    } else {
      assert rules[..0] == [];
    }
  }

  /** Every symbol that occurs in some production. */
  ghost function BodySymbols(g: Grammar): set<Symbol>
  {
    set a, p, x | a in g && p in g[a] && x in p :: x
  }

  /** The symbols of a list of productions (order of accumulation). */
  function SymbolsOf(ps: seq<Production>): set<Symbol>
    decreases |ps|
  {
    if ps == [] then {} else SymbolsOf(ps[..|ps| - 1]) + Elems(ps[|ps| - 1])
  }

  /** The symbols of the productions of `heads`, visited in list order. */
  function BodySymbolsOf(g: Grammar, heads: seq<Symbol>): set<Symbol>
    requires forall h :: h in heads ==> h in g
    decreases |heads|
  {
    if heads == [] then {}
    else BodySymbolsOf(g, heads[..|heads| - 1]) + SymbolsOf(g[heads[|heads| - 1]])
  }

  lemma SymbolsOfSnoc(ps: seq<Production>, j: nat)
    requires j < |ps|
    ensures SymbolsOf(ps[..j + 1]) == SymbolsOf(ps[..j]) + Elems(ps[j])
  {
    assert ps[..j + 1][..j] == ps[..j];
  }

  lemma BodySymbolsOfSnoc(g: Grammar, heads: seq<Symbol>, i: nat)
    requires i < |heads| && forall h :: h in heads ==> h in g
    ensures BodySymbolsOf(g, heads[..i + 1]) == BodySymbolsOf(g, heads[..i]) + SymbolsOf(g[heads[i]])
  {
    assert heads[..i + 1][..i] == heads[..i];
  }

  lemma {:induction false} SymbolsOfSpec(ps: seq<Production>, x: Symbol)
    ensures x in SymbolsOf(ps) <==> exists p :: p in ps && x in p
    decreases |ps|
  {
    if ps != [] {
      var init := ps[..|ps| - 1];
      assert ps == init + [ps[|ps| - 1]];
      SymbolsOfSpec(init, x);
    }
  }

  /** Visiting the heads in list order collects exactly the symbols of their productions. */
  lemma {:induction false} BodySymbolsOfSpec(g: Grammar, heads: seq<Symbol>, x: Symbol)
    requires forall h :: h in heads ==> h in g
    ensures x in BodySymbolsOf(g, heads) <==> exists a, p :: a in heads && p in g[a] && x in p
    decreases |heads|
  {
    if heads != [] {
      var init, last := heads[..|heads| - 1], heads[|heads| - 1];
      assert heads == init + [last];
      BodySymbolsOfSpec(g, init, x);
      SymbolsOfSpec(g[last], x);
    }
  }

  /** When the list holds every key, the visit collects every body symbol of the grammar. */
  lemma BodySymbolsOfAll(g: Grammar, heads: seq<Symbol>)
    requires Elems(heads) == g.Keys
    ensures BodySymbolsOf(g, heads) == BodySymbols(g)
  {
    forall x ensures x in BodySymbolsOf(g, heads) <==> x in BodySymbols(g) {
      BodySymbolsOfSpec(g, heads, x);
    }
  }

  /** A symbol `_find_terminals` keeps: it occurs in some body, is not "ε" and is not a head. */
  ghost predicate IsTerminal(g: Grammar, nts: seq<Symbol>, x: Symbol)
  {
    x in BodySymbols(g) && x != Eps && x !in nts
  }

  /** The result of `_find_terminals`: the kept symbols, each once and in string order,
      followed by "$". */
  ghost predicate Classifies(g: Grammar, nts: seq<Symbol>, terminals: seq<Symbol>)
  {
    && terminals != []
    && terminals[|terminals| - 1] == End
    && Distinct(terminals[..|terminals| - 1])
    && Sorted(terminals[..|terminals| - 1])
    && forall x :: x in terminals[..|terminals| - 1] <==> IsTerminal(g, nts, x)
  }

  /** The terminal list is determined by the grammar and its heads. */
  lemma ClassifiesUnique(g: Grammar, nts: seq<Symbol>, t1: seq<Symbol>, t2: seq<Symbol>)
    requires Classifies(g, nts, t1) && Classifies(g, nts, t2)
    ensures t1 == t2
  {
    var a, b := t1[..|t1| - 1], t2[..|t2| - 1];
    assert Elems(a) == Elems(b) by {
      forall x ensures x in Elems(a) <==> x in Elems(b) {
        assert x in a <==> IsTerminal(g, nts, x);
      }
    }
    SortedUnique(a, b);
    assert t1 == a + [End] && t2 == b + [End];
  }

  /** Classification never lists "ε" as a terminal, and always lists "$". */
  lemma ClassifiedMarkers(g: Grammar, nts: seq<Symbol>, terminals: seq<Symbol>)
    requires Classifies(g, nts, terminals)
    ensures Eps !in terminals && End in terminals
  {
    MarkersDiffer();
    var n := |terminals| - 1;
    assert terminals == terminals[..n] + [End];
    assert !IsTerminal(g, nts, Eps);
  }
}
