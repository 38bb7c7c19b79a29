/**
 The `LL1Parser` object: its fields and the methods that fill them in place (reading the
 grammar, classifying symbols, the FIRST and FOLLOW fixed points, the parse table) and the
 table-driven recogniser. Each method is proved against the specification functions of
 the modules it imports.
 */
module LL1 {
  import opened Symbols
  import opened Grammars
  import opened FirstSets
  import opened FollowSets
  import opened ParseTables
  import opened Driver

  /** The symbols of `xs` that `_find_terminals` keeps: not "ε" and not a head. */
  function Kept(xs: set<Symbol>, nts: seq<Symbol>): set<Symbol>
  {
    set x | x in xs && x != Eps && x !in nts
  }

  /** `sorted(list(s))`: the set in string order, each element once. */
  method SortSymbols(s: set<Symbol>) returns (r: seq<Symbol>)
    ensures Elems(r) == s && Distinct(r) && Sorted(r)
  {
    r := [];
    var rest := s;
    while rest != {}
      invariant Elems(r) + rest == s && Elems(r) !! rest
      invariant Distinct(r) && Sorted(r)
      invariant forall i, y :: 0 <= i < |r| && y in rest ==> LexLe(r[i], y)
      decreases |rest|
    {
      var x := TakeLeast(rest);
      SelectStep(r, rest, x);
      r := r + [x];
      rest := rest - {x};
    }
  }

  /** The least element of a non-empty set in string order. */
  method TakeLeast(s: set<Symbol>) returns (x: Symbol)
    requires s != {}
    ensures x in s && forall y :: y in s ==> LexLe(x, y)
  {
    LeastExists(s);
    x :| x in s && forall y :: y in s ==> LexLe(x, y);
  }

  /** `for symbol in reversed(body): stack.append(symbol)`. */
  method PushReversed(stack: seq<Symbol>, body: Production) returns (r: seq<Symbol>)
    ensures r == stack + Reverse(body)
  {
    r := stack;
    var k := 0;
    while k < |body|
      invariant 0 <= k <= |body|
      invariant r == stack + Reverse(body)[..k]
    {
      PrefixSnoc(Reverse(body), k);
      r := r + [body[|body| - 1 - k]];
      k := k + 1;
    }
    assert Reverse(body)[..k] == Reverse(body);
  }

  /** What the FIRST and FOLLOW results give the table fill: every cell a production targets
      is a (non-terminal, terminal) cell, and every head whose production has "ε" in its FIRST
      set has a FOLLOW set to read. */
  lemma AnalysisReady(g: Grammar, terminals: seq<Symbol>, first: SetMap, follow: SetMap)
    requires End in terminals
    requires Within(first, Elems(terminals) + {Eps})
    requires Within(follow, FollowUniverse(first, terminals))
    requires g.Keys <= follow.Keys
    ensures forall a, p :: a in g && p in g[a] ==>
              && Targets(p, a, Analysis(first, follow, terminals)) <= Elems(terminals)
              && (Eps in FirstOfProduction(p, Analysis(first, follow, terminals)) ==> a in follow)
  {
    FollowUniverseTerminals(first, terminals);
    forall a, p | a in g && p in g[a] {
      FirstOfSeqWithin(p, first, terminals, Elems(terminals) + {Eps});
    }
  }

  class LL1Parser {
    var grammar: Grammar
    var nonTerminals: seq<Symbol>
    var terminals: seq<Symbol>
    var firstSets: SetMap
    var followSets: SetMap
    var parseTable: Table
    var startSymbol: Option<Symbol>

    /** The grammar's keys are the heads, listed once each in first-seen order; the start
        symbol is the first of them; once there is a grammar, the terminals classify it. */
    ghost predicate Valid()
      reads this`grammar, this`nonTerminals, this`terminals, this`startSymbol
    {
      && grammar.Keys == Elems(nonTerminals)
      && Distinct(nonTerminals)
      && startSymbol == (if nonTerminals == [] then None else Some(nonTerminals[0]))
      && (nonTerminals != [] ==> Classifies(grammar, nonTerminals, terminals))
    }

    constructor ()
      ensures Valid()
      ensures grammar == map[] && nonTerminals == [] && terminals == []
      ensures firstSets == map[] && followSets == map[] && parseTable == map[]
      ensures startSymbol == None
    {
      grammar := map[];
      nonTerminals := [];
      terminals := [];
      firstSets := map[];
      followSets := map[];
      parseTable := map[];
      startSymbol := None;
    }

    /** Ingests already-split grammar lines in order and, when the grammar is non-empty,
        sets the start symbol and classifies the symbols. */
    method ReadGrammar(rules: seq<Rule>) returns (ok: bool)
      requires Valid()
      modifies this`grammar, this`nonTerminals, this`startSymbol, this`terminals
      ensures Valid()
      ensures grammar == Merged(old(grammar), rules)
      ensures nonTerminals == Heads(old(nonTerminals), rules)
      ensures ok <==> grammar != map[]
      ensures !ok ==> terminals == old(terminals) && startSymbol == old(startSymbol)
    {
      MergeLines(rules);
      if grammar == map[] {
        ElemsEmpty(nonTerminals);
        HeadsSpec(old(nonTerminals), rules);
        assert old(nonTerminals) == [];
        return false;
      }
      startSymbol := Some(nonTerminals[0]);
      FindTerminals();
      ok := true;
    }

    /** The lines in order, each merged into the grammar. */
    method MergeLines(rules: seq<Rule>)
      requires grammar.Keys == Elems(nonTerminals) && Distinct(nonTerminals)
      modifies this`grammar, this`nonTerminals
      ensures grammar.Keys == Elems(nonTerminals) && Distinct(nonTerminals)
      ensures grammar == Merged(old(grammar), rules)
      ensures nonTerminals == Heads(old(nonTerminals), rules)
    {
      var i := 0;
      while i < |rules|
        invariant 0 <= i <= |rules|
        invariant grammar == Merged(old(grammar), rules[..i])
        invariant nonTerminals == Heads(old(nonTerminals), rules[..i])
        invariant grammar.Keys == Elems(nonTerminals) && Distinct(nonTerminals)
      {
        PrefixStep(old(grammar), old(nonTerminals), rules, i);
        MergeLine(rules[i]);
        i := i + 1;
      }
      assert rules[..i] == rules;
    }

    /** One grammar line: create the head's entry if needed, extend it with the line's
        bodies, and list the head if it is new. */
    method MergeLine(r: Rule)
      requires grammar.Keys == Elems(nonTerminals) && Distinct(nonTerminals)
      modifies this`grammar, this`nonTerminals
      ensures grammar.Keys == Elems(nonTerminals) && Distinct(nonTerminals)
      ensures grammar == MergeRule(old(grammar), r)
      ensures nonTerminals == if r.head in old(nonTerminals) then old(nonTerminals) else old(nonTerminals) + [r.head]
    {
      if r.head !in grammar {
        grammar := grammar[r.head := []];
      }
      assert grammar[r.head] == BodiesIn(old(grammar), r.head);
      grammar := grammar[r.head := grammar[r.head] + r.bodies];
      if r.head !in nonTerminals {
        DistinctSnoc(nonTerminals, r.head);
        nonTerminals := nonTerminals + [r.head];
      }
    }

    /** Collects the body symbols that are neither "ε" nor a head, and appends "$". */
    method FindTerminals()
      requires grammar.Keys == Elems(nonTerminals)
      modifies this`terminals
      ensures Classifies(grammar, nonTerminals, terminals)
    {
      var found: set<Symbol> := {};
      var i := 0;
      while i < |nonTerminals|
        invariant 0 <= i <= |nonTerminals|
        invariant found == Kept(BodySymbolsOf(grammar, nonTerminals[..i]), nonTerminals)
      {
        var productions := grammar[nonTerminals[i]];
        var j := 0;
        while j < |productions|
          invariant 0 <= j <= |productions|
          invariant found == Kept(BodySymbolsOf(grammar, nonTerminals[..i]) + SymbolsOf(productions[..j]), nonTerminals)
        {
          var production := productions[j];
          var k := 0;
          while k < |production|
            invariant 0 <= k <= |production|
            invariant found == Kept(BodySymbolsOf(grammar, nonTerminals[..i]) + SymbolsOf(productions[..j])
                                    + Elems(production[..k]), nonTerminals)
          {
            var symbol := production[k];
            ElemsSnoc(production, k);
            if symbol != Eps && symbol !in nonTerminals {
              found := found + {symbol};
            }
            k := k + 1;
          }
          assert production[..k] == production;
          SymbolsOfSnoc(productions, j);
          j := j + 1;
        }
        assert productions[..j] == productions;
        BodySymbolsOfSnoc(grammar, nonTerminals, i);
        i := i + 1;
      }
      assert nonTerminals[..i] == nonTerminals;
      BodySymbolsOfAll(grammar, nonTerminals);
      var list := SortSymbols(found);
      terminals := list + [End];
      assert terminals[..|terminals| - 1] == list;
      forall x ensures x in list <==> IsTerminal(grammar, nonTerminals, x) {
        assert x in found <==> x in BodySymbols(grammar) && x != Eps && x !in nonTerminals;
      }
    }

    /** FIRST of a symbol sequence under the current FIRST sets: scan left to right and
        stop at "ε", at a terminal, or at a symbol whose FIRST set lacks "ε". */
    method FirstForSequence(sequence: seq<Symbol>) returns (first: set<Symbol>)
      ensures first == FirstOfSeq(sequence, firstSets, terminals)
    {
      if sequence == [] {
        return {};
      }
      first := {};
      var i := 0;
      while i < |sequence|
        invariant 0 <= i <= |sequence|
        invariant FirstOfSeq(sequence, firstSets, terminals) == first + FirstOfSeq(sequence[i..], firstSets, terminals)
      {
        var symbol := sequence[i];
        assert sequence[i..][1..] == sequence[i + 1..];
        if symbol == Eps {
          first := first + {Eps};
          break;
        } else if symbol in terminals {
          first := first + {symbol};
          break;
        } else {
          var symbolFirst := Lookup(firstSets, symbol);
          if Eps in symbolFirst {
            symbolFirst := symbolFirst - {Eps};
            first := first + symbolFirst;
            if i == |sequence| - 1 {
              first := first + {Eps};
            }
          } else {
            first := first + symbolFirst;
            break;
          }
        }
        i := i + 1;
      }
    }

    /** The FIRST sets of every non-terminal, from empty sets, by passes over all
        productions until a pass changes nothing. */
    method ComputeFirstSets() returns (result: SetMap)
      requires grammar.Keys == Elems(nonTerminals)
      modifies this`firstSets
      ensures result == firstSets
      ensures IsLeastFirst(grammar, nonTerminals, terminals, firstSets)
      ensures Within(firstSets, Elems(terminals) + {Eps})
    {
      firstSets := map a | a in Elems(nonTerminals) :: {};
      var changed := true;
      while changed
        invariant FirstBound(grammar, nonTerminals, terminals, firstSets)
        invariant !changed ==> FirstClosed(grammar, nonTerminals, terminals, firstSets)
        decreases Missing(nonTerminals, Elems(terminals) + {Eps}, firstSets), changed
      {
        changed := FirstPass();
      }
      result := firstSets;
    }

    /** One pass of the FIRST loop over every non-terminal in list order; it reports whether
        some set grew, and a pass that changes nothing leaves every head closed. */
    method FirstPass() returns (changed: bool)
      requires grammar.Keys == Elems(nonTerminals) && FirstBound(grammar, nonTerminals, terminals, firstSets)
      modifies this`firstSets
      ensures FirstBound(grammar, nonTerminals, terminals, firstSets)
      ensures Missing(nonTerminals, Elems(terminals) + {Eps}, firstSets) <= old(Missing(nonTerminals, Elems(terminals) + {Eps}, firstSets))
      ensures changed ==> Missing(nonTerminals, Elems(terminals) + {Eps}, firstSets) < old(Missing(nonTerminals, Elems(terminals) + {Eps}, firstSets))
      ensures !changed ==> firstSets == old(firstSets) && FirstClosed(grammar, nonTerminals, terminals, firstSets)
    {
      changed := false;
      ghost var m0, f0 := Missing(nonTerminals, Elems(terminals) + {Eps}, firstSets), firstSets;
      var i := 0;
      while i < |nonTerminals|
        invariant 0 <= i <= |nonTerminals|
        invariant FirstBound(grammar, nonTerminals, terminals, firstSets)
        invariant Missing(nonTerminals, Elems(terminals) + {Eps}, firstSets) <= m0
        invariant changed ==> Missing(nonTerminals, Elems(terminals) + {Eps}, firstSets) < m0
        invariant !changed ==> firstSets == f0
        invariant !changed ==> forall a :: a in nonTerminals[..i] ==> HeadClosed(grammar, terminals, firstSets, a)
      {
        PrefixSnoc(nonTerminals, i);
        var grew := FirstPassHead(nonTerminals[i]);
        changed := changed || grew;
        i := i + 1;
      }
      assert nonTerminals[..i] == nonTerminals;
    }

    /** The productions of one non-terminal in order: each one whose FIRST set is not yet
        contained in the head's set is added to it. */
    method FirstPassHead(nonTerminal: Symbol) returns (changed: bool)
      requires grammar.Keys == Elems(nonTerminals) && FirstBound(grammar, nonTerminals, terminals, firstSets) && nonTerminal in nonTerminals
      modifies this`firstSets
      ensures FirstBound(grammar, nonTerminals, terminals, firstSets)
      ensures Missing(nonTerminals, Elems(terminals) + {Eps}, firstSets) <= old(Missing(nonTerminals, Elems(terminals) + {Eps}, firstSets))
      ensures changed ==> Missing(nonTerminals, Elems(terminals) + {Eps}, firstSets) < old(Missing(nonTerminals, Elems(terminals) + {Eps}, firstSets))
      ensures !changed ==> firstSets == old(firstSets) && HeadClosed(grammar, terminals, firstSets, nonTerminal)
    {
      changed := false;
      var productions := grammar[nonTerminal];
      ghost var m0, f0 := Missing(nonTerminals, Elems(terminals) + {Eps}, firstSets), firstSets;
      var j := 0;
      while j < |productions|
        invariant 0 <= j <= |productions|
        invariant FirstBound(grammar, nonTerminals, terminals, firstSets)
        invariant Missing(nonTerminals, Elems(terminals) + {Eps}, firstSets) <= m0
        invariant changed ==> Missing(nonTerminals, Elems(terminals) + {Eps}, firstSets) < m0
        invariant !changed ==> firstSets == f0
        invariant !changed ==> forall p :: p in productions[..j] ==>
                                 FirstOfSeq(p, firstSets, terminals) <= firstSets[nonTerminal]
      {
        PrefixSnoc(productions, j);
        var firstSet := FirstForSequence(productions[j]);
        if !(firstSet <= firstSets[nonTerminal]) {
          FirstStep(grammar, nonTerminals, terminals, firstSets, nonTerminal, productions[j]);
          firstSets := firstSets[nonTerminal := firstSets[nonTerminal] + firstSet];
          changed := true;
        }
        j := j + 1;
      }
      assert productions[..j] == productions;
    }

    /** The FOLLOW sets of every non-terminal: "$" for the start symbol, then passes over
        every occurrence of a non-terminal in a production until a pass changes nothing. */
    method ComputeFollowSets() returns (result: SetMap)
      requires grammar.Keys == Elems(nonTerminals) && startSymbol.Some? && startSymbol.value in nonTerminals
      modifies this`followSets
      ensures result == followSets
      ensures IsLeastFollow(grammar, nonTerminals, startSymbol.value, firstSets, terminals, followSets)
      ensures Within(followSets, FollowUniverse(firstSets, terminals))
      ensures forall a :: a in followSets ==> Eps !in followSets[a]
    {
      var start := startSymbol.value;
      followSets := map a | a in Elems(nonTerminals) :: {};
      followSets := followSets[start := followSets[start] + {End}];
      FollowSeed(grammar, nonTerminals, start, firstSets, terminals);
      var changed := true;
      while changed
        invariant FollowBound(grammar, nonTerminals, start, firstSets, terminals, followSets)
        invariant !changed ==> FollowClosed(grammar, nonTerminals, start, firstSets, terminals, followSets)
        decreases Missing(nonTerminals, FollowUniverse(firstSets, terminals), followSets), changed
      {
        changed := FollowPass(start);
      }
      FollowDone(grammar, nonTerminals, start, firstSets, terminals, followSets);
      result := followSets;
    }

    /** One pass of the FOLLOW loop over every non-terminal in list order. */
    method FollowPass(ghost start: Symbol) returns (changed: bool)
      requires grammar.Keys == Elems(nonTerminals) && FollowBound(grammar, nonTerminals, start, firstSets, terminals, followSets)
      modifies this`followSets
      ensures FollowBound(grammar, nonTerminals, start, firstSets, terminals, followSets)
      ensures Missing(nonTerminals, FollowUniverse(firstSets, terminals), followSets) <= old(Missing(nonTerminals, FollowUniverse(firstSets, terminals), followSets))
      ensures changed ==> Missing(nonTerminals, FollowUniverse(firstSets, terminals), followSets) < old(Missing(nonTerminals, FollowUniverse(firstSets, terminals), followSets))
      ensures !changed ==> followSets == old(followSets)
      ensures !changed ==> forall a :: a in nonTerminals ==> HeadFollowClosed(grammar, nonTerminals, firstSets, terminals, followSets, a)
    {
      changed := false;
      var i := 0;
      while i < |nonTerminals|
        invariant 0 <= i <= |nonTerminals|
        invariant FollowBound(grammar, nonTerminals, start, firstSets, terminals, followSets)
        invariant Missing(nonTerminals, FollowUniverse(firstSets, terminals), followSets) <= old(Missing(nonTerminals, FollowUniverse(firstSets, terminals), followSets))
        invariant changed ==> Missing(nonTerminals, FollowUniverse(firstSets, terminals), followSets) < old(Missing(nonTerminals, FollowUniverse(firstSets, terminals), followSets))
        invariant !changed ==> followSets == old(followSets)
        invariant !changed ==> forall a :: a in nonTerminals[..i] ==> HeadFollowClosed(grammar, nonTerminals, firstSets, terminals, followSets, a)
      {
        PrefixSnoc(nonTerminals, i);
        var grew := FollowPassHead(start, nonTerminals[i]);
        changed := changed || grew;
        i := i + 1;
      }
      assert nonTerminals[..i] == nonTerminals;
    }

    /** The productions of one non-terminal in order. */
    method FollowPassHead(ghost start: Symbol, nonTerminal: Symbol) returns (changed: bool)
      requires grammar.Keys == Elems(nonTerminals) && FollowBound(grammar, nonTerminals, start, firstSets, terminals, followSets) && nonTerminal in nonTerminals
      modifies this`followSets
      ensures FollowBound(grammar, nonTerminals, start, firstSets, terminals, followSets)
      ensures Missing(nonTerminals, FollowUniverse(firstSets, terminals), followSets) <= old(Missing(nonTerminals, FollowUniverse(firstSets, terminals), followSets))
      ensures changed ==> Missing(nonTerminals, FollowUniverse(firstSets, terminals), followSets) < old(Missing(nonTerminals, FollowUniverse(firstSets, terminals), followSets))
      ensures !changed ==> followSets == old(followSets)
      ensures !changed ==> HeadFollowClosed(grammar, nonTerminals, firstSets, terminals, followSets, nonTerminal)
    {
      changed := false;
      var productions := grammar[nonTerminal];
      var j := 0;
      while j < |productions|
        invariant 0 <= j <= |productions|
        invariant FollowBound(grammar, nonTerminals, start, firstSets, terminals, followSets)
        invariant Missing(nonTerminals, FollowUniverse(firstSets, terminals), followSets) <= old(Missing(nonTerminals, FollowUniverse(firstSets, terminals), followSets))
        invariant changed ==> Missing(nonTerminals, FollowUniverse(firstSets, terminals), followSets) < old(Missing(nonTerminals, FollowUniverse(firstSets, terminals), followSets))
        invariant !changed ==> followSets == old(followSets)
        invariant !changed ==> forall p :: p in productions[..j] ==>
                                 ProductionClosed(nonTerminals, firstSets, terminals, followSets, nonTerminal, p)
      {
        PrefixSnoc(productions, j);
        var grew := FollowPassProduction(start, nonTerminal, productions[j]);
        changed := changed || grew;
        j := j + 1;
      }
      assert productions[..j] == productions;
    }

    /** Every occurrence of a non-terminal B = p[i] in production p of head a, left to right:
        rule 1 adds FIRST(p[i+1..]) without "ε" to FOLLOW(B); rule 2 adds FOLLOW(a) to
        FOLLOW(B) when that FIRST set holds "ε" or B is last. */
    method FollowPassProduction(ghost start: Symbol, nonTerminal: Symbol, production: Production) returns (changed: bool)
      requires grammar.Keys == Elems(nonTerminals) && FollowBound(grammar, nonTerminals, start, firstSets, terminals, followSets) && nonTerminal in nonTerminals && production in grammar[nonTerminal]
      modifies this`followSets
      ensures FollowBound(grammar, nonTerminals, start, firstSets, terminals, followSets)
      ensures Missing(nonTerminals, FollowUniverse(firstSets, terminals), followSets) <= old(Missing(nonTerminals, FollowUniverse(firstSets, terminals), followSets))
      ensures changed ==> Missing(nonTerminals, FollowUniverse(firstSets, terminals), followSets) < old(Missing(nonTerminals, FollowUniverse(firstSets, terminals), followSets))
      ensures !changed ==> followSets == old(followSets)
      ensures !changed ==> ProductionClosed(nonTerminals, firstSets, terminals, followSets, nonTerminal, production)
    {
      changed := false;
      var i := 0;
      while i < |production|
        invariant 0 <= i <= |production|
        invariant FollowBound(grammar, nonTerminals, start, firstSets, terminals, followSets)
        invariant Missing(nonTerminals, FollowUniverse(firstSets, terminals), followSets) <= old(Missing(nonTerminals, FollowUniverse(firstSets, terminals), followSets))
        invariant changed ==> Missing(nonTerminals, FollowUniverse(firstSets, terminals), followSets) < old(Missing(nonTerminals, FollowUniverse(firstSets, terminals), followSets))
        invariant !changed ==> followSets == old(followSets)
        invariant !changed ==> forall k :: 0 <= k < i && production[k] in nonTerminals ==>
                                 OccurrenceClosed(firstSets, terminals, followSets, nonTerminal, production, k)
      {
        if production[i] in nonTerminals {
          var grew := FollowOccurrence(start, nonTerminal, production, i);
          changed := changed || grew;
        }
        i := i + 1;
      }
    }

    /** Both rules at the occurrence of the non-terminal `production[i]`. */
    method FollowOccurrence(ghost start: Symbol, nonTerminal: Symbol, production: Production, i: nat) returns (changed: bool)
      requires grammar.Keys == Elems(nonTerminals) && FollowBound(grammar, nonTerminals, start, firstSets, terminals, followSets) && nonTerminal in nonTerminals && production in grammar[nonTerminal]
      requires i < |production| && production[i] in nonTerminals
      modifies this`followSets
      ensures FollowBound(grammar, nonTerminals, start, firstSets, terminals, followSets)
      ensures Missing(nonTerminals, FollowUniverse(firstSets, terminals), followSets) <= old(Missing(nonTerminals, FollowUniverse(firstSets, terminals), followSets))
      ensures changed ==> Missing(nonTerminals, FollowUniverse(firstSets, terminals), followSets) < old(Missing(nonTerminals, FollowUniverse(firstSets, terminals), followSets))
      ensures !changed ==> followSets == old(followSets)
      ensures !changed ==> OccurrenceClosed(firstSets, terminals, followSets, nonTerminal, production, i)
    {
      changed := false;
      var symbol := production[i];
      var remainder := production[i + 1..];
      var firstRemainder := FirstForSequence(remainder);
      var newFollows := firstRemainder - {Eps};
      if !(newFollows <= followSets[symbol]) {
        RuleOneStep(grammar, nonTerminals, start, firstSets, terminals, followSets, nonTerminal, production, i);
        followSets := followSets[symbol := followSets[symbol] + newFollows];
        changed := true;
      }
      if Eps in firstRemainder || i == |production| - 1 {
        if !(followSets[nonTerminal] <= followSets[symbol]) {
          RuleTwoStep(grammar, nonTerminals, start, firstSets, terminals, followSets, nonTerminal, production, i);
          followSets := followSets[symbol := followSets[symbol] + followSets[nonTerminal]];
          changed := true;
        }
      }
    }

    /** The FIRST sets, FOLLOW sets and terminals the table is built from. */
    ghost function CurrentAnalysis(): Analysis
      reads this`firstSets, this`followSets, this`terminals
    {
      Analysis(firstSets, followSets, terminals)
    }

    /** What `build_parse_table` needs so that it never reads a missing key: every cell a
        production targets is a (non-terminal, terminal) cell, and a production whose FIRST
        set holds "ε" has a FOLLOW set to look up. */
    ghost predicate TableReady()
      reads this`grammar, this`firstSets, this`followSets, this`terminals
    {
      forall a, p :: a in grammar && p in grammar[a] ==>
        && Targets(p, a, CurrentAnalysis()) <= Elems(terminals)
        && (Eps in FirstOfProduction(p, CurrentAnalysis()) ==> a in followSets)
    }

    /** The order of calls after a grammar was read: FIRST sets, then FOLLOW sets, then the
        table, which then reads no missing key. */
    method Analyse() returns (table: Table, conflicts: seq<Cell>)
      requires Valid() && startSymbol.Some?
      modifies this`firstSets, this`followSets, this`parseTable
      ensures IsLeastFirst(grammar, nonTerminals, terminals, firstSets)
      ensures IsLeastFollow(grammar, nonTerminals, startSymbol.value, firstSets, terminals, followSets)
      ensures table == parseTable && parseTable.Keys == Grid(nonTerminals, terminals)
      ensures forall a, t :: a in nonTerminals && t in terminals ==>
                parseTable[(a, t)] == LastWriter(grammar[a], a, t, CurrentAnalysis())
      ensures forall a, t :: multiset(conflicts)[(a, t)] ==
                if a in nonTerminals && t in terminals then Overwrites(Writes(grammar[a], a, t, CurrentAnalysis())) else 0
    {
      ClassifiedMarkers(grammar, nonTerminals, terminals);
      var first := ComputeFirstSets();
      var follow := ComputeFollowSets();
      AnalysisReady(grammar, terminals, firstSets, followSets);
      table, conflicts := BuildParseTable();
    }

    /** The LL(1) table: every (non-terminal, terminal) cell, holding the last production of
        its head that targets it (None when there is none); one conflict warning for every
        write into a cell that was already filled. */
    method BuildParseTable() returns (table: Table, conflicts: seq<Cell>)
      requires grammar.Keys == Elems(nonTerminals) && Distinct(nonTerminals) && TableReady()
      modifies this`parseTable
      ensures table == parseTable
      ensures parseTable.Keys == Grid(nonTerminals, terminals)
      ensures forall a, t :: a in nonTerminals && t in terminals ==>
                parseTable[(a, t)] == LastWriter(grammar[a], a, t, CurrentAnalysis())
      ensures forall a, t :: multiset(conflicts)[(a, t)] ==
                if a in nonTerminals && t in terminals then Overwrites(Writes(grammar[a], a, t, CurrentAnalysis())) else 0
    {
      ClearTable();
      conflicts := [];
      var i := 0;
      while i < |nonTerminals|
        invariant 0 <= i <= |nonTerminals|
        invariant parseTable.Keys == Grid(nonTerminals, terminals)
        invariant Filled(grammar, nonTerminals[..i], nonTerminals, terminals, CurrentAnalysis(), parseTable)
        invariant Warned(grammar, nonTerminals[..i], terminals, CurrentAnalysis(), conflicts)
      {
        PrefixSnoc(nonTerminals, i);
        var h := nonTerminals[i];
        assert h !in nonTerminals[..i];
        ghost var before := parseTable;
        var warned := FillHead(h);
        FillStep(grammar, nonTerminals[..i], nonTerminals, terminals, CurrentAnalysis(), h, before, parseTable, conflicts, warned);
        conflicts := conflicts + warned;
        i := i + 1;
      }
      assert nonTerminals[..i] == nonTerminals;
      table := parseTable;
    }

    /** The table reset to empty, then every (non-terminal, terminal) cell set to None. */
    method ClearTable()
      modifies this`parseTable
      ensures parseTable.Keys == Grid(nonTerminals, terminals)
      ensures forall c :: c in parseTable ==> parseTable[c] == None
    {
      parseTable := map[];
      var i := 0;
      while i < |nonTerminals|
        invariant 0 <= i <= |nonTerminals|
        invariant parseTable.Keys == Grid(nonTerminals[..i], terminals)
        invariant forall c :: c in parseTable ==> parseTable[c] == None
      {
        var j := 0;
        while j < |terminals|
          invariant 0 <= j <= |terminals|
          invariant parseTable.Keys == Grid(nonTerminals[..i], terminals) + Grid([nonTerminals[i]], terminals[..j])
          invariant forall c :: c in parseTable ==> parseTable[c] == None
        {
          GridSnoc(nonTerminals[i], terminals, j);
          parseTable := parseTable[(nonTerminals[i], terminals[j]) := None];
          j := j + 1;
        }
        assert terminals[..j] == terminals;
        GridRow(nonTerminals, terminals, i);
        i := i + 1;
      }
      assert nonTerminals[..i] == nonTerminals;
    }

    /** The productions of one non-terminal in order; its row starts empty. */
    method FillHead(nonTerminal: Symbol) returns (warned: seq<Cell>)
      requires TableReady() && nonTerminal in grammar
      requires forall t :: t in terminals ==> (nonTerminal, t) in parseTable && parseTable[(nonTerminal, t)] == None
      modifies this`parseTable
      ensures parseTable.Keys == old(parseTable).Keys
      ensures forall a, t :: (a, t) in parseTable && !(a == nonTerminal && t in terminals) ==>
                parseTable[(a, t)] == old(parseTable)[(a, t)]
      ensures forall t :: t in terminals ==>
                parseTable[(nonTerminal, t)] == LastWriter(grammar[nonTerminal], nonTerminal, t, CurrentAnalysis())
      ensures forall a, t :: multiset(warned)[(a, t)] ==
                if a == nonTerminal && t in terminals then Overwrites(Writes(grammar[nonTerminal], a, t, CurrentAnalysis())) else 0
    {
      warned := [];
      var productions := grammar[nonTerminal];
      var j := 0;
      while j < |productions|
        invariant 0 <= j <= |productions|
        invariant parseTable.Keys == old(parseTable).Keys
        invariant forall a, t :: (a, t) in parseTable && !(a == nonTerminal && t in terminals) ==>
                    parseTable[(a, t)] == old(parseTable)[(a, t)]
        invariant forall t :: t in terminals ==>
                    parseTable[(nonTerminal, t)] == LastWriter(productions[..j], nonTerminal, t, CurrentAnalysis())
        invariant forall a, t :: multiset(warned)[(a, t)] ==
                    if a == nonTerminal && t in terminals then Overwrites(Writes(productions[..j], a, t, CurrentAnalysis())) else 0
      {
        PrefixSnoc(productions, j);
        var more := WriteProduction(nonTerminal, productions[j], productions[..j]);
        warned := warned + more;
        j := j + 1;
      }
      assert productions[..j] == productions;
    }

    /** One production p of a head a: it is written into (a, t) for every t in FIRST(p)
        other than "ε", then, when FIRST(p) holds "ε", for every t in FOLLOW(a). The cells
        of the row held what the productions `done` before it left. */
    method WriteProduction(nonTerminal: Symbol, production: Production, ghost done: seq<Production>) returns (warned: seq<Cell>)
      requires Targets(production, nonTerminal, CurrentAnalysis()) <= Elems(terminals)
      requires Eps in FirstOfProduction(production, CurrentAnalysis()) ==> nonTerminal in followSets
      requires forall t :: t in terminals ==>
                 (nonTerminal, t) in parseTable && parseTable[(nonTerminal, t)] == LastWriter(done, nonTerminal, t, CurrentAnalysis())
      modifies this`parseTable
      ensures parseTable.Keys == old(parseTable).Keys
      ensures forall a, t :: (a, t) in parseTable && !(a == nonTerminal && t in terminals) ==>
                parseTable[(a, t)] == old(parseTable)[(a, t)]
      ensures forall t :: t in terminals ==>
                parseTable[(nonTerminal, t)] == LastWriter(done + [production], nonTerminal, t, CurrentAnalysis())
      ensures forall a, t :: multiset(warned)[(a, t)] ==
                if a == nonTerminal && t in terminals
                then Overwrites(Writes(done + [production], a, t, CurrentAnalysis())) - Overwrites(Writes(done, a, t, CurrentAnalysis()))
                else 0
    {
      ghost var an := CurrentAnalysis();
      var firstAlpha := FirstForSequence(production);
      assert firstAlpha == FirstOfProduction(production, an);
      ghost var before := parseTable;
      warned := FillCells(nonTerminal, production, firstAlpha - {Eps});
      ghost var mid := parseTable;
      var extra: seq<Cell> := [];
      if Eps in firstAlpha {
        extra := FillCells(nonTerminal, production, followSets[nonTerminal]);
      }
      ghost var first := warned;
      warned := warned + extra;
      forall t | t in terminals
        ensures parseTable[(nonTerminal, t)] == LastWriter(done + [production], nonTerminal, t, an)
        ensures multiset(warned)[(nonTerminal, t)] ==
                  Overwrites(Writes(done + [production], nonTerminal, t, an)) - Overwrites(Writes(done, nonTerminal, t, an))
      {
        var c := (nonTerminal, t);
        CellStep(done, production, nonTerminal, t, an, before[c], mid[c], parseTable[c], multiset(first)[c], multiset(extra)[c]);
      }
    }

    /** Writes the production into (a, t) for every t in `targets`, warning about each cell
        that was already filled. */
    method FillCells(nonTerminal: Symbol, production: Production, targets: set<Symbol>) returns (warned: seq<Cell>)
      requires forall t :: t in targets ==> (nonTerminal, t) in parseTable
      modifies this`parseTable
      ensures parseTable.Keys == old(parseTable).Keys
      ensures forall a, t :: (a, t) in parseTable ==>
                parseTable[(a, t)] == if a == nonTerminal && t in targets then Some(production) else old(parseTable)[(a, t)]
      ensures forall a, t :: multiset(warned)[(a, t)] ==
                if a == nonTerminal && t in targets && old(parseTable)[(a, t)].Some? then 1 else 0
    {
      warned := [];
      var rest := targets;
      while rest != {}
        invariant rest <= targets
        invariant parseTable.Keys == old(parseTable).Keys
        invariant forall a, t :: (a, t) in parseTable ==>
                    parseTable[(a, t)] == if a == nonTerminal && t in targets - rest then Some(production) else old(parseTable)[(a, t)]
        invariant forall a, t :: multiset(warned)[(a, t)] ==
                    if a == nonTerminal && t in targets - rest && old(parseTable)[(a, t)].Some? then 1 else 0
        decreases |rest|
      {
        var terminal :| terminal in rest;
        if parseTable[(nonTerminal, terminal)].Some? {
          warned := warned + [(nonTerminal, terminal)];
        }
        parseTable := parseTable[(nonTerminal, terminal) := Some(production)];
        rest := rest - {terminal};
      }
    }

    /** Runs the table-driven recogniser on the tokens followed by "$", from the stack
        ["$", start], for at most `fuel` iterations. Each iteration records the stack and the
        remaining input before its action; Accept, a mismatched terminal and a missing table
        entry end the run. */
    method ParseInput(tokens: seq<Symbol>, fuel: nat) returns (steps: seq<Step>, accepted: bool)
      requires Valid() && startSymbol.Some?
      ensures Outcome(steps, accepted) == Run(parseTable, terminals, tokens + [End], [End, startSymbol.value], 0, fuel)
      ensures |steps| <= fuel
      ensures accepted <==> steps != [] && steps[|steps| - 1].action == Accept
      ensures |steps| == fuel || (steps != [] && Halts(steps[|steps| - 1].action))
      ensures steps != [] ==> steps[0].stack == [End, startSymbol.value] && steps[0].input == tokens + [End]
      ensures ValidTrace(parseTable, terminals, steps)
    {
      var input := tokens + [End];
      var stack := [End, startSymbol.value];
      ClassifiedMarkers(grammar, nonTerminals, terminals);
      steps, accepted := Recognise(input, stack, fuel);
      RunAccepted(parseTable, terminals, input, stack, 0, fuel);
      RunStops(parseTable, terminals, input, stack, 0, fuel);
      RunTrace(parseTable, terminals, input, stack, 0, fuel);
    }

    /** The loop of `parse_input` from the initial stack and pointer 0. */
    method Recognise(input: seq<Symbol>, initial: seq<Symbol>, fuel: nat) returns (steps: seq<Step>, accepted: bool)
      requires Wf(terminals, input, initial, 0)
      ensures Outcome(steps, accepted) == Run(parseTable, terminals, input, initial, 0, fuel)
    {
      var stack := initial;
      var pointer: nat := 0;
      steps := [];
      accepted := false;
      ghost var whole := Run(parseTable, terminals, input, stack, pointer, fuel);
      ghost var rest := whole;
      assert steps + rest.steps == rest.steps;
      var n := 0;
      while |stack| > 0 && n < fuel
        invariant n <= fuel
        invariant Wf(terminals, input, stack, pointer)
        invariant !accepted
        invariant rest == Run(parseTable, terminals, input, stack, pointer, fuel - n)
        invariant whole.steps == steps + rest.steps && whole.accepted == rest.accepted
        decreases fuel - n
      {
        var step := Step(stack, input[pointer..], Accept);
        RunUnfold(parseTable, terminals, input, stack, pointer, fuel - n);
        var action;
        action, stack, pointer := Iterate(input, stack, pointer);
        step := step.(action := action);
        if Halts(action) {
          steps := steps + [step];
          accepted := action == Accept;
          break;
        }
        AppendShift(steps, step, Run(parseTable, terminals, input, stack, pointer, fuel - n - 1).steps);
        steps := steps + [step];
        rest := Run(parseTable, terminals, input, stack, pointer, fuel - n - 1);
        n := n + 1;
      }
    }

    /** One iteration of the `parse_input` loop: Accept on "$" against "$"; a terminal on top
        is matched (popped, pointer advanced) or is an error; a non-terminal on top is
        replaced by the table's production for the current token, or is an error. */
    method Iterate(input: seq<Symbol>, stack: seq<Symbol>, pointer: nat) returns (action: Action, stack': seq<Symbol>, pointer': nat)
      requires Wf(terminals, input, stack, pointer)
      ensures action == Decide(parseTable, terminals, stack, input[pointer])
      ensures (stack', pointer') == Successor(stack, pointer, action)
    {
      var top := stack[|stack| - 1];
      var current := input[pointer];
      stack', pointer' := stack, pointer;
      if top == End && current == End {
        action := Accept;
      } else if top in terminals {
        if top == current {
          stack' := stack[..|stack| - 1];
          pointer' := pointer + 1;
          action := Match(top);
          assert action == Decide(parseTable, terminals, stack, input[pointer]);
        } else {
          action := Mismatch(top, current);
        }
      } else {
        var production := Get(parseTable, (top, current));
        if production.Some? {
          stack' := stack[..|stack| - 1];
          if production.value != [Eps] {
            stack' := PushReversed(stack', production.value);
          }
          action := ApplyRule(top, production.value);
          assert stack' == Expand(stack, production.value);
        } else {
          action := NoRule(top, current);
        }
      }
    }
  }
}
