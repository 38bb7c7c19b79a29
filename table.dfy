/**
 The parse table that `build_parse_table` fills: which cells a production is written into,
 which production a cell ends up holding (the last writer in production order), and how
 many conflict warnings each cell draws.
 */
module ParseTables {
  import opened Symbols
  import opened FirstSets

  /** `(non-terminal, terminal)` to a production, or None for an empty cell. */
  type Table = map<Cell, Option<Production>>

  /** The sets the table is built from. */
  datatype Analysis = Analysis(first: SetMap, follow: SetMap, terminals: seq<Symbol>)

  /** FIRST of one production, as `build_parse_table` computes it. */
  function FirstOfProduction(p: Production, an: Analysis): set<Symbol>
  {
    FirstOfSeq(p, an.first, an.terminals)
  }

  /** The terminals t whose cell (a, t) production p of head a is written into: FIRST(p)
      without "ε", and FOLLOW(a) when FIRST(p) holds "ε". */
  function Targets(p: Production, a: Symbol, an: Analysis): set<Symbol>
  {
    var f := FirstOfProduction(p, an);
    (f - {Eps}) + (if Eps in f then Lookup(an.follow, a) else {})
  }

  /** How many times production p writes cell (a, t): once from its FIRST loop, once from
      its FOLLOW loop. */
  function Hits(p: Production, a: Symbol, t: Symbol, an: Analysis): nat
  {
    var f := FirstOfProduction(p, an);
    (if t != Eps && t in f then 1 else 0) + (if Eps in f && t in Lookup(an.follow, a) then 1 else 0)
  }

  /** How many times the productions `ps` of head a write cell (a, t). */
  function Writes(ps: seq<Production>, a: Symbol, t: Symbol, an: Analysis): nat
    decreases |ps|
  {
    if ps == [] then 0 else Writes(ps[..|ps| - 1], a, t, an) + Hits(ps[|ps| - 1], a, t, an)
  }

  /** The value of cell (a, t) after the productions `ps` of head a were processed in order:
      every write overwrites, so the last production that writes the cell wins. */
  function LastWriter(ps: seq<Production>, a: Symbol, t: Symbol, an: Analysis): Option<Production>
    decreases |ps|
  {
    if ps == [] then None
    else if t in Targets(ps[|ps| - 1], a, an) then Some(ps[|ps| - 1])
    else LastWriter(ps[..|ps| - 1], a, t, an)
  }

  /** Warnings drawn by a cell written n times: every write but the first finds it filled. */
  function Overwrites(n: nat): nat
  {
    if n == 0 then 0 else n - 1
  }

  lemma HitsTargets(p: Production, a: Symbol, t: Symbol, an: Analysis)
    ensures Hits(p, a, t, an) > 0 <==> t in Targets(p, a, an)
  {
  }

  /** A cell is filled exactly when some production of its head writes it; then it holds the
      last such production in production order. */
  lemma {:induction false} LastWriterSpec(ps: seq<Production>, a: Symbol, t: Symbol, an: Analysis)
    ensures LastWriter(ps, a, t, an).None? <==> forall k :: 0 <= k < |ps| ==> t !in Targets(ps[k], a, an)
    ensures LastWriter(ps, a, t, an).Some? ==>
              exists k :: 0 <= k < |ps| && ps[k] == LastWriter(ps, a, t, an).value
                          && t in Targets(ps[k], a, an)
                          && forall j :: k < j < |ps| ==> t !in Targets(ps[j], a, an)
    decreases |ps|
  {
    if ps != [] {
      var init := ps[..|ps| - 1];
      LastWriterSpec(init, a, t, an);
      assert forall k :: 0 <= k < |init| ==> init[k] == ps[k];
      if t in Targets(ps[|ps| - 1], a, an) {
        assert ps[|ps| - 1] == LastWriter(ps, a, t, an).value;
      }
    }
  }

  /** A cell is written at least once exactly when some production targets it. */
  lemma {:induction false} WritesPositive(ps: seq<Production>, a: Symbol, t: Symbol, an: Analysis)
    ensures Writes(ps, a, t, an) > 0 <==> exists k :: 0 <= k < |ps| && t in Targets(ps[k], a, an)
    decreases |ps|
  {
    if ps != [] {
      var init := ps[..|ps| - 1];
      WritesPositive(init, a, t, an);
      HitsTargets(ps[|ps| - 1], a, t, an);
      assert forall k :: 0 <= k < |init| ==> init[k] == ps[k];
    }
  }

  /** The LL(1) condition for one cell: no production reaches t through both its FIRST set
      and FOLLOW(a), and no two productions both target t. */
  ghost predicate LL1Cell(ps: seq<Production>, a: Symbol, t: Symbol, an: Analysis)
  {
    && (forall k :: 0 <= k < |ps| ==> Hits(ps[k], a, t, an) <= 1)
    && (forall i, j :: 0 <= i < j < |ps| ==> !(t in Targets(ps[i], a, an) && t in Targets(ps[j], a, an)))
  }

  /** A cell is still empty exactly when no production has written it yet. */
  lemma LastWriterNone(ps: seq<Production>, a: Symbol, t: Symbol, an: Analysis)
    ensures LastWriter(ps, a, t, an).None? <==> Writes(ps, a, t, an) == 0
  {
    LastWriterSpec(ps, a, t, an);
    WritesPositive(ps, a, t, an);
  }

  /** Processing one more production p: it counts its hits, and it takes the cell when it
      targets it. */
  lemma WritesSnoc(ps: seq<Production>, p: Production, a: Symbol, t: Symbol, an: Analysis)
    ensures Writes(ps + [p], a, t, an) == Writes(ps, a, t, an) + Hits(p, a, t, an)
    ensures LastWriter(ps + [p], a, t, an) == if t in Targets(p, a, an) then Some(p) else LastWriter(ps, a, t, an)
  {
    assert (ps + [p])[..|ps|] == ps;
  }

  /** One production p written into cell (a, t), which held `before`: its FIRST loop leaves
      `mid` and draws w1 warnings, its FOLLOW loop leaves `after` and draws w2. The cell then
      holds the last writer of `done + [p]`, and the warnings are the overwrites p adds. */
  lemma CellStep(done: seq<Production>, p: Production, a: Symbol, t: Symbol, an: Analysis,
                 before: Option<Production>, mid: Option<Production>, after: Option<Production>, w1: nat, w2: nat)
    requires before == LastWriter(done, a, t, an)
    requires mid == if t in FirstOfProduction(p, an) - {Eps} then Some(p) else before
    requires w1 == if t in FirstOfProduction(p, an) - {Eps} && before.Some? then 1 else 0
    requires after == if Eps in FirstOfProduction(p, an) && t in Lookup(an.follow, a) then Some(p) else mid
    requires w2 == if Eps in FirstOfProduction(p, an) && t in Lookup(an.follow, a) && mid.Some? then 1 else 0
    ensures after == LastWriter(done + [p], a, t, an)
    ensures w1 + w2 == Overwrites(Writes(done + [p], a, t, an)) - Overwrites(Writes(done, a, t, an))
  {
    WritesSnoc(done, p, a, t, an);
    LastWriterNone(done, a, t, an);
  }

  /** Every (non-terminal, terminal) pair. */
  function Grid(nts: seq<Symbol>, terminals: seq<Symbol>): set<Cell>
  {
    set a, t | a in nts && t in terminals :: (a, t)
  }

  /** One more terminal in a row of the grid. */
  lemma GridSnoc(a: Symbol, terminals: seq<Symbol>, j: nat)
    requires j < |terminals|
    ensures Grid([a], terminals[..j + 1]) == Grid([a], terminals[..j]) + {(a, terminals[j])}
  {
    PrefixSnoc(terminals, j);
  }

  /** One more row of the grid. */
  lemma GridRow(nts: seq<Symbol>, terminals: seq<Symbol>, i: nat)
    requires i < |nts|
    ensures Grid(nts[..i + 1], terminals) == Grid(nts[..i], terminals) + Grid([nts[i]], terminals)
  {
    PrefixSnoc(nts, i);
  }

  /** The table after the rows of the heads in `done` were filled from the productions `g`:
      every grid cell exists, a cell of a filled row holds its last writer, and every other
      cell is empty. */
  ghost predicate Filled(g: map<Symbol, seq<Production>>, done: seq<Symbol>, nts: seq<Symbol>, terminals: seq<Symbol>,
                         an: Analysis, table: Table)
  {
    forall a, t :: a in nts && t in terminals ==>
      (a, t) in table && table[(a, t)] == if a in done && a in g then LastWriter(g[a], a, t, an) else None
  }

  /** The warnings after the rows of the heads in `done` were filled: as many for each cell of
      a filled row as it has overwrites, and none elsewhere. */
  ghost predicate Warned(g: map<Symbol, seq<Production>>, done: seq<Symbol>, terminals: seq<Symbol>, an: Analysis,
                         conflicts: seq<Cell>)
  {
    forall a, t :: multiset(conflicts)[(a, t)] ==
      if a in done && a in g && t in terminals then Overwrites(Writes(g[a], a, t, an)) else 0
  }

  /** Filling one more row h, which changes only the cells of that row and warns only about
      them, extends both descriptions by h. */
  lemma FillStep(g: map<Symbol, seq<Production>>, done: seq<Symbol>, nts: seq<Symbol>, terminals: seq<Symbol>, an: Analysis,
                 h: Symbol, table: Table, table': Table, conflicts: seq<Cell>, warned: seq<Cell>)
    requires Filled(g, done, nts, terminals, an, table) && Warned(g, done, terminals, an, conflicts)
    requires h !in done && h in g
    requires table'.Keys == table.Keys
    requires forall a, t :: (a, t) in table' && !(a == h && t in terminals) ==> table'[(a, t)] == table[(a, t)]
    requires forall t :: t in terminals ==> (h, t) in table' && table'[(h, t)] == LastWriter(g[h], h, t, an)
    requires forall a, t :: multiset(warned)[(a, t)] ==
               if a == h && t in terminals then Overwrites(Writes(g[h], a, t, an)) else 0
    ensures Filled(g, done + [h], nts, terminals, an, table') && Warned(g, done + [h], terminals, an, conflicts + warned)
  {
  }

  /** A cell draws no conflict warning exactly when the LL(1) condition holds for it. */
  lemma NoWarningIffLL1(ps: seq<Production>, a: Symbol, t: Symbol, an: Analysis)
    ensures Overwrites(Writes(ps, a, t, an)) == 0 <==> LL1Cell(ps, a, t, an)
  {
    if LL1Cell(ps, a, t, an) {
      LL1AtMostOnce(ps, a, t, an);
    }
    if Writes(ps, a, t, an) <= 1 {
      AtMostOnceLL1(ps, a, t, an);
    }
  }

  /** The LL(1) condition holds of every prefix of the productions. */
  lemma LL1CellInit(ps: seq<Production>, a: Symbol, t: Symbol, an: Analysis)
    requires ps != [] && LL1Cell(ps, a, t, an)
    ensures LL1Cell(ps[..|ps| - 1], a, t, an)
  {
    var init := ps[..|ps| - 1];
    assert forall k :: 0 <= k < |init| ==> init[k] == ps[k];
  }

  /** Under the LL(1) condition a cell is written at most once. */
  lemma {:induction false} LL1AtMostOnce(ps: seq<Production>, a: Symbol, t: Symbol, an: Analysis)
    requires LL1Cell(ps, a, t, an)
    ensures Writes(ps, a, t, an) <= 1
    decreases |ps|
  {
    if ps != [] {
      var init, last := ps[..|ps| - 1], ps[|ps| - 1];
      LL1CellInit(ps, a, t, an);
      LL1AtMostOnce(init, a, t, an);
      assert Hits(ps[|ps| - 1], a, t, an) <= 1;
      HitsTargets(last, a, t, an);
      if t in Targets(last, a, an) {
        forall k | 0 <= k < |init| ensures t !in Targets(init[k], a, an) {
          assert init[k] == ps[k];
        }
        WritesPositive(init, a, t, an);
      }
    }
  }

  /** A cell written at most once meets the LL(1) condition. */
  lemma {:induction false} AtMostOnceLL1(ps: seq<Production>, a: Symbol, t: Symbol, an: Analysis)
    requires Writes(ps, a, t, an) <= 1
    ensures LL1Cell(ps, a, t, an)
    decreases |ps|
  {
    if ps != [] {
      var init, last := ps[..|ps| - 1], ps[|ps| - 1];
      AtMostOnceLL1(init, a, t, an);
      HitsTargets(last, a, t, an);
      WritesPositive(init, a, t, an);
      forall k | 0 <= k < |ps| ensures Hits(ps[k], a, t, an) <= 1 {
        if k < |init| {
          assert ps[k] == init[k];
        }
      }
      forall i, j | 0 <= i < j < |ps| ensures !(t in Targets(ps[i], a, an) && t in Targets(ps[j], a, an)) {
        assert ps[i] == init[i];
        if j < |init| {
          assert ps[j] == init[j];
        }
      }
    }
  }

  /** The grammar `S -> a | a b` is not LL(1): both productions target cell (S, a). The cell
      is written twice, draws one warning, and keeps the later production `a b`. */
  lemma AmbiguousCell()
    ensures var an := Analysis(map["S" := {"a"}], map["S" := {End}], ["a", "b", End]);
            var ps := [["a"], ["a", "b"]];
            && Writes(ps, "S", "a", an) == 2
            && Overwrites(Writes(ps, "S", "a", an)) == 1
            && LastWriter(ps, "S", "a", an) == Some(["a", "b"])
            && !LL1Cell(ps, "S", "a", an)
  {
    var an := Analysis(map["S" := {"a"}], map["S" := {End}], ["a", "b", End]);
    var ps: seq<Production> := [["a"], ["a", "b"]];
    assert FirstOfProduction(ps[0], an) == {"a"};
    assert FirstOfProduction(ps[1], an) == {"a"};
    assert ps[..1] == [ps[0]] && ps[..1][..0] == [];
    NoWarningIffLL1(ps, "S", "a", an);
  }
}
