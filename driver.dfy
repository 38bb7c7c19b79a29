/**
 The table-driven recogniser of `parse_input`: one decision per loop iteration from the
 stack top and the current token, the state change it makes, and the trace of steps a run
 produces. The Python loop has no bound (a left-recursive grammar grows the stack for
 ever), so a run here takes a fuel bound on the number of iterations.
 */
module Driver {
  import opened Symbols
  import opened ParseTables

  datatype Action =
    | Accept
    | Match(terminal: Symbol)
    | ApplyRule(head: Symbol, body: Production)
    | Mismatch(expected: Symbol, got: Symbol)
    | NoRule(head: Symbol, got: Symbol)

  /** One trace entry: the stack (bottom first) and the remaining input before the action. */
  datatype Step = Step(stack: seq<Symbol>, input: seq<Symbol>, action: Action)

  datatype Outcome = Outcome(steps: seq<Step>, accepted: bool)

  /** The actions that end a run. */
  predicate Halts(a: Action)
  {
    a.Accept? || a.Mismatch? || a.NoRule?
  }

  /** `parse_table.get((top, current), None)`. */
  function Get(table: Table, c: Cell): Option<Production>
  {
    if c in table then table[c] else None
  }

  /** The action of one iteration, from the stack top and the current token. */
  function Decide(table: Table, terminals: seq<Symbol>, stack: seq<Symbol>, current: Symbol): Action
    requires |stack| > 0
  {
    var top := stack[|stack| - 1];
    if top == End && current == End then Accept
    else if top in terminals then (if top == current then Match(top) else Mismatch(top, current))
    else match Get(table, (top, current))
      case Some(p) => ApplyRule(top, p)
      case None => NoRule(top, current)
  }

  /** The stack after applying `body` to the non-terminal on top: pop it, then push the body
      reversed, except that the production ["ε"] pushes nothing. */
  function Expand(stack: seq<Symbol>, body: Production): seq<Symbol>
    requires |stack| > 0
  {
    stack[..|stack| - 1] + (if body == [Eps] then [] else Reverse(body))
  }

  /** Applying a production pops its head and leaves the body on the stack with its first
      symbol on top: reading the stack from the top down gives the body, then what was
      below the head. */
  lemma ExpandReadsBody(stack: seq<Symbol>, body: Production)
    requires |stack| > 0 && body != [Eps]
    ensures |Expand(stack, body)| == |stack| - 1 + |body|
    ensures Expand(stack, body)[..|stack| - 1] == stack[..|stack| - 1]
    ensures forall i :: 0 <= i < |body| ==> Expand(stack, body)[|Expand(stack, body)| - 1 - i] == body[i]
  {
  }

  /** The state of the run after the action of one iteration (Match or ApplyRule). */
  function Successor(stack: seq<Symbol>, pointer: nat, a: Action): (seq<Symbol>, nat)
    requires |stack| > 0
  {
    match a
    case Match(_) => (stack[..|stack| - 1], pointer + 1)
    case ApplyRule(_, body) => (Expand(stack, body), pointer)
    case _ => (stack, pointer)
  }

  /** The iterations of the loop from state (stack, pointer), at most `fuel` of them. Every
      iteration records one step; Accept and the two errors end the run. */
  function Run(table: Table, terminals: seq<Symbol>, tokens: seq<Symbol>, stack: seq<Symbol>, pointer: nat, fuel: nat): Outcome
    requires pointer < |tokens| && tokens[|tokens| - 1] == End
    decreases fuel
  {
    if |stack| == 0 || fuel == 0 then Outcome([], false)
    else
      var a := Decide(table, terminals, stack, tokens[pointer]);
      var step := Step(stack, tokens[pointer..], a);
      if Halts(a) then Outcome([step], a == Accept)
      else
        var next := Successor(stack, pointer, a);
        var r := Run(table, terminals, tokens, next.0, next.1, fuel - 1);
        Outcome([step] + r.steps, r.accepted)
  }

  /** A run records at most one step per unit of fuel, and it accepts exactly when its last
      step is Accept. */
  lemma {:induction false} RunAccepted(table: Table, terminals: seq<Symbol>, tokens: seq<Symbol>, stack: seq<Symbol>, pointer: nat, fuel: nat)
    requires pointer < |tokens| && tokens[|tokens| - 1] == End
    ensures var r := Run(table, terminals, tokens, stack, pointer, fuel);
            && |r.steps| <= fuel
            && (r.accepted <==> r.steps != [] && r.steps[|r.steps| - 1].action == Accept)
    decreases fuel
  {
    if |stack| > 0 && fuel > 0 {
      var a := Decide(table, terminals, stack, tokens[pointer]);
      if !Halts(a) {
        var next := Successor(stack, pointer, a);
        RunAccepted(table, terminals, tokens, next.0, next.1, fuel - 1);
      }
    }
  }

  /** The shape every state of a run keeps: "$" at the bottom of a non-empty stack, and a
      pointer on a token of the input, whose last token is "$". */
  predicate Wf(terminals: seq<Symbol>, tokens: seq<Symbol>, stack: seq<Symbol>, pointer: nat)
  {
    && End in terminals
    && |stack| > 0 && stack[0] == End
    && pointer < |tokens| && tokens[|tokens| - 1] == End
  }

  /** Match pops the terminal and advances the pointer by one; the bottom "$" is never
      popped and the pointer never moves past the final "$". */
  lemma MatchKeepsShape(table: Table, terminals: seq<Symbol>, tokens: seq<Symbol>, stack: seq<Symbol>, pointer: nat)
    requires Wf(terminals, tokens, stack, pointer)
    requires Decide(table, terminals, stack, tokens[pointer]).Match?
    ensures Decide(table, terminals, stack, tokens[pointer]).terminal == stack[|stack| - 1] == tokens[pointer]
    ensures tokens[pointer] != End && |stack| > 1
    ensures Wf(terminals, tokens, stack[..|stack| - 1], pointer + 1)
  {
  }

  /** Applying a rule replaces a non-terminal top and keeps the bottom "$". */
  lemma ApplyKeepsShape(table: Table, terminals: seq<Symbol>, tokens: seq<Symbol>, stack: seq<Symbol>, pointer: nat)
    requires Wf(terminals, tokens, stack, pointer)
    requires Decide(table, terminals, stack, tokens[pointer]).ApplyRule?
    ensures var a := Decide(table, terminals, stack, tokens[pointer]);
            a.head == stack[|stack| - 1] && a.head !in terminals
            && Get(table, (a.head, tokens[pointer])) == Some(a.body)
    ensures Wf(terminals, tokens, Expand(stack, Decide(table, terminals, stack, tokens[pointer]).body), pointer)
  {
    assert stack[|stack| - 1] != End;
  }

  /** Unfolding a run by one iteration: a continuing action records its step and the run
      goes on from the successor state with one unit less fuel. */
  lemma RunUnfold(table: Table, terminals: seq<Symbol>, tokens: seq<Symbol>, stack: seq<Symbol>, pointer: nat, fuel: nat)
    requires Wf(terminals, tokens, stack, pointer) && fuel > 0
    ensures var a := Decide(table, terminals, stack, tokens[pointer]);
            var step := Step(stack, tokens[pointer..], a);
            var next := Successor(stack, pointer, a);
            var r := Run(table, terminals, tokens, stack, pointer, fuel);
            && (Halts(a) ==> r.steps == [step] && r.accepted == (a == Accept))
            && (!Halts(a) ==> Wf(terminals, tokens, next.0, next.1)
                              && r.steps == [step] + Run(table, terminals, tokens, next.0, next.1, fuel - 1).steps
                              && r.accepted == Run(table, terminals, tokens, next.0, next.1, fuel - 1).accepted)
  {
    var a := Decide(table, terminals, stack, tokens[pointer]);
    if a.Match? {
      MatchKeepsShape(table, terminals, tokens, stack, pointer);
    } else if a.ApplyRule? {
      ApplyKeepsShape(table, terminals, tokens, stack, pointer);
    }
  }

  /** A run from a well-shaped state stops only at Accept, at an error, or when the fuel is
      used up: the stack never empties, so each iteration of the loop records one step. */
  lemma {:induction false} RunStops(table: Table, terminals: seq<Symbol>, tokens: seq<Symbol>, stack: seq<Symbol>, pointer: nat, fuel: nat)
    requires Wf(terminals, tokens, stack, pointer)
    ensures var r := Run(table, terminals, tokens, stack, pointer, fuel);
            |r.steps| == fuel || (r.steps != [] && Halts(r.steps[|r.steps| - 1].action))
    decreases fuel
  {
    if fuel > 0 {
      RunUnfold(table, terminals, tokens, stack, pointer, fuel);
      var a := Decide(table, terminals, stack, tokens[pointer]);
      if !Halts(a) {
        var next := Successor(stack, pointer, a);
        RunStops(table, terminals, tokens, next.0, next.1, fuel - 1);
      }
    }
  }

  /** The shape of a recorded step: "$" at the bottom of the stack, and "$" at the end of a
      non-empty remaining input. */
  predicate StepShaped(s: Step)
  {
    |s.stack| > 0 && s.stack[0] == End && s.input != [] && s.input[|s.input| - 1] == End
  }

  /** Every step of a trace is shaped, and consecutive steps are related by the transition
      of the earlier step's action. */
  ghost predicate ValidTrace(table: Table, terminals: seq<Symbol>, steps: seq<Step>)
  {
    && (forall i :: 0 <= i < |steps| ==> StepShaped(steps[i]))
    && (forall i :: 0 < i < |steps| ==> Follows(table, terminals, steps[i - 1], steps[i]))
  }

  /** A step the table dictates, put in front of a valid trace that starts in the state the
      step leaves, gives a valid trace. */
  lemma ExtendTrace(table: Table, terminals: seq<Symbol>, tokens: seq<Symbol>, stack: seq<Symbol>, pointer: nat,
                    a: Action, nextStack: seq<Symbol>, nextPointer: nat, rest: seq<Step>)
    requires Wf(terminals, tokens, stack, pointer)
    requires a == Decide(table, terminals, stack, tokens[pointer]) && !Halts(a)
    requires (nextStack, nextPointer) == Successor(stack, pointer, a) && nextPointer < |tokens|
    requires rest != [] ==> rest[0].stack == nextStack && rest[0].input == tokens[nextPointer..]
    requires ValidTrace(table, terminals, rest)
    ensures ValidTrace(table, terminals, [Step(stack, tokens[pointer..], a)] + rest)
  {
    var step := Step(stack, tokens[pointer..], a);
    assert StepShaped(step);
    if rest != [] && a.Match? {
      assert tokens[pointer..][1..] == tokens[pointer + 1..];
    }
    var t := [step] + rest;
    forall i | 0 < i < |t| ensures Follows(table, terminals, t[i - 1], t[i]) {
      if i > 1 {
        assert t[i - 1] == rest[i - 2] && t[i] == rest[i - 1];
      }
    }
  }

  /** The trace of a run from a well-shaped state starts with that state and is valid: its
      steps are exactly the transitions the table dictates. */
  lemma {:induction false} RunTrace(table: Table, terminals: seq<Symbol>, tokens: seq<Symbol>, stack: seq<Symbol>, pointer: nat, fuel: nat)
    requires Wf(terminals, tokens, stack, pointer)
    ensures Run(table, terminals, tokens, stack, pointer, fuel).steps != [] ==>
              && Run(table, terminals, tokens, stack, pointer, fuel).steps[0].stack == stack
              && Run(table, terminals, tokens, stack, pointer, fuel).steps[0].input == tokens[pointer..]
    ensures ValidTrace(table, terminals, Run(table, terminals, tokens, stack, pointer, fuel).steps)
    decreases fuel
  {
    if fuel > 0 {
      RunUnfold(table, terminals, tokens, stack, pointer, fuel);
      var a := Decide(table, terminals, stack, tokens[pointer]);
      if !Halts(a) {
        var next := Successor(stack, pointer, a);
        RunTrace(table, terminals, tokens, next.0, next.1, fuel - 1);
        ExtendTrace(table, terminals, tokens, stack, pointer, a, next.0, next.1,
                    Run(table, terminals, tokens, next.0, next.1, fuel - 1).steps);
      } else {
        assert StepShaped(Step(stack, tokens[pointer..], a));
      }
    }
  }

  /** Step `next` is what the action of step `s` leaves: Match drops the top symbol and the
      first input token (which equals it), ApplyRule expands the non-terminal on top using
      the table's entry for (top, first input token) and keeps the input. */
  ghost predicate Follows(table: Table, terminals: seq<Symbol>, s: Step, next: Step)
  {
    && |s.stack| > 0 && s.input != []
    && s.action == Decide(table, terminals, s.stack, s.input[0])
    && match s.action
       case Match(t) =>
         t == s.stack[|s.stack| - 1] == s.input[0]
         && next.stack == s.stack[..|s.stack| - 1] && next.input == s.input[1..]
       case ApplyRule(a, body) =>
         a == s.stack[|s.stack| - 1] && Get(table, (a, s.input[0])) == Some(body)
         && next.stack == Expand(s.stack, body) && next.input == s.input
       case _ => false
  }
}
