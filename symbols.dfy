/**
 Symbols, productions and the small sequence helpers shared by every part of the
 LL(1) parser model. Symbols are strings, as in the Python class: the empty-sequence
 marker is the one-character string "ε" and the end-of-input marker is "$".
 */
module Symbols {

  type Symbol = string

  /** One right-hand side: an ordered sequence of symbols. */
  type Production = seq<Symbol>

  /** A table key: (non-terminal, terminal). */
  type Cell = (Symbol, Symbol)

  const Eps: Symbol := "ε"
  const End: Symbol := "$"

  datatype Option<+T> = None | Some(value: T)

  /** The set of the elements of a sequence. */
  function Elems(s: seq<Symbol>): set<Symbol>
  {
    set x | x in s
  }

  predicate Distinct(s: seq<Symbol>)
  {
    forall i, j :: 0 <= i < j < |s| ==> s[i] != s[j]
  }

  /** Python's order on strings: character by character on code points, a proper prefix
      before the longer string. */
  predicate LexLe(a: Symbol, b: Symbol)
    decreases |a|
  {
    a == [] || (b != [] && (a[0] < b[0] || (a[0] == b[0] && LexLe(a[1..], b[1..]))))
  }

  predicate Sorted(s: seq<Symbol>)
  {
    forall i, j :: 0 <= i < j < |s| ==> LexLe(s[i], s[j])
  }

  lemma {:induction false} LexRefl(a: Symbol)
    ensures LexLe(a, a)
    decreases |a|
  {
    if a != [] {
      LexRefl(a[1..]);
    }
  }

  lemma {:induction false} LexTotal(a: Symbol, b: Symbol)
    ensures LexLe(a, b) || LexLe(b, a)
    decreases |a|
  {
    if a != [] && b != [] && a[0] == b[0] {
      LexTotal(a[1..], b[1..]);
    }
  }

  lemma {:induction false} LexAntisym(a: Symbol, b: Symbol)
    requires LexLe(a, b) && LexLe(b, a)
    ensures a == b
    decreases |a|
  {
    if a != [] && b != [] {
      LexAntisym(a[1..], b[1..]);
      assert a == [a[0]] + a[1..] && b == [b[0]] + b[1..];
    }
  }

  lemma {:induction false} LexTrans(a: Symbol, b: Symbol, c: Symbol)
    requires LexLe(a, b) && LexLe(b, c)
    ensures LexLe(a, c)
    decreases |a|
  {
    if a != [] && a[0] == b[0] && b[0] == c[0] {
      LexTrans(a[1..], b[1..], c[1..]);
    }
  }

  /** Every non-empty set of symbols has a least element. */
  lemma {:induction false} LeastExists(s: set<Symbol>)
    requires s != {}
    ensures exists x :: x in s && forall y :: y in s ==> LexLe(x, y)
    decreases |s|
  {
    var x :| x in s;
    LexRefl(x);
    if s == {x} {
      assert forall y :: y in s ==> LexLe(x, y);
    } else {
      LeastExists(s - {x});
      var m :| m in s - {x} && forall y :: y in s - {x} ==> LexLe(m, y);
      LexTotal(x, m);
      if LexLe(x, m) {
        forall y | y in s ensures LexLe(x, y) {
          if y != x {
            LexTrans(x, m, y);
          }
        }
      } else {
        assert m in s && forall y :: y in s ==> LexLe(m, y);
      }
    }
  }

  /** Appending the least remaining element x to a sorted prefix, all of whose elements come
      before every remaining one, keeps both facts for the elements that remain after x. */
  lemma SelectStep(r: seq<Symbol>, rest: set<Symbol>, x: Symbol)
    requires Distinct(r) && Sorted(r) && Elems(r) !! rest
    requires forall i, y :: 0 <= i < |r| && y in rest ==> LexLe(r[i], y)
    requires x in rest && forall y :: y in rest ==> LexLe(x, y)
    ensures Distinct(r + [x]) && Sorted(r + [x])
    ensures Elems(r + [x]) + (rest - {x}) == Elems(r) + rest && Elems(r + [x]) !! rest - {x}
    ensures forall i, y :: 0 <= i < |r + [x]| && y in rest - {x} ==> LexLe((r + [x])[i], y)
  {
    DistinctSnoc(r, x);
    var t := r + [x];
    forall i, j | 0 <= i < j < |t| ensures LexLe(t[i], t[j]) {
      assert t[i] == r[i];
      if j < |r| {
        assert t[j] == r[j];
      }
    }
  }

  /** A set has exactly one sorted listing without repeats. */
  lemma {:induction false} SortedUnique(a: seq<Symbol>, b: seq<Symbol>)
    requires Distinct(a) && Sorted(a) && Distinct(b) && Sorted(b) && Elems(a) == Elems(b)
    ensures a == b
    decreases |a|
  {
    if a == [] {
      ElemsEmpty(b);
    } else {
      ElemsEmpty(b);
      assert a[0] in Elems(b) && b[0] in Elems(a);
      var i :| 0 <= i < |b| && b[i] == a[0];
      var j :| 0 <= j < |a| && a[j] == b[0];
      assert LexLe(b[0], a[0]) by {
        if i > 0 {
          assert LexLe(b[0], b[i]);
        } else {
          LexRefl(b[0]);
        }
      }
      assert LexLe(a[0], b[0]) by {
        if j > 0 {
          assert LexLe(a[0], a[j]);
        } else {
          LexRefl(a[0]);
        }
      }
      LexAntisym(a[0], b[0]);
      DropFirst(a);
      DropFirst(b);
      SortedUnique(a[1..], b[1..]);
      assert a == [a[0]] + a[1..] && b == [b[0]] + b[1..];
    }
  }

  /** Dropping the first element of a sequence without repeats removes exactly that element. */
  lemma DropFirst(s: seq<Symbol>)
    requires Distinct(s) && s != []
    ensures Distinct(s[1..]) && Sorted(s) ==> Sorted(s[1..])
    ensures Elems(s[1..]) == Elems(s) - {s[0]}
  {
    assert forall x :: x in s[1..] ==> x in s;
    assert forall i :: 0 < i < |s| ==> s[i] == s[1..][i - 1];
  }

  /** A prefix one longer is the prefix with the next element appended. */
  lemma PrefixSnoc<T>(s: seq<T>, i: nat)
    requires i < |s|
    ensures s[..i + 1] == s[..i] + [s[i]]
  {
  }

  /** Recording one more element in front of what is still to come. */
  lemma AppendShift<T>(done: seq<T>, x: T, rest: seq<T>)
    ensures done + ([x] + rest) == (done + [x]) + rest
  {
  }

  lemma ElemsSnoc(s: seq<Symbol>, k: nat)
    requires k < |s|
    ensures Elems(s[..k + 1]) == Elems(s[..k]) + {s[k]}
  {
    assert s[..k + 1] == s[..k] + [s[k]];
  }

  lemma ElemsEmpty(s: seq<Symbol>)
    ensures Elems(s) == {} <==> s == []
  {
    if s != [] {
      assert s[0] in Elems(s);
    }
  }

  /** Appending a new element keeps a sequence free of repeats and adds it to the elements. */
  lemma DistinctSnoc(s: seq<Symbol>, x: Symbol)
    requires Distinct(s) && x !in s
    ensures Distinct(s + [x]) && Elems(s + [x]) == Elems(s) + {x}
  {
    var t := s + [x];
    forall i, j | 0 <= i < j < |t| ensures t[i] != t[j] {
      if j == |s| {
        assert t[i] == s[i];
      } else {
        assert t[i] == s[i] && t[j] == s[j];
      }
    }
  }

  /** `d.get(k, set())` for a dictionary of sets. */
  function Lookup(m: map<Symbol, set<Symbol>>, k: Symbol): set<Symbol>
  {
    if k in m then m[k] else {}
  }

  /** Python's `reversed`: the last element comes first. */
  function Reverse(s: seq<Symbol>): (r: seq<Symbol>)
    ensures |r| == |s|
    ensures forall i :: 0 <= i < |s| ==> r[i] == s[|s| - 1 - i]
  {
    if s == [] then [] else Reverse(s[1..]) + [s[0]]
  }

  lemma MarkersDiffer()
    ensures Eps != End
  {
    assert Eps[0] != End[0];
  }

  /** A dictionary from symbols to sets of symbols (FIRST sets, FOLLOW sets). */
  type SetMap = map<Symbol, set<Symbol>>

  /** Pointwise inclusion: every key of `f` is a key of `g` with at least the same elements. */
  ghost predicate Below(f: SetMap, g: SetMap)
  {
    forall a :: a in f ==> a in g && f[a] <= g[a]
  }

  /** Every set of the map lies inside `u`. */
  ghost predicate Within(f: SetMap, u: set<Symbol>)
  {
    forall a :: a in f ==> f[a] <= u
  }

  /** The (key, element) pairs that a fixed-point loop could still add when every set of a key
      in `keys` stays inside `u`. A strictly growing set removes at least one pair. */
  ghost function Missing(keys: seq<Symbol>, u: set<Symbol>, m: SetMap): set<Cell>
  {
    set a, x | a in keys && x in u && x !in Lookup(m, a) :: (a, x)
  }

  /** Growing the set of one key by a subset of `u` that it did not yet contain shrinks the
      missing pairs strictly: this is the termination measure of both fixed-point loops. */
  lemma GrowShrinksMissing(keys: seq<Symbol>, u: set<Symbol>, m: SetMap, a: Symbol, extra: set<Symbol>)
    requires a in keys && extra <= u && !(extra <= Lookup(m, a))
    ensures Missing(keys, u, m[a := Lookup(m, a) + extra]) < Missing(keys, u, m)
  {
    var m' := m[a := Lookup(m, a) + extra];
    var x :| x in extra && x !in Lookup(m, a);
    assert (a, x) in Missing(keys, u, m);
    assert (a, x) !in Missing(keys, u, m');
    forall c | c in Missing(keys, u, m') ensures c in Missing(keys, u, m) {
      assert Lookup(m, c.0) <= Lookup(m', c.0);
    }
  }
}
