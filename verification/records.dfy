/**
 * The three array idioms every table of the portal is built from, stated once
 * over any record type:
 *  - `xs.map(x => key(x) === id ? f(x) : x)`  rewrite the records with a given id;
 *  - `xs.filter(p)`                            a view of the records that satisfy p;
 *  - `xs.find(p)`                              the first record that satisfies p.
 * Record ids are JavaScript numbers holding integers; they are `int` here.
 */
module Records {

  datatype Option<T> = None | Some(value: T)

  /** No two records of `xs` share a key. */
  ghost predicate UniqueKeys<T>(xs: seq<T>, key: T -> int) {
    forall i, j :: 0 <= i < j < |xs| ==> key(xs[i]) != key(xs[j])
  }

  /** `r` can be obtained from `xs` by deleting elements, keeping the order of the rest. */
  ghost predicate SubsequenceOf<T(!new)>(r: seq<T>, xs: seq<T>)
    decreases |xs|
  {
    if r == [] then true
    else if xs == [] then false
    else (r[0] == xs[0] && SubsequenceOf(r[1..], xs[1..])) || SubsequenceOf(r, xs[1..])
  }

  /** `xs.map(x => key(x) === id ? f(x) : x)`: same length and order, every record
      with key `id` replaced by `f` of it, every other record kept as it was. */
  function UpdateWhere<T>(xs: seq<T>, key: T -> int, id: int, f: T -> T): (r: seq<T>)
    ensures |r| == |xs|
    ensures forall i :: 0 <= i < |xs| && key(xs[i]) == id ==> r[i] == f(xs[i])
    ensures forall i :: 0 <= i < |xs| && key(xs[i]) != id ==> r[i] == xs[i]
  {
    if xs == [] then []
    else [if key(xs[0]) == id then f(xs[0]) else xs[0]] + UpdateWhere(xs[1..], key, id, f)
  }

  /** `xs.filter(p)`: exactly the elements satisfying `p`, each as often as in `xs`,
      in the order of `xs`. */
  function Filter<T(==,!new)>(xs: seq<T>, p: T -> bool): (r: seq<T>)
    ensures forall x :: x in r <==> x in xs && p(x)
    ensures SubsequenceOf(r, xs)
    ensures |r| <= |xs|
  {
    if xs == [] then []
    else
      assert xs == [xs[0]] + xs[1..];
      if p(xs[0]) then [xs[0]] + Filter(xs[1..], p) else Filter(xs[1..], p)
  }

  /** The position of the element `xs.find(p)` returns, or None when it returns `undefined`. */
  function FirstIndex<T>(xs: seq<T>, p: T -> bool): (r: Option<nat>)
    ensures r.None? <==> forall i :: 0 <= i < |xs| ==> !p(xs[i])
    ensures r.Some? ==> r.value < |xs| && p(xs[r.value])
    ensures r.Some? ==> forall j :: 0 <= j < r.value ==> !p(xs[j])
  {
    if xs == [] then None
    else if p(xs[0]) then Some(0)
    else match FirstIndex(xs[1..], p)
      case None => None
      case Some(i) => Some(i + 1)
  }

  /** A view holds each record that passes its test exactly as many times as the
      table does, and no other record. */
  lemma {:induction false} FilterCounts<T(!new)>(xs: seq<T>, p: T -> bool)
    ensures forall x :: multiset(Filter(xs, p))[x] == if p(x) then multiset(xs)[x] else 0
  {
    if xs != [] {
      assert xs == [xs[0]] + xs[1..];
      FilterCounts(xs[1..], p);
    }
  }

  /** A view of a table whose every record passes the test is the whole table. */
  lemma {:induction false} FilterAllPass<T(!new)>(xs: seq<T>, p: T -> bool)
    requires forall i :: 0 <= i < |xs| ==> p(xs[i])
    ensures Filter(xs, p) == xs
  {
    if xs != [] {
      FilterAllPass(xs[1..], p);
    }
  }

  /** Two views with mutually exclusive tests never hold more rows together than the table. */
  lemma {:induction false} DisjointViewsFit<T(!new)>(xs: seq<T>, p: T -> bool, q: T -> bool)
    requires forall x :: !(p(x) && q(x))
    ensures |Filter(xs, p)| + |Filter(xs, q)| <= |xs|
  {
    if xs != [] {
      DisjointViewsFit(xs[1..], p, q);
    }
  }

  /** Filtering distributes over concatenation: the view keeps the table's order. */
  lemma {:induction false} FilterAppend<T(!new)>(a: seq<T>, b: seq<T>, p: T -> bool)
    ensures Filter(a + b, p) == Filter(a, p) + Filter(b, p)
  {
    if a == [] {
      assert a + b == b;
    } else {
      var head := if p(a[0]) then [a[0]] else [];
      calc {
        Filter(a + b, p);
      == { assert (a + b)[0] == a[0] && (a + b)[1..] == a[1..] + b; }
        head + Filter(a[1..] + b, p);
      == { FilterAppend(a[1..], b, p); }
        head + (Filter(a[1..], p) + Filter(b, p));
      ==
        (head + Filter(a[1..], p)) + Filter(b, p);
      ==
        Filter(a, p) + Filter(b, p);
      }
    }
  }

  /** The head of a filtered view is the record `find` returns for the same test. */
  lemma {:induction false} FilterHeadIsFirstMatch<T(!new)>(xs: seq<T>, p: T -> bool)
    ensures Filter(xs, p) != [] <==> FirstIndex(xs, p).Some?
    ensures Filter(xs, p) != [] ==> Filter(xs, p)[0] == xs[FirstIndex(xs, p).value]
  {
    if xs != [] && !p(xs[0]) {
      FilterHeadIsFirstMatch(xs[1..], p);
    }
  }

  /** An id no record carries leaves the table as it was. */
  lemma UpdateMissingIsIdentity<T>(xs: seq<T>, key: T -> int, id: int, f: T -> T)
    requires forall i :: 0 <= i < |xs| ==> key(xs[i]) != id
    ensures UpdateWhere(xs, key, id, f) == xs
  {
  }

  /** A rewrite that keeps keys keeps every record's key in place. */
  lemma UpdateKeepsKeys<T>(xs: seq<T>, key: T -> int, id: int, f: T -> T)
    requires forall x :: key(f(x)) == key(x)
    ensures forall i :: 0 <= i < |xs| ==> key(UpdateWhere(xs, key, id, f)[i]) == key(xs[i])
  {
  }

  /** Two rewrites of the same id, where the second overwrites whatever the first
      set, amount to the second alone: the last write wins. */
  lemma LastWriteWins<T>(xs: seq<T>, key: T -> int, id: int, f: T -> T, g: T -> T)
    requires forall x :: key(f(x)) == key(x) && g(f(x)) == g(x)
    ensures UpdateWhere(UpdateWhere(xs, key, id, f), key, id, g) == UpdateWhere(xs, key, id, g)
  {
    var once := UpdateWhere(xs, key, id, f);
    var twice := UpdateWhere(once, key, id, g);
    var direct := UpdateWhere(xs, key, id, g);
    forall i | 0 <= i < |xs| ensures twice[i] == direct[i] {
      assert key(once[i]) == key(xs[i]);
    }
  }

  /** When the rewrite takes a record out of view `p`, no record with that id is left in the view. */
  lemma UpdateLeavesView<T(!new)>(xs: seq<T>, key: T -> int, id: int, f: T -> T, p: T -> bool)
    requires forall x :: !p(f(x))
    ensures forall x :: x in Filter(UpdateWhere(xs, key, id, f), p) ==> key(x) != id
  {
    var u := UpdateWhere(xs, key, id, f);
    forall x | x in Filter(u, p) ensures key(x) != id {
      var i :| 0 <= i < |u| && u[i] == x;
      assert key(xs[i]) != id;
    }
  }

  /** When the rewrite puts a record into view `p`, the rewritten record is in the view. */
  lemma UpdateEntersView<T(!new)>(xs: seq<T>, key: T -> int, id: int, f: T -> T, p: T -> bool, i: nat)
    requires i < |xs| && key(xs[i]) == id
    requires forall x :: p(f(x))
    ensures f(xs[i]) in Filter(UpdateWhere(xs, key, id, f), p)
  {
    assert UpdateWhere(xs, key, id, f)[i] == f(xs[i]);
  }

  /** A key-preserving rewrite of one id does not move any record with another id
      into or out of any view. */
  lemma UpdateKeepsOtherRows<T(!new)>(xs: seq<T>, key: T -> int, id: int, f: T -> T, p: T -> bool)
    requires forall x :: key(f(x)) == key(x)
    ensures forall y :: key(y) != id ==> (y in Filter(UpdateWhere(xs, key, id, f), p) <==> y in Filter(xs, p))
  {
    var u := UpdateWhere(xs, key, id, f);
    forall y | key(y) != id ensures y in u <==> y in xs {
      if y in u {
        var i :| 0 <= i < |u| && u[i] == y;
        assert key(xs[i]) != id;
      }
      if y in xs {
        var i :| 0 <= i < |xs| && xs[i] == y;
        assert u[i] == y;
      }
    }
  }

  /** Acting on the one record with id `id`, which is in view `p`, with a rewrite that
      takes records out of the view, shrinks the view by exactly one. */
  lemma {:induction false} UpdateShrinksViewByOne<T(!new)>(xs: seq<T>, key: T -> int, id: int, f: T -> T, p: T -> bool, k: nat)
    requires UniqueKeys(xs, key)
    requires k < |xs| && key(xs[k]) == id && p(xs[k])
    requires forall x :: !p(f(x))
    ensures |Filter(UpdateWhere(xs, key, id, f), p)| == |Filter(xs, p)| - 1
  {
    var u := UpdateWhere(xs, key, id, f);
    assert xs == [xs[0]] + xs[1..];
    assert u == [u[0]] + u[1..];
    assert u[1..] == UpdateWhere(xs[1..], key, id, f);
    if k == 0 {
      assert forall i :: 0 <= i < |xs[1..]| ==> key(xs[1..][i]) != id by {
        forall i | 0 <= i < |xs[1..]| ensures key(xs[1..][i]) != id {
          assert xs[1..][i] == xs[i + 1];
        }
      }
      UpdateMissingIsIdentity(xs[1..], key, id, f);
    } else {
      assert UniqueKeys(xs[1..], key) by {
        forall i, j | 0 <= i < j < |xs[1..]| ensures key(xs[1..][i]) != key(xs[1..][j]) {
          assert xs[1..][i] == xs[i + 1] && xs[1..][j] == xs[j + 1];
        }
      }
      assert key(xs[0]) != id;
      UpdateShrinksViewByOne(xs[1..], key, id, f, p, k - 1);
    }
  }

  /** An action dispatched from row `k` of view `p` (the only place the screens
      render action buttons) can only rewrite records that are in the view,
      provided ids are unique. */
  lemma RowActionTouchesOnlyViewRows<T(!new)>(xs: seq<T>, key: T -> int, f: T -> T, p: T -> bool, k: nat)
    requires UniqueKeys(xs, key)
    requires k < |Filter(xs, p)|
    ensures forall i :: 0 <= i < |xs| && UpdateWhere(xs, key, key(Filter(xs, p)[k]), f)[i] != xs[i] ==> p(xs[i])
  {
    var row := Filter(xs, p)[k];
    assert row in Filter(xs, p);
    var j :| 0 <= j < |xs| && xs[j] == row;
    var u := UpdateWhere(xs, key, key(row), f);
    forall i | 0 <= i < |xs| && u[i] != xs[i] ensures p(xs[i]) {
      assert key(xs[i]) == key(xs[j]);
      assert i == j;
    }
  }
}
