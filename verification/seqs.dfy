/** Generic sequence helpers: the list comprehensions with an `if` filter and
    the `extend` loops of the Python code. */
module Seqs {
  import opened Results

  /** `[f(x) for x in xs]`: the field projections of the Python code. */
  function Map<T, U>(f: T -> U, xs: seq<T>): (ys: seq<U>)
    ensures |ys| == |xs|
    ensures forall k :: 0 <= k < |xs| ==> ys[k] == f(xs[k])
  {
    seq(|xs|, k requires 0 <= k < |xs| => f(xs[k]))
  }

  /** `[x for x in xs if p(x)]`. */
  function Filter<T>(p: T -> bool, xs: seq<T>): (r: seq<T>)
    ensures |r| <= |xs|
    ensures forall k :: 0 <= k < |r| ==> p(r[k])
    ensures forall x :: x in r ==> x in xs
  {
    if xs == [] then []
    else (if p(xs[0]) then [xs[0]] else []) + Filter(p, xs[1..])
  }

  lemma FilterAppend<T>(p: T -> bool, xs: seq<T>, ys: seq<T>)
    ensures Filter(p, xs + ys) == Filter(p, xs) + Filter(p, ys)
  {
    if xs == [] {
      assert xs + ys == ys;
    } else {
      assert (xs + ys)[0] == xs[0];
      assert (xs + ys)[1..] == xs[1..] + ys;
      FilterAppend(p, xs[1..], ys);
    }
  }

  lemma FilterNone<T>(p: T -> bool, xs: seq<T>)
    ensures Filter(p, xs) == [] <==> forall k :: 0 <= k < |xs| ==> !p(xs[k])
  {
    if xs != [] {
      FilterNone(p, xs[1..]);
      assert forall k :: 1 <= k < |xs| ==> xs[k] == xs[1..][k - 1];
    }
  }

  /** `f` over `xs`, keeping the values it produces, in order. */
  function FilterMap<T, U>(f: T -> Option<U>, xs: seq<T>): (r: seq<U>)
    ensures |r| <= |xs|
    ensures forall k :: 0 <= k < |xs| && f(xs[k]).Some? ==> f(xs[k]).value in r
    ensures forall y :: y in r ==> exists k :: 0 <= k < |xs| && f(xs[k]) == Some(y)
    ensures r == [] <==> forall k :: 0 <= k < |xs| ==> f(xs[k]).None?
  {
    if xs == [] then []
    else
      var rest := FilterMap(f, xs[1..]);
      assert forall k :: 1 <= k < |xs| ==> xs[k] == xs[1..][k - 1];
      match f(xs[0]) {
        case None => rest
        case Some(y) => [y] + rest
      }
  }

  /** The concatenation of a list of lists, in order. */
  function Concat<T>(xss: seq<seq<T>>): seq<T> {
    if xss == [] then [] else xss[0] + Concat(xss[1..])
  }

  lemma ConcatAppend<T>(xss: seq<seq<T>>, yss: seq<seq<T>>)
    ensures Concat(xss + yss) == Concat(xss) + Concat(yss)
  {
    if xss == [] {
      assert xss + yss == yss;
    } else {
      assert (xss + yss)[0] == xss[0];
      assert (xss + yss)[1..] == xss[1..] + yss;
      ConcatAppend(xss[1..], yss);
    }
  }

  /** Concatenation regroups freely; stated once so that callers whose
      elements are themselves sequences need not prove it element by element. */
  lemma AppendAssoc<T>(a: seq<T>, b: seq<T>, c: seq<T>)
    ensures (a + b) + c == a + (b + c)
  {
  }

  /** A loop that appends `make(x, n)` for every `x` that passes `keep`,
      with `n` the number of items in the accumulator before it. */
  function KeepLoop<T, U>(keep: T -> bool, make: (T, int) -> U, xs: seq<T>, acc: seq<U>): seq<U> {
    if xs == [] then acc
    else if keep(xs[0]) then KeepLoop(keep, make, xs[1..], acc + [make(xs[0], |acc|)])
    else KeepLoop(keep, make, xs[1..], acc)
  }

  /** Such a loop appends exactly the filtered items, in order, each made
      with its position in the result. */
  lemma {:induction false} KeepLoopIsFilter<T, U>(keep: T -> bool, make: (T, int) -> U, xs: seq<T>, acc: seq<U>)
    ensures var r := KeepLoop(keep, make, xs, acc);
            var kept := Filter(keep, xs);
            && |r| == |acc| + |kept|
            && r[..|acc|] == acc
            && forall k :: 0 <= k < |kept| ==> r[|acc| + k] == make(kept[k], |acc| + k)
  {
    if xs != [] {
      var x := xs[0];
      var rest := Filter(keep, xs[1..]);
      if keep(x) {
        var acc' := acc + [make(x, |acc|)];
        KeepLoopIsFilter(keep, make, xs[1..], acc');
        var r := KeepLoop(keep, make, xs[1..], acc');
        var kept := Filter(keep, xs);
        assert kept == [x] + rest;
        forall i | 0 <= i < |acc|
          ensures r[i] == acc[i]
        {
          assert r[i] == r[..|acc'|][i] == acc'[i];
        }
        forall k | 0 <= k < |kept|
          ensures r[|acc| + k] == make(kept[k], |acc| + k)
        {
          if k == 0 {
            assert r[|acc|] == r[..|acc'|][|acc|] == acc'[|acc|];
          } else {
            assert kept[k] == rest[k - 1];
            assert r[|acc'| + (k - 1)] == make(rest[k - 1], |acc'| + (k - 1));
          }
        }
      } else {
        KeepLoopIsFilter(keep, make, xs[1..], acc);
        assert Filter(keep, xs) == rest;
      }
    }
  }
}
