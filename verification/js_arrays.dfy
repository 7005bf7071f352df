/**
 * `Array.prototype.filter` with a pure callback, the way the components use it on their lists:
 * the elements the callback accepts, in their original order, each as often as it occurs.
 */
module JsArrays {

  /** `s.filter(keep)` */
  function Filter<T>(keep: T -> bool, s: seq<T>): (r: seq<T>)
    ensures |r| <= |s|
    ensures forall i | 0 <= i < |r| :: keep(r[i])
  {
    if s == [] then [] else (if keep(s[0]) then [s[0]] else []) + Filter(keep, s[1..])
  }

  /** A one-element list is kept or dropped as a whole. */
  lemma FilterSingle<T>(keep: T -> bool, x: T)
    ensures Filter(keep, [x]) == if keep(x) then [x] else []
  {
    assert [x][1..] == [];
  }

  /** Filtering distributes over concatenation; with `FilterSingle` this fixes the result's order. */
  lemma {:induction false} FilterAppend<T>(keep: T -> bool, a: seq<T>, b: seq<T>)
    ensures Filter(keep, a + b) == Filter(keep, a) + Filter(keep, b)
  {
    if a == [] {
      assert a + b == b;
    } else {
      var head := if keep(a[0]) then [a[0]] else [];
      assert (a + b)[0] == a[0] && (a + b)[1..] == a[1..] + b;
      FilterAppend(keep, a[1..], b);
      assert Filter(keep, a + b) == head + (Filter(keep, a[1..]) + Filter(keep, b));
    }
  }

  /** Filtering a list grown at its end: the new element is kept or dropped at the end. */
  lemma FilterSnoc<T>(keep: T -> bool, s: seq<T>, x: T)
    ensures Filter(keep, s + [x]) == Filter(keep, s) + (if keep(x) then [x] else [])
  {
    FilterAppend(keep, s, [x]);
    FilterSingle(keep, x);
  }

  /** Exactly the accepted elements are kept. */
  lemma {:induction false} FilterMembers<T>(keep: T -> bool, s: seq<T>)
    ensures forall x :: x in Filter(keep, s) <==> x in s && keep(x)
  {
    if s != [] {
      FilterMembers(keep, s[1..]);
      assert s == [s[0]] + s[1..];
    }
  }

  /** An accepted element is kept as often as it occurs; a refused one not at all. */
  lemma {:induction false} FilterCount<T>(keep: T -> bool, s: seq<T>, x: T)
    ensures multiset(Filter(keep, s))[x] == if keep(x) then multiset(s)[x] else 0
  {
    if s != [] {
      FilterCount(keep, s[1..], x);
      assert s == [s[0]] + s[1..];
    }
  }

  /** When every element is accepted, the list is kept as it is. */
  lemma {:induction false} FilterAll<T>(keep: T -> bool, s: seq<T>)
    requires forall i | 0 <= i < |s| :: keep(s[i])
    ensures Filter(keep, s) == s
  {
    if s != [] {
      FilterAll(keep, s[1..]);
    }
  }
}
