/**
 * The expand/collapse sets of the sidebars: a click copies the set, deletes the name if it
 * is present and adds it otherwise, and the copy replaces the state.
 */
module ExpandSets {

  /** `has(x) ? delete(x) : add(x)` on a copy of `s`. */
  function Flip(s: set<string>, x: string): (r: set<string>)
    ensures x in r <==> x !in s
    ensures forall y | y != x :: y in r <==> y in s
  {
    if x in s then s - {x} else s + {x}
  }

  /** Flipping the same name twice restores the set. */
  lemma FlipTwice(s: set<string>, x: string)
    ensures Flip(Flip(s, x), x) == s
  {
    if x in s {
      assert Flip(s, x) + {x} == s;
    } else {
      assert Flip(s, x) - {x} == s;
    }
  }

  /** Flips of different names commute. */
  lemma FlipCommutes(s: set<string>, x: string, y: string)
    ensures Flip(Flip(s, x), y) == Flip(Flip(s, y), x)
  {
  }
}
