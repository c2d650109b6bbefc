/**
 * The effect of the DOM's `classList` operations, seen as operations on a
 * finite set of class names. Every other piece of page state in the model is
 * built from these sets.
 */
module ClassList {

  type Classes = set<string>

  /** `classList.add(c)`: `c` is present afterwards and nothing else changes. */
  function Add(s: Classes, c: string): (r: Classes)
    ensures c in r
    ensures r - {c} == s - {c}
  {
    s + {c}
  }

  /** `classList.remove(c)`: `c` is absent afterwards and nothing else changes. */
  function Remove(s: Classes, c: string): (r: Classes)
    ensures c !in r
    ensures r - {c} == s - {c}
  {
    s - {c}
  }

  /** `classList.toggle(c)`: the membership of `c` flips and nothing else changes. */
  function Toggle(s: Classes, c: string): (r: Classes)
    ensures c in r <==> c !in s
    ensures r - {c} == s - {c}
  {
    if c in s then s - {c} else s + {c}
  }

  /**
   * `classList.toggle(c, force)`: `c` is present afterwards exactly when
   * `force` holds, whatever it was before, and nothing else changes.
   */
  function Force(s: Classes, c: string, force: bool): (r: Classes)
    ensures c in r <==> force
    ensures r - {c} == s - {c}
  {
    if force then s + {c} else s - {c}
  }

  /** Toggling the same class twice gives back the original set. */
  lemma ToggleTwice(s: Classes, c: string)
    ensures Toggle(Toggle(s, c), c) == s
  {
  }

  /** A forced toggle forgets every earlier forced toggle of the same class. */
  lemma ForceLastWins(s: Classes, c: string, a: bool, b: bool)
    ensures Force(Force(s, c, a), c, b) == Force(s, c, b)
  {
  }
}
