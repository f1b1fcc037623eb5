/** The trace list that the engines append to, as a mutable object. */
module Logs {
  class Log<E> {
    var entries: seq<E>

    constructor ()
      ensures entries == []
    {
      entries := [];
    }

    /** `log.append(entry)`. */
    method Append(entry: E)
      modifies this
      ensures entries == old(entries) + [entry]
    {
      entries := entries + [entry];
    }
  }

  /** Regrouping a concatenation; used to follow a log that grows by a stage's entries. */
  lemma Regroup<E>(a: seq<E>, b: seq<E>, c: seq<E>)
    ensures (a + b) + c == a + (b + c)
  {
  }

  /** Two appends after `a + b` add a two-entry group to `b`. */
  lemma RegroupTwo<E>(a: seq<E>, b: seq<E>, x: E, y: E)
    ensures ((a + b) + [x]) + [y] == a + (b + [x, y])
  {
  }

  /** Three appends after `a + b` add a three-entry group to `b`. */
  lemma RegroupThree<E>(a: seq<E>, b: seq<E>, x: E, y: E, z: E)
    ensures (((a + b) + [x]) + [y]) + [z] == a + (b + [x, y, z])
  {
  }
}
