/** Facts about sequences that both engines' loops use to take one more step. */
module Sequences {
  /** The first `j + 1` elements of a sequence are its first `j` and then element `j`. */
  lemma TakeOneMore<T>(s: seq<T>, j: nat)
    requires j < |s|
    ensures s[..j + 1] == s[..j] + [s[j]]
  {
  }

  /** A non-empty sequence is all but its last element, then that element. */
  lemma DropLast<T>(s: seq<T>)
    requires s != []
    ensures s[..|s| - 1] + [s[|s| - 1]] == s
  {
  }

  /** Appending to a log in two steps is appending the two parts at once. */
  lemma Assoc<T>(x: seq<T>, y: seq<T>, z: seq<T>)
    ensures (x + y) + z == x + (y + z)
  {
  }
}
