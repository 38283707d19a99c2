/** Nullable values of the descriptor model (`None` stands for Java's `null`), and a sequence fact. */
module Wrappers {

  datatype Option<+T> = None | Some(value: T) {

    /** The value, or `default` when there is none. */
    function GetOr(default: T): T {
      match this
      case Some(v) => v
      case None => default
    }
  }

  /** Regrouping a concatenation; stated once so that proofs need not re-derive it elementwise. */
  lemma AppendAssoc<T>(a: seq<T>, b: seq<T>, c: seq<T>)
    ensures (a + b) + c == a + (b + c)
  {
  }

  /** A non-empty sequence is its front followed by its last element. */
  lemma DropLast<T>(c: seq<T>)
    requires c != []
    ensures c == c[..|c| - 1] + [c[|c| - 1]]
  {
  }

  /** Dropping the last element of a concatenation drops it from the second part. */
  lemma DropLastAppend<T>(x: seq<T>, y: seq<T>)
    requires y != []
    ensures (x + y)[|x + y| - 1] == y[|y| - 1]
    ensures (x + y)[..|x + y| - 1] == x + y[..|y| - 1]
  {
  }
}
