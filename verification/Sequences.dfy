/** What several parts say about sequences. */
module Sequences {

  predicate Distinct<T(==)>(s: seq<T>) {
    forall i, j | 0 <= i < j < |s| :: s[i] != s[j]
  }

  /** The sequences one after the other. */
  function Flatten<T>(ss: seq<seq<T>>): seq<T> {
    if ss == [] then [] else ss[0] + Flatten(ss[1..])
  }

  /** What went out first and what is left is what was there and what came in, for
      two steps one after the other. */
  lemma Chained<T>(out1: seq<T>, between: seq<T>, before: seq<T>, in1: seq<T>,
                   out2: seq<T>, left: seq<T>, in2: seq<T>)
    requires out1 + between == before + in1 && out2 + left == between + in2
    ensures (out1 + out2) + left == before + (in1 + in2)
  {
    calc {
      (out1 + out2) + left;
      out1 + (out2 + left);
      out1 + (between + in2);
      (out1 + between) + in2;
      (before + in1) + in2;
      before + (in1 + in2);
    }
  }
}
