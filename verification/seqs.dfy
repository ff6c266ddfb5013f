/** Flattening a sequence of sequences, and where each part lands in the result. */
module Seqs {

  /** The parts of `xss` joined in order. */
  function Concat<T>(xss: seq<seq<T>>): seq<T>
  {
    if xss == [] then [] else Concat(xss[..|xss| - 1]) + xss[|xss| - 1]
  }

  /** Sum of the lengths of the parts. */
  function TotalLength<T>(xss: seq<seq<T>>): nat
  {
    if xss == [] then 0 else TotalLength(xss[..|xss| - 1]) + |xss[|xss| - 1]|
  }

  /** Position in `Concat(xss)` where part `j` starts. */
  function Offset<T>(xss: seq<seq<T>>, j: nat): nat
    requires j <= |xss|
  {
    TotalLength(xss[..j])
  }

  lemma {:induction false} ConcatLength<T>(xss: seq<seq<T>>)
    ensures |Concat(xss)| == TotalLength(xss)
  {
    if xss != [] {
      ConcatLength(xss[..|xss| - 1]);
    }
  }

  /** Concatenation distributes over appending lists of parts. */
  lemma {:induction false} ConcatAppend<T>(a: seq<seq<T>>, b: seq<seq<T>>)
    ensures Concat(a + b) == Concat(a) + Concat(b)
    decreases |b|
  {
    if b == [] {
      assert a + b == a;
    } else {
      var b' := b[..|b| - 1];
      assert (a + b)[..|a + b| - 1] == a + b';
      ConcatAppend(a, b');
    }
  }

  /** Part `j` occupies exactly the slice starting at its offset. */
  lemma ConcatPart<T>(xss: seq<seq<T>>, j: nat)
    requires j < |xss|
    ensures Offset(xss, j) + |xss[j]| <= |Concat(xss)|
    ensures Concat(xss)[Offset(xss, j) .. Offset(xss, j) + |xss[j]|] == xss[j]
  {
    assert xss == xss[..j] + [xss[j]] + xss[j + 1..];
    ConcatAppend(xss[..j] + [xss[j]], xss[j + 1..]);
    ConcatAppend(xss[..j], [xss[j]]);
    assert Concat([xss[j]]) == xss[j] by {
      assert [xss[j]][..0] == [];
    }
    ConcatLength(xss[..j]);
  }
}
