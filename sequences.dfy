/** Order-preserving selection from a sequence, and joining pieces back together. */
module Sequences {

  /** `xs` can be obtained from `ys` by deleting elements, keeping the order of the rest. */
  predicate IsSubsequence<T(==)>(xs: seq<T>, ys: seq<T>) {
    if xs == [] then true
    else if ys == [] then false
    else if xs[0] == ys[0] && IsSubsequence(xs[1..], ys[1..]) then true
    else IsSubsequence(xs, ys[1..])
  }

  /** The elements of the inner sequences, one after another. */
  function Flatten<T>(xss: seq<seq<T>>): seq<T> {
    if xss == [] then [] else xss[0] + Flatten(xss[1..])
  }

  /** `pieces[0] + seps[0] + pieces[1] + … + pieces[n]`: the pieces joined with a separator between each pair. */
  function Interleave<T>(pieces: seq<seq<T>>, seps: seq<seq<T>>): seq<T>
    requires |pieces| == |seps| + 1
  {
    if seps == [] then pieces[0] else pieces[0] + seps[0] + Interleave(pieces[1..], seps[1..])
  }

  /** Putting `x` in front of the first piece puts it in front of the whole. */
  lemma InterleaveConsFirst<T>(x: T, pieces: seq<seq<T>>, seps: seq<seq<T>>)
    requires |pieces| == |seps| + 1
    ensures Interleave([[x] + pieces[0]] + pieces[1..], seps) == [x] + Interleave(pieces, seps)
  {
    var pieces' := [[x] + pieces[0]] + pieces[1..];
    assert pieces'[1..] == pieces[1..];
  }

  /** An empty first piece followed by `sep` puts `sep` in front of the whole. */
  lemma InterleaveEmptyFirst<T>(sep: seq<T>, pieces: seq<seq<T>>, seps: seq<seq<T>>)
    requires |pieces| == |seps| + 1
    ensures Interleave([[]] + pieces, [sep] + seps) == sep + Interleave(pieces, seps)
  {
    assert ([[]] + pieces)[1..] == pieces;
    assert ([sep] + seps)[1..] == seps;
  }
}
