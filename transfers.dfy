// Moving an amount from some entries of a vector to others, as a reaction's net rate
// moves abundance from its reactants to its products, and what that does to a
// weighted sum.

module Transfers {
  import opened Vectors

  /** Taking u at every index of from and giving it at every index of to leaves a
      weighted sum unchanged when the two lists carry the same total weight. */
  lemma DotTakeGiveBalanced(w: seq<real>, v: seq<real>, from: seq<nat>, to: seq<nat>, u: real)
    requires |w| == |v| && InRange(from, |v|) && InRange(to, |v|)
    requires Gather(w, from) == Gather(w, to)
    ensures Dot(w, Shifted(Shifted(v, from, -u), to, u)) == Dot(w, v)
  {
    DotShifted(w, v, from, -u);
    DotShifted(w, Shifted(v, from, -u), to, u);
  }
}
