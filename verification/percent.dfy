/** Position percentages and the inverted-orientation transform. */
module Percent {

  const Min: int := 0
  const Max: int := 100

  /** A valid position: 0 .. 100 inclusive. */
  predicate InRange(p: int) {
    Min <= p <= Max
  }

  /** `reversePercentage(p)`, the mirror image of `p` on the 0 .. 100 scale.
      JavaScript numbers are not bounded here: the transform is applied to
      whatever the hub or the host sends. */
  function Reverse(p: int): (r: int)
    ensures InRange(p) <==> InRange(r)
  {
    (Min + Max) - p
  }

  /** The value as seen on the other side of the adapter: reversed when the
      platform is configured `inverted`, unchanged otherwise. The same
      transform is used from hub to host and from host to hub. */
  function Orient(inverted: bool, p: int): (r: int)
    ensures InRange(p) <==> InRange(r)
  {
    if inverted then Reverse(p) else p
  }

  lemma ReverseInvolution(p: int)
    ensures Reverse(Reverse(p)) == p
  {
  }

  lemma ReverseEndpoints()
    ensures Reverse(0) == 100 && Reverse(100) == 0 && Reverse(50) == 50
  {
  }

  /** Reversal maps 0 .. 100 onto 0 .. 100 and turns the order around. */
  lemma ReverseOnto(q: int)
    requires InRange(q)
    ensures InRange(Reverse(q)) && Reverse(Reverse(q)) == q
    ensures forall p :: p < q ==> Reverse(p) > Reverse(q)
  {
  }

  lemma OrientInvolution(inverted: bool, p: int)
    ensures Orient(inverted, Orient(inverted, p)) == p
  {
  }
}
