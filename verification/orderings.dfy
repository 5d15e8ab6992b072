/** Rust's `std::cmp::Ordering` and the two operations on it that the
    comparator relies on. */
module Orderings {

  datatype Ordering = Less | Equal | Greater

  /** `Ordering::reverse`: the result of comparing the same values with
      the arguments swapped. */
  function Reverse(o: Ordering): Ordering {
    match o
    case Less => Greater
    case Equal => Equal
    case Greater => Less
  }

  /** `Ordering::then`: the first ordering unless it is Equal, in which
      case the tie-breaker. */
  function Then(o: Ordering, tie: Ordering): Ordering {
    if o != Equal then o else tie
  }

  /** The orderings of x against y, y against z and x against z fit
      together as in a total preorder: an Equal step passes the other step
      through, and two steps in the same direction compose. */
  predicate Chains(xy: Ordering, yz: Ordering, xz: Ordering) {
    && (xy == Equal ==> xz == yz)
    && (yz == Equal ==> xz == xy)
    && (xy == yz ==> xz == xy)
  }

  /** `Ord::cmp` on integers: on `usize` lengths in the code, and on the
      numbers digit runs denote in the model's reference definitions. */
  function CmpInt(x: int, y: int): Ordering {
    if x < y then Less else if x == y then Equal else Greater
  }

  lemma CmpIntChains(x: int, y: int, z: int)
    ensures Chains(CmpInt(x, y), CmpInt(y, z), CmpInt(x, z))
  {
  }

  /** Breaking the ties of a chaining comparison with another chaining
      comparison chains. */
  lemma ThenChains(p1: Ordering, p2: Ordering, p3: Ordering, t1: Ordering, t2: Ordering, t3: Ordering)
    requires Chains(p1, p2, p3) && Chains(t1, t2, t3)
    ensures Chains(Then(p1, t1), Then(p2, t2), Then(p3, t3))
  {
  }
}
