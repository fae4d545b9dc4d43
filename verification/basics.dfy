/** What several of the models need. */
module Basics {

  // Unsigned 32-bit arithmetic is modulo this.
  const WORD: nat := 0x1_0000_0000

  lemma SubsetSize(a: set<nat>, b: set<nat>)
    requires a <= b
    ensures |a| <= |b|
  {
    assert b == a + (b - a);
  }
}
