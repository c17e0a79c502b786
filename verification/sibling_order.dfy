/**
 * The comparator handed to the hierarchy's sort (script.js, line 59):
 * `(a, b) => b.height - a.height || b.value - a.value`.
 * Heights and aggregated values are computed by the layout library; here they are inputs.
 */
module SiblingOrder {

  /** The two keys the comparator reads from a node. */
  datatype Rank = Rank(height: nat, value: int)

  /** Lexicographic "sorts first": greater height, then greater value at equal height. */
  predicate Before(a: Rank, b: Rank) {
    a.height > b.height || (a.height == b.height && a.value > b.value)
  }

  /**
   * The comparator: the height difference when it is non-zero (a number JavaScript
   * treats as true), otherwise the value difference. Negative means `a` sorts first.
   */
  function Compare(a: Rank, b: Rank): (r: int)
    ensures r < 0 <==> Before(a, b)
    ensures r > 0 <==> Before(b, a)
    ensures r == 0 <==> a == b
  {
    var byHeight := b.height - a.height;
    if byHeight != 0 then byHeight else b.value - a.value
  }

  /** Swapping the operands negates the comparison. */
  lemma CompareAntisymmetric(a: Rank, b: Rank)
    ensures Compare(a, b) == -Compare(b, a)
  {
  }

  /** "Sorts no later than" is transitive, so the comparator is a total preorder. */
  lemma CompareTransitive(a: Rank, b: Rank, c: Rank)
    requires Compare(a, b) <= 0 && Compare(b, c) <= 0
    ensures Compare(a, c) <= 0
  {
  }

  /** Siblings in the order the comparator asks for: no neighbour sorts before its predecessor. */
  predicate Sorted(s: seq<Rank>) {
    forall i :: 0 < i < |s| ==> Compare(s[i - 1], s[i]) <= 0
  }

  /**
   * Once siblings are sorted by the comparator, every earlier sibling is at least as
   * high as every later one, and at equal height carries at least the same value.
   */
  lemma {:induction false} SortedPairwise(s: seq<Rank>, i: nat, j: nat)
    requires Sorted(s)
    requires i <= j < |s|
    ensures Compare(s[i], s[j]) <= 0
    ensures s[i].height >= s[j].height
    ensures s[i].height == s[j].height ==> s[i].value >= s[j].value
    decreases j - i
  {
    if i < j {
      SortedPairwise(s, i + 1, j);
      CompareTransitive(s[i], s[i + 1], s[j]);
    }
  }
}
