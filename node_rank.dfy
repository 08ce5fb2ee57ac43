/**
  Nodes, their rank values, and the comparator that decides whether two
  nodes belong to the same rank tier (RankTieredOrchestator.NodeAttributeComparator).
 */
module NodeRank {
  import opened Wrappers

  /** A dispatch target: its attribute map, or None when the node has none. */
  datatype Node = Node(attributes: Option<map<string, string>>)

  /** The node's value for the rank attribute; None when the map or the key is missing. */
  function RankValue(node: Node, attribute: string): (v: Option<string>)
    ensures v.Some? <==> node.attributes.Some? && attribute in node.attributes.value
  {
    match node.attributes
    case None => None
    case Some(m) => if attribute in m then Some(m[attribute]) else None
  }

  /**
    Java's String.compareTo: the difference of the first pair of characters
    that differ, or else, when one string is a prefix of the other, the
    difference of the lengths.
   */
  function CompareTo(a: string, b: string): (r: int)
    ensures |a| <= |b| && a == b[..|a|] ==> r == |a| - |b|
    ensures |b| <= |a| && b == a[..|b|] ==> r == |a| - |b|
  {
    if a == [] || b == [] then |a| - |b|
    else if a[0] != b[0] then a[0] as int - b[0] as int
    else
      assert |a| <= |b| && a == b[..|a|] ==> a[1..] == b[1..][..|a| - 1];
      assert |b| <= |a| && b == a[..|b|] ==> b[1..] == a[1..][..|b| - 1];
      CompareTo(a[1..], b[1..])
  }

  /** At the first index where the strings differ, CompareTo is the difference of the two characters there. */
  lemma {:induction false} CompareToFirstDifference(a: string, b: string, k: nat)
    requires k < |a| && k < |b| && a[..k] == b[..k] && a[k] != b[k]
    ensures CompareTo(a, b) == a[k] as int - b[k] as int
  {
    if k > 0 {
      assert a[0] == a[..k][0] && b[0] == b[..k][0];
      assert a[1..][..k - 1] == a[..k][1..];
      assert b[1..][..k - 1] == b[..k][1..];
      CompareToFirstDifference(a[1..], b[1..], k - 1);
    }
  }

  /** `a` is strictly below `b` lexicographically, witnessed at position `k`:
      the two agree before `k`, and either `a` ends there or its character is smaller. */
  ghost predicate LexLessAt(a: string, b: string, k: nat)
  {
    k <= |a| && k < |b| && a[..k] == b[..k] && (k == |a| || a[k] < b[k])
  }

  /** Lexicographic order on strings, a proper prefix coming first. */
  ghost predicate LexLess(a: string, b: string)
  {
    exists k: nat :: LexLessAt(a, b, k)
  }

  lemma {:induction false} CompareToZeroIff(a: string, b: string)
    ensures CompareTo(a, b) == 0 <==> a == b
  {
    if a == [] || b == [] {
    } else if a[0] != b[0] {
    } else {
      CompareToZeroIff(a[1..], b[1..]);
      assert a == [a[0]] + a[1..];
      assert b == [b[0]] + b[1..];
    }
  }

  lemma {:induction false} CompareToAntisymmetric(a: string, b: string)
    ensures CompareTo(b, a) == -CompareTo(a, b)
  {
    if a == [] || b == [] {
    } else if a[0] != b[0] {
    } else {
      CompareToAntisymmetric(a[1..], b[1..]);
    }
  }

  /** Dropping a shared first character preserves lexicographic order, both ways. */
  lemma LexLessTail(a: string, b: string)
    requires a != [] && b != [] && a[0] == b[0]
    ensures LexLess(a, b) <==> LexLess(a[1..], b[1..])
  {
    if LexLess(a, b) {
      var k: nat :| LexLessAt(a, b, k);
      assert k != 0;
      assert a[1..][..k - 1] == a[..k][1..];
      assert b[1..][..k - 1] == b[..k][1..];
      assert LexLessAt(a[1..], b[1..], k - 1);
    }
    if LexLess(a[1..], b[1..]) {
      var j: nat :| LexLessAt(a[1..], b[1..], j);
      assert a[..j + 1] == [a[0]] + a[1..][..j];
      assert b[..j + 1] == [b[0]] + b[1..][..j];
      assert LexLessAt(a, b, j + 1);
    }
  }

  lemma {:induction false} CompareToNegativeIffLexLess(a: string, b: string)
    ensures CompareTo(a, b) < 0 <==> LexLess(a, b)
  {
    if a == [] {
      if b != [] {
        assert LexLessAt(a, b, 0);
      }
    } else if b == [] {
      assert !LexLess(a, b);
    } else if a[0] != b[0] {
      if a[0] < b[0] {
        assert LexLessAt(a, b, 0);
      } else {
        assert !LexLess(a, b);
      }
    } else {
      CompareToNegativeIffLexLess(a[1..], b[1..]);
      LexLessTail(a, b);
    }
  }

  /** The order CompareTo induces is transitive (the Comparator contract). */
  lemma {:induction false} CompareToTransitive(a: string, b: string, c: string)
    requires CompareTo(a, b) < 0 && CompareTo(b, c) < 0
    ensures CompareTo(a, c) < 0
  {
    if a != [] && b != [] && c != [] && a[0] == c[0] {
      CompareToTransitive(a[1..], b[1..], c[1..]);
    }
  }

  /**
    NodeAttributeComparator.compare: present values are compared with
    String.compareTo, two absent values tie, and a present value comes
    before an absent one. It answers 0 exactly for equal rank values.
   */
  function Compare(attribute: string, o1: Node, o2: Node): (r: int)
    ensures r == 0 <==> RankValue(o1, attribute) == RankValue(o2, attribute)
  {
    var a1 := RankValue(o1, attribute);
    var a2 := RankValue(o2, attribute);
    if a1.Some? && a2.Some? then
      CompareToZeroIff(a1.value, a2.value);
      CompareTo(a1.value, a2.value)
    else if a1.None? && a2.None? then
      0
    else if a1.Some? then
      -1
    else
      1
  }

  /** Rank order on optional values: present values lexicographically, every
      present value before an absent one, absent values tied. */
  ghost predicate RankBefore(v1: Option<string>, v2: Option<string>)
  {
    match (v1, v2)
    case (Some(s1), Some(s2)) => LexLess(s1, s2)
    case (Some(_), None) => true
    case (None, _) => false
  }

  /** The sign of Compare is the rank order, in both directions. */
  lemma CompareMatchesRankOrder(attribute: string, o1: Node, o2: Node)
    ensures Compare(attribute, o1, o2) < 0 <==> RankBefore(RankValue(o1, attribute), RankValue(o2, attribute))
    ensures Compare(attribute, o1, o2) > 0 <==> RankBefore(RankValue(o2, attribute), RankValue(o1, attribute))
  {
    var a1 := RankValue(o1, attribute);
    var a2 := RankValue(o2, attribute);
    if a1.Some? && a2.Some? {
      CompareToNegativeIffLexLess(a1.value, a2.value);
      CompareToNegativeIffLexLess(a2.value, a1.value);
      CompareToAntisymmetric(a1.value, a2.value);
    }
  }

  lemma CompareAntisymmetric(attribute: string, o1: Node, o2: Node)
    ensures Compare(attribute, o2, o1) == -Compare(attribute, o1, o2)
  {
    var a1 := RankValue(o1, attribute);
    var a2 := RankValue(o2, attribute);
    if a1.Some? && a2.Some? {
      CompareToAntisymmetric(a1.value, a2.value);
    }
  }

  lemma CompareTransitive(attribute: string, o1: Node, o2: Node, o3: Node)
    requires Compare(attribute, o1, o2) < 0 && Compare(attribute, o2, o3) < 0
    ensures Compare(attribute, o1, o3) < 0
  {
    var a1 := RankValue(o1, attribute);
    var a2 := RankValue(o2, attribute);
    var a3 := RankValue(o3, attribute);
    if a1.Some? && a2.Some? && a3.Some? {
      CompareToTransitive(a1.value, a2.value, a3.value);
    }
  }

  /**
    A run in which every node ties with the one before it is a single tier:
    any two of its nodes tie. A run of nodes that all lack the rank value is one.
   */
  lemma {:induction false} ChainedTiesFormOneTier(attribute: string, run: seq<Node>)
    requires forall i :: 0 < i < |run| ==> Compare(attribute, run[i - 1], run[i]) == 0
    ensures forall i, j :: 0 <= i < |run| && 0 <= j < |run| ==> Compare(attribute, run[i], run[j]) == 0
  {
    if |run| > 1 {
      var front := run[..|run| - 1];
      ChainedTiesFormOneTier(attribute, front);
      forall i | 0 <= i < |run|
        ensures RankValue(run[i], attribute) == RankValue(run[0], attribute)
      {
        if i < |run| - 1 {
          assert Compare(attribute, front[i], front[0]) == 0;
        } else {
          assert Compare(attribute, front[i - 1], front[0]) == 0;
        }
      }
    }
  }

  lemma AbsentRunIsOneTier(attribute: string, run: seq<Node>)
    requires forall i :: 0 <= i < |run| ==> RankValue(run[i], attribute).None?
    ensures forall i, j :: 0 <= i < |run| && 0 <= j < |run| ==> Compare(attribute, run[i], run[j]) == 0
  {
  }
}
