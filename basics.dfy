/**
 * Small building blocks shared by the grid model: an Option type for the
 * places where the JavaScript code returns `null`, the `findIndex` search
 * over a sequence, and a fact about permutations.
 */
module Basics {

  datatype Option<+T> = None | Some(value: T)

  /** `Array.prototype.findIndex` with an equality test: the first position
      holding `x`, or -1 when there is none. */
  function FirstIndex<T(==)>(s: seq<T>, x: T): (r: int)
    ensures -1 <= r < |s|
    ensures r == -1 <==> x !in s
    ensures r >= 0 ==> s[r] == x
    ensures forall i :: 0 <= i < |s| && (r == -1 || i < r) ==> s[i] != x
  {
    if s == [] then -1
    else if s[0] == x then 0
    else
      var k := FirstIndex(s[1..], x);
      if k == -1 then -1 else k + 1
  }

  /** The first position holding `x` is the one `FirstIndex` reports. */
  lemma FirstIndexAt<T>(s: seq<T>, x: T, k: nat)
    requires k < |s| && s[k] == x
    requires forall i :: 0 <= i < k ==> s[i] != x
    ensures FirstIndex(s, x) == k
  {
  }

  /** The multiset of a sequence, split around position `k`. */
  lemma MultisetSplit<T>(s: seq<T>, k: nat)
    requires k < |s|
    ensures multiset(s) == multiset(s[..k]) + multiset{s[k]} + multiset(s[k + 1..])
  {
    assert s == s[..k] + [s[k]] + s[k + 1..];
  }

  /** Two different positions of a permutation `b` of `a` come from two
      different positions of `a`. */
  lemma PermutationPositions<T>(a: seq<T>, b: seq<T>, i: nat, j: nat) returns (p: nat, q: nat)
    requires multiset(a) == multiset(b)
    requires i < |b| && j < |b| && i != j
    ensures p < |a| && q < |a| && p != q
    ensures a[p] == b[i] && a[q] == b[j]
  {
    assert b[j] in multiset(a);
    q :| 0 <= q < |a| && a[q] == b[j];
    if b[i] != b[j] {
      assert b[i] in multiset(a);
      p :| 0 <= p < |a| && a[p] == b[i];
    } else {
      var x := b[j];
      MultisetSplit(b, j);
      if i < j {
        assert b[..j][i] == x;
        assert x in multiset(b[..j]);
      } else {
        assert b[j + 1..][i - j - 1] == x;
        assert x in multiset(b[j + 1..]);
      }
      assert multiset(a)[x] >= 2;
      MultisetSplit(a, q);
      if x in multiset(a[..q]) {
        var p' :| 0 <= p' < q && a[..q][p'] == x;
        p := p';
      } else {
        assert x in multiset(a[q + 1..]);
        var p' :| 0 <= p' < |a| - q - 1 && a[q + 1..][p'] == x;
        p := q + 1 + p';
      }
    }
  }
}
