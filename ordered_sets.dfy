/** `java.util.HashSet` as the manifest task fills it. The iteration order of a HashSet
    is unspecified; the model fixes one, the insertion order, by keeping the elements in
    a sequence without duplicates. */
module OrderedSets {

  predicate NoDuplicates<T(==)>(s: seq<T>)
  {
    forall i, j :: 0 <= i < j < |s| ==> s[i] != s[j]
  }

  /** `set.add(x)`. */
  function Add<T(==, !new)>(s: seq<T>, x: T): (r: seq<T>)
    ensures forall y :: y in r <==> y in s || y == x
    ensures NoDuplicates(s) ==> NoDuplicates(r)
    ensures |r| <= |s| + 1
  {
    if x in s then s else s + [x]
  }

  /** `set.addAll(xs)`. */
  function AddAll<T(==, !new)>(s: seq<T>, xs: seq<T>): (r: seq<T>)
    ensures forall y :: y in r <==> y in s || y in xs
    ensures NoDuplicates(s) ==> NoDuplicates(r)
    decreases |xs|
  {
    if xs == [] then s else AddAll(Add(s, xs[0]), xs[1..])
  }

  /** A sequence with a head is duplicate-free exactly when its tail is and does not hold
      the head. */
  lemma NoDuplicatesCons<T>(x: T, s: seq<T>)
    ensures NoDuplicates([x] + s) <==> x !in s && NoDuplicates(s)
  {
    var r := [x] + s;
    if x in s {
      var k :| 0 <= k < |s| && s[k] == x;
      assert r[0] == r[k + 1];
    }
    if !NoDuplicates(s) {
      var i, j :| 0 <= i < j < |s| && s[i] == s[j];
      assert r[i + 1] == r[j + 1];
    }
    if x !in s && NoDuplicates(s) {
      forall i, j | 0 <= i < j < |r|
        ensures r[i] != r[j]
      {
        if i == 0 {
          assert r[j] == s[j - 1];
        } else {
          assert r[i] == s[i - 1] && r[j] == s[j - 1];
        }
      }
    }
  }
}
