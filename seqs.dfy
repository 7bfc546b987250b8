/** Finding and removing one row of a table kept as a sequence. */
module Seqs {
  import opened Wrappers

  /** The last index whose element satisfies `p`, if there is one. */
  function LastIndexWhere<T(!new)>(s: seq<T>, p: T -> bool): (r: Option<nat>)
    ensures r.Some? <==> exists x :: x in s && p(x)
    ensures r.Some? ==> r.value < |s| && p(s[r.value])
  {
    if s == [] then None
    else if p(s[|s| - 1]) then Some(|s| - 1)
    else
      assert forall x :: x in s <==> x in s[..|s| - 1] || x == s[|s| - 1];
      LastIndexWhere(s[..|s| - 1], p)
  }

  /** The elements satisfying `p`, in their order in `s`. */
  function Filter<T(!new)>(s: seq<T>, p: T -> bool): (r: seq<T>)
    ensures forall x :: x in r <==> x in s && p(x)
    ensures |r| <= |s|
  {
    if s == [] then []
    else
      var rest := Filter(s[..|s| - 1], p);
      var last := s[|s| - 1];
      assert forall x :: x in s <==> x in s[..|s| - 1] || x == last;
      if p(last) then rest + [last] else rest
  }

  /** The set of elements of `s` satisfying `p`. */
  function Satisfying<T(!new)>(s: seq<T>, p: T -> bool): set<T> {
    set x | x in s && p(x)
  }

  /** Without repeated elements, the filtered sequence has one entry per
      element satisfying `p`. */
  lemma {:induction false} FilterCount<T(!new)>(s: seq<T>, p: T -> bool)
    requires forall i, j :: 0 <= i < j < |s| ==> s[i] != s[j]
    ensures |Filter(s, p)| == |Satisfying(s, p)|
  {
    if s != [] {
      var front, last := s[..|s| - 1], s[|s| - 1];
      FilterCount(front, p);
      assert forall x :: x in s <==> x in front || x == last;
      assert last !in front by {
        forall i | 0 <= i < |front| ensures front[i] != last {
          assert s[i] != s[|s| - 1];
        }
      }
      var before := Satisfying(front, p);
      var after := Satisfying(s, p);
      if p(last) {
        assert after == before + {last};
      } else {
        assert after == before;
      }
    }
  }

  /** Appending keeps the front as a prefix and ends with the back's last element. */
  lemma AppendEnds<T>(a: seq<T>, b: seq<T>)
    requires b != []
    ensures a <= a + b && (a + b)[|a + b| - 1] == b[|b| - 1]
  {
    assert (a + b)[..|a|] == a;
  }

  /** `s` without its element at index k; the others keep their order. */
  function RemoveAt<T>(s: seq<T>, k: nat): (r: seq<T>)
    requires k < |s|
    ensures |r| == |s| - 1
    ensures forall i :: 0 <= i < k ==> r[i] == s[i]
    ensures forall i :: k <= i < |r| ==> r[i] == s[i + 1]
  {
    s[..k] + s[k + 1..]
  }

  /** What is left is what was there, except possibly the element removed. */
  lemma RemoveAtMembers<T>(s: seq<T>, k: nat)
    requires k < |s|
    ensures forall x :: x in RemoveAt(s, k) ==> x in s
    ensures forall i :: 0 <= i < |s| && i != k ==> s[i] in RemoveAt(s, k)
  {
    var r := RemoveAt(s, k);
    forall i | 0 <= i < |s| && i != k ensures s[i] in r {
      if i < k { assert r[i] == s[i]; } else { assert r[i - 1] == s[i]; }
    }
  }
}
