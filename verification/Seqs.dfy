/** Sequence and option vocabulary shared by the components. */
module Seqs {

  datatype Option<+T> = None | Some(value: T)

  /** s without its element at index i. */
  function RemoveAt<T>(s: seq<T>, i: nat): seq<T>
    requires i < |s|
  {
    s[..i] + s[i + 1..]
  }

  lemma RemoveAtIndex<T>(s: seq<T>, i: nat)
    requires i < |s|
    ensures |RemoveAt(s, i)| == |s| - 1
    ensures forall j :: 0 <= j < |RemoveAt(s, i)| ==> RemoveAt(s, i)[j] == s[if j < i then j else j + 1]
  {
  }

  /** s without the first occurrence of x. */
  function Without(s: seq<nat>, x: nat): seq<nat>
  {
    if s == [] then [] else if s[0] == x then s[1..] else [s[0]] + Without(s[1..], x)
  }

  ghost predicate Distinct(s: seq<nat>)
  {
    forall i, j :: 0 <= i < j < |s| ==> s[i] != s[j]
  }

  ghost function SetOf(s: seq<nat>): set<nat> { set x | x in s }

  /** Unlinking x from a list without repetitions removes x and nothing else. */
  lemma {:induction false} WithoutMembers(s: seq<nat>, x: nat)
    requires Distinct(s)
    ensures Distinct(Without(s, x)) && forall a :: a in Without(s, x) <==> a in s && a != x
    ensures |Without(s, x)| == if x in s then |s| - 1 else |s|
    decreases |s|
  {
    if s != [] {
      assert s == [s[0]] + s[1..];
      WithoutMembers(s[1..], x);
      var r := Without(s[1..], x);
      assert forall i :: 0 <= i < |r| ==> r[i] in r;
    }
  }
}
