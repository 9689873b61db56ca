// Notions shared by the models.

module Common {
  datatype Option<T> = None | Some(value: T)

  ghost predicate Distinct<T>(s: seq<T>) {
    forall i, j :: 0 <= i < j < |s| ==> s[i] != s[j]
  }

  // A sequence known position by position to lack element i of another.
  lemma IsSplice<T>(s: seq<T>, i: nat, r: seq<T>)
    requires i < |s| && |r| == |s| - 1
    requires forall k :: 0 <= k < i ==> r[k] == s[k]
    requires forall k :: i <= k < |r| ==> r[k] == s[k + 1]
    ensures r == s[..i] + s[i + 1..]
  {
  }

  lemma SplitLast<T>(s: seq<T>, t: seq<T>)
    requires t != []
    ensures s + t == s + t[..|t| - 1] + [t[|t| - 1]]
  {
  }

  lemma IsUpdate<T>(s: seq<T>, i: nat, x: T, r: seq<T>)
    requires i < |s| && |r| == |s| && r[i] == x
    requires forall k :: 0 <= k < |s| && k != i ==> r[k] == s[k]
    ensures r == s[i := x]
  {
  }

  lemma IsAppend<T>(s: seq<T>, x: T, r: seq<T>)
    requires |r| == |s| + 1 && r[|s|] == x
    requires forall k :: 0 <= k < |s| ==> r[k] == s[k]
    ensures r == s + [x]
  {
  }
}
