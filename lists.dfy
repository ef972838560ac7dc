/** Python list operations that the game loop of main.py relies on. */
module Lists {

  datatype Option<T> = None | Some(value: T)

  /** The deletion `list.remove` makes at the index it finds: the list without its entry
      at index i. */
  function DeleteAt<T>(s: seq<T>, i: nat): (r: seq<T>)
    requires i < |s|
    ensures |r| == |s| - 1
    ensures forall k :: 0 <= k < i ==> r[k] == s[k]
    ensures forall k :: i <= k < |r| ==> r[k] == s[k + 1]
  {
    s[..i] + s[i + 1..]
  }

  /** The index of the first entry equal to x. */
  function IndexOf<T(==)>(s: seq<T>, x: T): (i: nat)
    requires x in s
    ensures i < |s| && s[i] == x && x !in s[..i]
  {
    if s[0] == x then 0
    else
      var j := IndexOf(s[1..], x);
      assert s[..j + 1] == [s[0]] + s[1..][..j];
      j + 1
  }

  /** `s.remove(x)`: deletes the first entry equal to x. None stands for the
      ValueError that Python raises when no entry equals x. */
  function RemoveFirst<T(==)>(s: seq<T>, x: T): (r: Option<seq<T>>)
    ensures r.None? <==> x !in s
    ensures forall i :: 0 <= i < |s| && s[i] == x && x !in s[..i] ==> r == Some(DeleteAt(s, i))
  {
    if x in s then
      var j := IndexOf(s, x);
      assert forall i :: 0 <= i < |s| && s[i] == x && x !in s[..i] ==> i == j;
      Some(DeleteAt(s, j))
    else None
  }

  /** No object occurs twice in the list. */
  ghost predicate Distinct<T>(s: seq<T>) {
    forall i, j :: 0 <= i < j < |s| ==> s[i] != s[j]
  }

  /** Appending a new entry to a list without duplicates leaves none. */
  lemma DistinctAppend<T>(s: seq<T>, x: T)
    requires Distinct(s) && x !in s
    ensures Distinct(s + [x])
  {
  }

  /** In a list without duplicates, removing the entry at i finds it at i and leaves a
      list without duplicates that no longer holds it. */
  lemma RemoveDistinct<T>(s: seq<T>, i: nat)
    requires Distinct(s) && i < |s|
    ensures RemoveFirst(s, s[i]) == Some(DeleteAt(s, i))
    ensures Distinct(DeleteAt(s, i)) && s[i] !in DeleteAt(s, i)
  {
    assert s[i] !in s[..i];
  }
}
