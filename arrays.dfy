/** Coordinate-list helpers: the editor keeps cells as two-element integer
    arrays and compares them element by element, never by identity. */
module Arrays {

  /** Two integer arrays of the same length that agree at every index. */
  predicate SameArray(element: seq<int>, data: seq<int>)
    ensures SameArray(element, data) <==> element == data
  {
    |element| == |data| && forall i :: 0 <= i < |element| ==> element[i] == data[i]
  }

  /** Whether some element of `list` equals `data` element by element. */
  function CheckArray(list: seq<seq<int>>, data: seq<int>): (r: bool)
    ensures r <==> data in list
  {
    if list == [] then false
    else
      assert list == [list[0]] + list[1..];
      SameArray(list[0], data) || CheckArray(list[1..], data)
  }

  /** Index of the first element equal to `data`, or -1 (`findIndex`). */
  function FindIndex(list: seq<seq<int>>, data: seq<int>): (k: int)
    ensures -1 <= k < |list|
    ensures k == -1 <==> data !in list
    ensures 0 <= k ==> list[k] == data && data !in list[..k]
  {
    if list == [] then -1
    else if SameArray(list[0], data) then 0
    else
      var k := FindIndex(list[1..], data);
      if k == -1 then -1
      else
        assert list[1..][..k] == list[1..k + 1];
        assert list[..k + 1] == [list[0]] + list[1..k + 1];
        k + 1
  }

  /** Deletes the first element equal to `data` and reports whether there was one.
      The list is passed and returned by value. */
  method RemoveArrayElement(list: seq<seq<int>>, data: seq<int>) returns (removed: bool, rest: seq<seq<int>>)
    ensures removed <==> data in list
    ensures !removed ==> rest == list
    ensures removed ==> exists k :: 0 <= k < |list| && list[k] == data && data !in list[..k] && rest == list[..k] + list[k + 1..]
    ensures multiset(rest) + (if removed then multiset{data} else multiset{}) == multiset(list)
  {
    var index := FindIndex(list, data);
    if index != -1 {
      rest := list[..index] + list[index + 1..];
      assert list == list[..index] + [list[index]] + list[index + 1..];
      return true, rest;
    }
    return false, list;
  }

  /** Element-by-element equality of two integer arrays. */
  method AreArraysEqual(arr1: seq<int>, arr2: seq<int>) returns (r: bool)
    ensures r <==> arr1 == arr2
  {
    if |arr1| != |arr2| {
      return false;
    }
    for i := 0 to |arr1|
      invariant forall j :: 0 <= j < i ==> arr1[j] == arr2[j]
    {
      if arr1[i] != arr2[i] {
        return false;
      }
    }
    return true;
  }

  /** No two elements are equal. */
  ghost predicate NoDuplicates(list: seq<seq<int>>) {
    forall i, j :: 0 <= i < j < |list| ==> list[i] != list[j]
  }
}
