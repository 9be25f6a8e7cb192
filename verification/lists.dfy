/** Python's built-in list operations that the plugin relies on, over lists
    of strings: finding the first occurrence of a value and `list.remove`,
    which deletes only the first occurrence and raises `ValueError` when the
    value is absent (modelled as `None`). */
module Lists {
  import opened Wrappers

  /** No value occurs twice in `s`. */
  predicate Distinct(s: seq<string>) {
    forall i, j :: 0 <= i < j < |s| ==> s[i] != s[j]
  }

  /** Position of the first occurrence of `x` in `s`, if any. */
  function IndexOf(s: seq<string>, x: string): (r: Option<nat>)
    ensures r.None? <==> x !in s
    ensures r.Some? ==> r.value < |s| && s[r.value] == x && x !in s[..r.value]
  {
    if s == [] then None
    else if s[0] == x then Some(0)
    else
      var rest := IndexOf(s[1..], x);
      if rest.None? then None
      else
        assert s[..rest.value + 1] == [s[0]] + s[1..][..rest.value];
        Some(rest.value + 1)
  }

  /** `list.remove(x)` applied to a copy holding `s`. */
  function RemoveFirst(s: seq<string>, x: string): (r: Option<seq<string>>)
    ensures r.Some? <==> x in s
    ensures r.Some? ==> |r.value| == |s| - 1
    ensures r.Some? ==> multiset(r.value) == multiset(s) - multiset{x}
  {
    match IndexOf(s, x)
    case None => None
    case Some(i) =>
      assert s == s[..i] + [s[i]] + s[i + 1..];
      Some(s[..i] + s[i + 1..])
  }

  /** The index of the first occurrence is unique: any `i` holding `x`
      with no earlier `x` is the position `remove` deletes. */
  lemma RemoveFirstAt(s: seq<string>, x: string, i: nat)
    requires i < |s| && s[i] == x && x !in s[..i]
    ensures RemoveFirst(s, x) == Some(s[..i] + s[i + 1..])
  {
    var j := IndexOf(s, x).value;
    assert forall k :: 0 <= k < i ==> s[..i][k] == s[k];
    assert forall k :: 0 <= k < j ==> s[..j][k] == s[k];
  }

  /** On a list without duplicates, removing a present `x` leaves exactly
      the other values: both directions of membership. */
  lemma RemoveFirstDistinct(s: seq<string>, x: string)
    requires Distinct(s) && x in s
    ensures RemoveFirst(s, x).Some?
    ensures forall y :: y in RemoveFirst(s, x).value <==> y in s && y != x
  {
    var r := RemoveFirst(s, x).value;
    forall y
      ensures y in r <==> y in s && y != x
    {
      assert y in r <==> multiset(r)[y] > 0;
      assert y in s <==> multiset(s)[y] > 0;
    }
  }
}
