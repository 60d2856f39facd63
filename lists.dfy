/** The Python `list` operations the contact book applies to its phone and key lists. */
module Lists {

  /** `s.index(x)`: the first position that holds `x`. */
  function IndexOf<T(==)>(s: seq<T>, x: T): (i: nat)
    requires x in s
    ensures i < |s| && s[i] == x && x !in s[..i]
  {
    if s[0] == x then 0
    else
      var i := 1 + IndexOf(s[1..], x);
      assert s[..i] == [s[0]] + s[1..][..i - 1];
      i
  }

  /** The first position is the only one before which `x` does not occur. */
  lemma IndexOfAt<T>(s: seq<T>, x: T, i: nat)
    requires i < |s| && s[i] == x && x !in s[..i]
    ensures IndexOf(s, x) == i
  {
  }

  /**
   * `s.remove(x)`: drops the first occurrence of `x` and keeps the rest in
   * order; nothing but that one `x` is lost.
   */
  function RemoveFirst<T(==)>(s: seq<T>, x: T): (r: seq<T>)
    requires x in s
    ensures r == s[..IndexOf(s, x)] + s[IndexOf(s, x) + 1..]
  {
    if s[0] == x then
      assert s == [s[0]] + s[1..];
      s[1..]
    else
      var rest := RemoveFirst(s[1..], x);
      var i := IndexOf(s, x);
      assert i == 1 + IndexOf(s[1..], x);
      assert s[..i] == [s[0]] + s[1..][..i - 1];
      assert s[i + 1..] == s[1..][i..];
      [s[0]] + rest
  }

  /**
   * Overwrites the first occurrence of `x` with `y`, in place: the length and
   * every other position stay as they were.
   */
  function ReplaceFirst<T(==)>(s: seq<T>, x: T, y: T): (r: seq<T>)
    requires x in s
    ensures |r| == |s| && r[IndexOf(s, x)] == y
    ensures forall j :: 0 <= j < |s| && j != IndexOf(s, x) ==> r[j] == s[j]
  {
    if s[0] == x then [y] + s[1..] else [s[0]] + ReplaceFirst(s[1..], x, y)
  }

  /** Removing an element just appended to a list without it gives the list back. */
  lemma RemoveAppended<T>(s: seq<T>, x: T)
    requires x !in s
    ensures RemoveFirst(s + [x], x) == s
  {
    IndexOfAt(s + [x], x, |s|);
    assert (s + [x])[..|s|] == s;
  }

  predicate Distinct<T(==)>(s: seq<T>) {
    forall i, j :: 0 <= i < j < |s| ==> s[i] != s[j]
  }

  /** Position `j` of the shortened list holds what position `j` or `j + 1` held. */
  lemma RemoveFirstAt<T>(s: seq<T>, x: T, j: int)
    requires x in s && 0 <= j < |s| - 1
    ensures RemoveFirst(s, x)[j] == s[if j < IndexOf(s, x) then j else j + 1]
  {
  }

  /** Removing from a list without repeats removes the element and nothing else. */
  lemma RemoveDistinct<T>(s: seq<T>, x: T)
    requires x in s && Distinct(s)
    ensures Distinct(RemoveFirst(s, x))
    ensures forall y :: y in RemoveFirst(s, x) <==> y in s && y != x
  {
    var i := IndexOf(s, x);
    var r := RemoveFirst(s, x);
    forall y | y in r
      ensures y in s && y != x
    {
      var j :| 0 <= j < |r| && r[j] == y;
      RemoveFirstAt(s, x, j);
    }
    forall y | y in s && y != x
      ensures y in r
    {
      var k :| 0 <= k < |s| && s[k] == y;
      var j := if k < i then k else k - 1;
      RemoveFirstAt(s, x, j);
    }
    forall j, k | 0 <= j < k < |r|
      ensures r[j] != r[k]
    {
      RemoveFirstAt(s, x, j);
      RemoveFirstAt(s, x, k);
    }
  }

  /** Replacing the element at `i` takes one copy of it out of the multiset and puts `y` in. */
  lemma ReplaceAtCounts<T>(s: seq<T>, i: nat, y: T)
    requires i < |s|
    ensures multiset(s[..i] + [y] + s[i + 1..]) == multiset(s) - multiset{s[i]} + multiset{y}
  {
    assert s == s[..i] + [s[i]] + s[i + 1..];
  }
}
