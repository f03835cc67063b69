/**
 * The operations of the .NET `List<T>` that `NodeData` relies on, as functions
 * on sequences: `Insert`, `RemoveAt` and `FindIndex` (with the predicate
 * `d => d == childNode`), plus `LastIndexOf`, which says what an index-renumbering
 * loop leaves behind when an object occurs in a list more than once.
 */
module Lists {

  /** The list after `List.Insert(k, x)`: `x` lands at position `k`, the tail shifts right. */
  function Insert<T>(s: seq<T>, k: nat, x: T): (r: seq<T>)
    requires k <= |s|
    ensures |r| == |s| + 1
    ensures forall j :: 0 <= j < |r| ==> r[j] == if j < k then s[j] else if j == k then x else s[j - 1]
  {
    assert s == s[..k] + s[k..];
    s[..k] + [x] + s[k..]
  }

  /** The list after `List.RemoveAt(k)`: position `k` disappears, the tail shifts left. */
  function RemoveAt<T>(s: seq<T>, k: nat): (r: seq<T>)
    requires k < |s|
    ensures |r| == |s| - 1
    ensures forall j :: 0 <= j < |r| ==> r[j] == if j < k then s[j] else s[j + 1]
  {
    assert s == s[..k] + [s[k]] + s[k + 1..];
    s[..k] + s[k + 1..]
  }

  /** Removing what was just inserted gives back the original list. */
  lemma RemoveInserted<T>(s: seq<T>, k: nat, x: T)
    requires k <= |s|
    ensures RemoveAt(Insert(s, k, x), k) == s
  {
  }

  /** Re-inserting what was just removed, at the same place, gives back the original list. */
  lemma InsertRemoved<T>(s: seq<T>, k: nat)
    requires k < |s|
    ensures Insert(RemoveAt(s, k), k, s[k]) == s
  {
  }

  /**
   * `List.FindIndex(d => d == x)`: the position of the first occurrence of `x`,
   * or -1 when `x` does not occur.
   */
  function FirstIndexOf<T(==)>(s: seq<T>, x: T): (r: int)
    ensures -1 <= r < |s|
    ensures r == -1 <==> x !in s
    ensures 0 <= r ==> s[r] == x && forall j :: 0 <= j < r ==> s[j] != x
  {
    if s == [] then -1
    else if s[0] == x then 0
    else
      var r := FirstIndexOf(s[1..], x);
      if r < 0 then -1 else r + 1
  }

  /** The position of the last occurrence of `x` in `s`. */
  function LastIndexOf<T(==)>(s: seq<T>, x: T): (r: nat)
    requires x in s
    ensures r < |s| && s[r] == x
    ensures forall j :: r < j < |s| ==> s[j] != x
  {
    if s[|s| - 1] == x then |s| - 1
    else
      assert x in s[..|s| - 1] by {
        var i :| 0 <= i < |s| && s[i] == x;
        assert s[..|s| - 1][i] == x;
      }
      LastIndexOf(s[..|s| - 1], x)
  }

  /** No element occurs twice. */
  predicate Distinct<T(==)>(s: seq<T>) {
    forall i, j :: 0 <= i < j < |s| ==> s[i] != s[j]
  }

  /** Appending one element: the last occurrence is that element or is where it was before. */
  lemma LastIndexOfSnoc<T>(s: seq<T>, y: T, x: T)
    requires x in s + [y]
    ensures x != y ==> x in s
    ensures LastIndexOf(s + [y], x) == if x == y then |s| else LastIndexOf(s, x)
  {
    var t := s + [y];
    if x != y {
      var r := LastIndexOf(t, x);
      assert t[r] == x && r < |s|;
      assert s[r] == x;
      var q := LastIndexOf(s, x);
      assert t[q] == x;
    }
  }

  /** In a list without repetitions every element's last occurrence is its position. */
  lemma DistinctLastIndex<T>(s: seq<T>, i: nat)
    requires Distinct(s) && i < |s|
    ensures LastIndexOf(s, s[i]) == i
  {
  }

  /** Inserting an element that is not yet in a list without repetitions keeps it without repetitions. */
  lemma InsertKeepsDistinct<T>(s: seq<T>, k: nat, x: T)
    requires Distinct(s) && x !in s && k <= |s|
    ensures Distinct(Insert(s, k, x))
  {
    var r := Insert(s, k, x);
    forall i, j | 0 <= i < j < |r| ensures r[i] != r[j] {
      if j == k {
        assert r[i] == s[i];
      } else if i == k {
        assert r[j] == s[j - 1];
      } else {
        var i' := if i < k then i else i - 1;
        var j' := if j < k then j else j - 1;
        assert r[i] == s[i'] && r[j] == s[j'];
      }
    }
  }

  /** Removing a position from a list without repetitions keeps it without repetitions. */
  lemma RemoveAtKeepsDistinct<T>(s: seq<T>, k: nat)
    requires Distinct(s) && k < |s|
    ensures Distinct(RemoveAt(s, k))
    ensures s[k] !in RemoveAt(s, k)
  {
    var r := RemoveAt(s, k);
    forall i, j | 0 <= i < j < |r| ensures r[i] != r[j] {
      var i' := if i < k then i else i + 1;
      var j' := if j < k then j else j + 1;
      assert r[i] == s[i'] && r[j] == s[j'];
    }
  }

  /**
   * One more step of a renumbering loop that has processed `s[lo..i]`: after
   * position `i` is written, the last occurrences among `s[..i + 1]` are the old
   * ones except for the element at `i`.
   */
  lemma LastIndexOfExtend<T>(s: seq<T>, lo: nat, i: nat)
    requires lo <= i < |s|
    ensures s[lo..i + 1] == s[lo..i] + [s[i]]
    ensures forall j {:trigger LastIndexOf(s[..i + 1], s[j])} :: lo <= j <= i ==>
      LastIndexOf(s[..i + 1], s[j]) == if s[j] == s[i] then i else LastIndexOf(s[..i], s[j])
  {
    forall j | lo <= j <= i
      ensures LastIndexOf(s[..i + 1], s[j]) == if s[j] == s[i] then i else LastIndexOf(s[..i], s[j])
    {
      assert s[..i + 1] == s[..i] + [s[i]];
      assert s[..i + 1][j] == s[j];
      LastIndexOfSnoc(s[..i], s[i], s[j]);
    }
  }
}
