/** Sequence helpers shared by the control and tidbit collections. */
module Lists {
  import opened Wrappers

  /** `List<T>.IndexOf`: the first position holding `x`, if any. */
  function IndexOf<T(==)>(s: seq<T>, x: T): (r: Option<nat>)
    ensures r.Some? ==> r.value < |s| && s[r.value] == x
    ensures r.Some? ==> forall i :: 0 <= i < r.value ==> s[i] != x
    ensures r.None? <==> x !in s
  {
    if |s| == 0 then None
    else if s[0] == x then Some(0)
    else match IndexOf(s[1..], x)
      case None => None
      case Some(i) => Some(i + 1)
  }

  /**
   * No element occurs twice. Stated element by element from the front, so
   * that the verifier unfolds it only on request.
   */
  predicate Distinct<T(==)>(s: seq<T>)
  {
    |s| == 0 || (s[0] !in s[1..] && Distinct(s[1..]))
  }

  /** Two different positions of a sequence without repeats hold different elements. */
  lemma {:induction false} DistinctAt<T>(s: seq<T>, i: nat, j: nat)
    requires Distinct(s) && i < |s| && j < |s| && i != j
    ensures s[i] != s[j]
    decreases i + j
  {
    if i == 0 {
      assert s[j] == s[1..][j - 1];
    } else if j == 0 {
      assert s[i] == s[1..][i - 1];
    } else {
      DistinctAt(s[1..], i - 1, j - 1);
    }
  }

  /** Conversely, distinct elements at distinct positions make a sequence without repeats. */
  lemma {:induction false} DistinctFromIndices<T>(s: seq<T>)
    requires forall i, j :: 0 <= i < j < |s| ==> s[i] != s[j]
    ensures Distinct(s)
    decreases |s|
  {
    if |s| > 0 {
      assert forall i :: 0 <= i < |s| - 1 ==> s[1..][i] == s[i + 1];
      DistinctFromIndices(s[1..]);
    }
  }

  /** A suffix of a sequence without repeats has none. */
  lemma {:induction false} DistinctDrop<T>(s: seq<T>, n: nat)
    requires Distinct(s) && n <= |s|
    ensures Distinct(s[n..])
    decreases n
  {
    if n > 0 {
      DistinctDrop(s[1..], n - 1);
      assert s[1..][n - 1..] == s[n..];
    }
  }

  /** Appending a new element keeps a sequence without repeats. */
  lemma {:induction false} DistinctAppend<T>(s: seq<T>, x: T)
    requires Distinct(s) && x !in s
    ensures Distinct(s + [x])
    decreases |s|
  {
    if |s| > 0 {
      assert (s + [x])[1..] == s[1..] + [x];
      DistinctAppend(s[1..], x);
    } else {
      assert [x][1..] == [];
    }
  }

  /** `List<T>.RemoveAt`: drops position `i`, keeping the order of the rest. */
  function RemoveAt<T>(s: seq<T>, i: nat): (r: seq<T>)
    requires i < |s|
    ensures |r| == |s| - 1
    ensures forall k :: 0 <= k < i ==> r[k] == s[k]
    ensures forall k :: i <= k < |r| ==> r[k] == s[k + 1]
  {
    s[..i] + s[i + 1..]
  }

  /** Removing a position of a sequence without repeats removes exactly that element. */
  lemma {:induction false} RemoveAtDistinct<T>(s: seq<T>, i: nat)
    requires i < |s| && Distinct(s)
    ensures Distinct(RemoveAt(s, i))
    ensures s[i] !in RemoveAt(s, i)
    ensures forall x :: x != s[i] ==> (x in RemoveAt(s, i) <==> x in s)
    decreases i
  {
    var r := RemoveAt(s, i);
    if i == 0 {
      assert r == s[1..];
    } else {
      RemoveAtDistinct(s[1..], i - 1);
      assert r == [s[0]] + RemoveAt(s[1..], i - 1);
      assert s == [s[0]] + s[1..];
    }
  }

  /** An element before position `n` of a sequence without repeats does not occur from `n` on. */
  lemma DistinctNotInSuffix<T>(s: seq<T>, k: nat, n: nat)
    requires Distinct(s) && k < n <= |s|
    ensures s[k] !in s[n..]
  {
    forall m | 0 <= m < |s| - n
      ensures s[n..][m] != s[k]
    {
      DistinctAt(s, k, n + m);
    }
  }
}
