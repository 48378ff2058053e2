/** The two list idioms the core uses: a `for` loop that stops at the first hit, and removing one element. */
module Lists {
  import opened Values

  /** The index a `for x in s: if p(x): ... return` loop stops at, or None when it runs to the end. */
  function FirstWhere<T>(s: seq<T>, p: T -> bool): (r: Option<nat>)
    ensures r.Some? ==> r.value < |s| && p(s[r.value]) && forall j :: 0 <= j < r.value ==> !p(s[j])
    ensures r.None? ==> forall j :: 0 <= j < |s| ==> !p(s[j])
  {
    if s == [] then None
    else if p(s[0]) then Some(0)
    else match FirstWhere(s[1..], p)
      case Some(i) => Some(i + 1)
      case None => None
  }

  /** The list without its i-th element, as `list.remove` leaves it when that element is the first equal one. */
  function RemoveAt<T>(s: seq<T>, i: nat): (r: seq<T>)
    requires i < |s|
    ensures |r| == |s| - 1
    ensures forall j :: 0 <= j < i ==> r[j] == s[j]
    ensures forall j :: i <= j < |r| ==> r[j] == s[j + 1]
  {
    s[..i] + s[i + 1..]
  }

  lemma RemoveAtMultiset<T>(s: seq<T>, i: nat)
    requires i < |s|
    ensures multiset(RemoveAt(s, i)) + multiset{s[i]} == multiset(s)
  {
    assert s == s[..i] + [s[i]] + s[i + 1..];
  }

  /** A prefix one longer is the shorter prefix and one element more. */
  lemma TakeSnoc<T>(s: seq<T>, j: nat)
    requires 0 < j <= |s|
    ensures s[..j] == s[..j - 1] + [s[j - 1]]
  {
  }

  /** A non-empty list is its prefix without the last element, then that element. */
  lemma SnocLast<T>(s: seq<T>)
    requires s != []
    ensures s == s[..|s| - 1] + [s[|s| - 1]]
  {
  }

  /** The last element of `xs + ys`, for a non-empty ys, is that of ys, and the rest is xs then the rest of ys. */
  lemma AppendInit<T>(xs: seq<T>, ys: seq<T>)
    requires ys != []
    ensures (xs + ys)[..|xs + ys| - 1] == xs + ys[..|ys| - 1]
    ensures (xs + ys)[|xs + ys| - 1] == ys[|ys| - 1]
  { }

  lemma SnocAssoc<T>(a: seq<T>, b: seq<T>, c: T)
    ensures a + b + [c] == a + (b + [c])
  { }
}
