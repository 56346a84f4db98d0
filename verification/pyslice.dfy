/** Python list slicing, as used by the history compactor: negative bounds
    count from the end and every bound is clamped to the list. */
module PySlice {

  function Min(a: int, b: int): int {
    if a <= b then a else b
  }

  /** The position a slice bound `i` denotes in a list of length `n`. */
  function Bound(i: int, n: nat): (r: nat)
    ensures r <= n
    ensures 0 <= i <= n ==> r == i
    ensures i < 0 && n + i >= 0 ==> r == n + i
    ensures i > n ==> r == n
    ensures n + i < 0 ==> r == 0
  {
    if i < 0 then (if n + i < 0 then 0 else n + i)
    else if i > n then n else i
  }

  /** `s[start:stop]` */
  function Slice<T>(s: seq<T>, start: int, stop: int): (r: seq<T>)
    ensures |r| <= |s|
    ensures Bound(start, |s|) < Bound(stop, |s|) ==> r == s[Bound(start, |s|)..Bound(stop, |s|)]
    ensures Bound(stop, |s|) <= Bound(start, |s|) ==> r == []
  {
    var a := Bound(start, |s|);
    var b := Bound(stop, |s|);
    if a < b then s[a..b] else []
  }

  /** `s[start:]` */
  function SliceFrom<T>(s: seq<T>, start: int): (r: seq<T>)
    ensures |r| <= |s|
    ensures r == Slice(s, start, |s|)
  {
    s[Bound(start, |s|)..]
  }

  /** Laws of `s[a:b]` a caller can rely on without reading the definition:
      adjacent slices concatenate, the full slice is the list, a negative
      bound reads from the end, and bounds past either end are clamped. */
  lemma SliceLaws<T>(s: seq<T>, a: int, b: int, c: int)
    ensures 0 <= a <= b <= c <= |s| ==> Slice(s, a, b) + Slice(s, b, c) == Slice(s, a, c)
    ensures Slice(s, 0, |s|) == s
    ensures -|s| <= a < 0 ==> Slice(s, a, b) == Slice(s, |s| + a, b)
    ensures b > |s| ==> Slice(s, a, b) == Slice(s, a, |s|)
    ensures a + |s| < 0 ==> Slice(s, a, b) == Slice(s, 0, b)
    ensures |Slice(s, a, b)| == if Bound(a, |s|) < Bound(b, |s|) then Bound(b, |s|) - Bound(a, |s|) else 0
  {
    if 0 <= a <= b <= c <= |s| {
      if a < b && b < c {
        assert s[a..b] + s[b..c] == s[a..c];
      }
    }
  }

  /** `s[-k:]` for k > 0 is the last min(k, |s|) elements. */
  lemma LastElements<T>(s: seq<T>, k: int)
    requires k > 0
    ensures |SliceFrom(s, -k)| == Min(k, |s|)
    ensures SliceFrom(s, -k) == s[|s| - Min(k, |s|)..]
  {
  }


  /** `s[1:-k]` for k > 0 is empty exactly when the list has at most k + 1
      elements, and otherwise everything strictly between the head and the
      last k elements. */
  lemma Middle<T>(s: seq<T>, k: int)
    requires k > 0
    ensures Slice(s, 1, -k) == [] <==> |s| <= k + 1
    ensures |s| > k + 1 ==> Slice(s, 1, -k) == s[1..|s| - k]
  {
    if |s| > k + 1 {
      assert Slice(s, 1, -k) == s[1..|s| - k];
      assert |s[1..|s| - k]| > 0;
    }
  }

  /** When the list is longer than k > 0, its head, `s[1:-k]` and `s[-k:]`
      partition it: every element is in exactly one of the three, in order. */
  lemma Partition<T>(s: seq<T>, k: int)
    requires k > 0 && |s| > k
    ensures s == [s[0]] + Slice(s, 1, -k) + SliceFrom(s, -k)
  {
    LastElements(s, k);
    Middle(s, k);
    if |s| == k + 1 {
      assert s == [s[0]] + s[1..];
    } else {
      assert s == [s[0]] + s[1..|s| - k] + s[|s| - k..];
    }
  }
}
