/** The array helpers of `src/util.ts`: copy an array and remove one
    occurrence of a target from the copy with `splice(i, 1)`, where `i` is
    the first (`dropFirst`) or last (`dropLast`) index of the target, or -1
    when it is absent. */
module ArrayUtil {
  import opened Seqs

  /** Where `splice(start, 1)` acts on an array of length `len`: a negative
      start counts back from the end and is clamped at 0, a start past the
      end is clamped to the end. The index -1 that `indexOf` reports for an
      absent target therefore selects the last element. */
  function SpliceStart(len: nat, start: int): (k: nat)
    ensures k <= len
    ensures start == -1 && len > 0 ==> k == len - 1
  {
    if start < 0 then (if len + start < 0 then 0 else len + start)
    else if start > len then len
    else start
  }

  /** The contents left by `splice(start, 1)`: the element at the clamped
      start removed, the others kept in order, or nothing removed when the
      clamped start is the end. */
  function SpliceOne<T>(s: seq<T>, start: int): (r: seq<T>)
    ensures var k := SpliceStart(|s|, start);
      && (k < |s| ==> |r| == |s| - 1 && r == s[..k] + s[k + 1..] && multiset(r) == multiset(s) - multiset{s[k]})
      && (k == |s| ==> r == s)
  {
    var k := SpliceStart(|s|, start);
    if k < |s| then
      RemoveAtMultiset(s, k);
      s[..k] + s[k + 1..]
    else s
  }

  /** The contents `dropFirst(target, array)` returns. */
  function DroppedFirst<T(==)>(target: T, s: seq<T>): seq<T>
  {
    SpliceOne(s, IndexOf(s, target))
  }

  /** The contents `dropLast(target, array)` returns. */
  function DroppedLast<T(==)>(target: T, s: seq<T>): seq<T>
  {
    SpliceOne(s, LastIndexOf(s, target))
  }

  /** `dropFirst`: a fresh array holding the argument without the first
      occurrence of `target`; the argument is left as it was. */
  method DropFirst<T(==)>(target: T, a: array<T>) returns (ret: array<T>)
    ensures fresh(ret)
    ensures a[..] == old(a[..])
    ensures ret[..] == DroppedFirst(target, a[..])
  {
    var i := IndexOf(a[..], target);
    ret := CopyAndSplice(a, i);
  }

  /** `dropLast`: a fresh array holding the argument without the last
      occurrence of `target`; the argument is left as it was. */
  method DropLast<T(==)>(target: T, a: array<T>) returns (ret: array<T>)
    ensures fresh(ret)
    ensures a[..] == old(a[..])
    ensures ret[..] == DroppedLast(target, a[..])
  {
    var i := LastIndexOf(a[..], target);
    ret := CopyAndSplice(a, i);
  }

  /** `[...a]` followed by `splice(start, 1)` on the copy. */
  method CopyAndSplice<T>(a: array<T>, start: int) returns (ret: array<T>)
    ensures fresh(ret)
    ensures ret[..] == SpliceOne(a[..], start)
  {
    var k := SpliceStart(a.Length, start);
    if k < a.Length {
      ret := new T[a.Length - 1](j requires 0 <= j < a.Length - 1 reads a => if j < k then a[j] else a[j + 1]);
      assert ret[..] == a[..][..k] + a[..][k + 1..];
    } else {
      ret := new T[a.Length](j requires 0 <= j < a.Length reads a => a[j]);
      assert ret[..] == a[..];
    }
  }

  lemma RemoveAtMultiset<T>(s: seq<T>, k: nat)
    requires k < |s|
    ensures multiset(s[..k] + s[k + 1..]) == multiset(s) - multiset{s[k]}
  {
    assert s == s[..k] + [s[k]] + s[k + 1..];
    assert multiset(s) == multiset(s[..k]) + multiset{s[k]} + multiset(s[k + 1..]);
  }

  /** A present target: its first occurrence, and only it, is removed. */
  lemma DropFirstPresent<T>(target: T, s: seq<T>)
    requires target in s
    ensures var k := IndexOf(s, target);
      && 0 <= k < |s| && s[k] == target && target !in s[..k]
      && DroppedFirst(target, s) == s[..k] + s[k + 1..]
      && multiset(DroppedFirst(target, s)) == multiset(s) - multiset{target}
  {
    RemoveAtMultiset(s, IndexOf(s, target));
  }

  /** A present target: its last occurrence, and only it, is removed. */
  lemma DropLastPresent<T>(target: T, s: seq<T>)
    requires target in s
    ensures var k := LastIndexOf(s, target);
      && 0 <= k < |s| && s[k] == target && target !in s[k + 1..]
      && DroppedLast(target, s) == s[..k] + s[k + 1..]
      && multiset(DroppedLast(target, s)) == multiset(s) - multiset{target}
  {
    RemoveAtMultiset(s, LastIndexOf(s, target));
  }

  /** An absent target: the index is -1 and `splice(-1, 1)` removes the last element. */
  lemma DropAbsent<T>(target: T, s: seq<T>)
    requires target !in s && |s| > 0
    ensures DroppedFirst(target, s) == s[..|s| - 1]
    ensures DroppedLast(target, s) == s[..|s| - 1]
  {
  }

  /** Nothing is removed from an empty array; from any other exactly one element. */
  lemma DropLength<T>(target: T, s: seq<T>)
    ensures |s| == 0 ==> DroppedFirst(target, s) == [] && DroppedLast(target, s) == []
    ensures |s| > 0 ==> |DroppedFirst(target, s)| == |s| - 1 && |DroppedLast(target, s)| == |s| - 1
  {
  }

  /** With a single occurrence, dropping the first and dropping the last agree. */
  lemma DropSingleOccurrence<T>(target: T, s: seq<T>)
    requires multiset(s)[target] == 1
    ensures DroppedFirst(target, s) == DroppedLast(target, s)
  {
    var k := IndexOf(s, target);
    var m := LastIndexOf(s, target);
    assert target in multiset(s);
    if k < m {
      TwoOccurrences(s, k, m);
      assert false;
    }
  }

  lemma TwoOccurrences<T>(s: seq<T>, k: nat, m: nat)
    requires k < m < |s| && s[k] == s[m]
    ensures multiset(s)[s[k]] >= 2
  {
    assert s == s[..k] + [s[k]] + s[k + 1..m] + [s[m]] + s[m + 1..];
  }
}
