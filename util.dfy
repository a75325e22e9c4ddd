/** Small value types and sequence scans shared by every part of the model. */
module Util {

  datatype Option<T> = None | Some(value: T)

  datatype Result<T> = Ok(value: T) | Err(code: int)

  /**
   * The index of the first element that satisfies `p`: what a C `for` loop
   * over a table that `break`s at the first hit computes.
   */
  function FirstWhere<T>(s: seq<T>, p: T -> bool): (r: Option<nat>)
    ensures r.Some? ==> r.value < |s| && p(s[r.value])
    ensures r.Some? ==> forall j :: 0 <= j < r.value ==> !p(s[j])
    ensures r.None? <==> forall j :: 0 <= j < |s| ==> !p(s[j])
  {
    if |s| == 0 then None
    else if p(s[0]) then Some(0)
    else match FirstWhere(s[1..], p)
      case None => None
      case Some(i) => Some(i + 1)
  }

  /** Number of occurrences of `x` in `s`. */
  function Count<T(==)>(s: seq<T>, x: T): (n: nat)
    ensures n <= |s|
    ensures n == 0 <==> x !in s
  {
    if |s| == 0 then 0 else (if s[0] == x then 1 else 0) + Count(s[1..], x)
  }

  lemma {:induction false} CountSnoc<T>(s: seq<T>, y: T, x: T)
    ensures Count(s + [y], x) == Count(s, x) + (if y == x then 1 else 0)
  {
    if |s| == 0 {
      assert s + [y] == [y];
    } else {
      assert (s + [y])[1..] == s[1..] + [y];
      CountSnoc(s[1..], y, x);
    }
  }

  /** A prefix holds no more occurrences than the whole sequence. */
  lemma {:induction false} CountPrefix<T>(s: seq<T>, i: nat, x: T)
    requires i <= |s|
    ensures Count(s[..i], x) <= Count(s, x)
    decreases |s| - i
  {
    if i == |s| {
      assert s[..i] == s;
    } else {
      CountPrefix(s, i + 1, x);
      assert s[..i + 1] == s[..i] + [s[i]];
      CountSnoc(s[..i], s[i], x);
    }
  }

  /** Overwriting one element moves one occurrence from the old value to the new one. */
  lemma {:induction false} CountUpdate<T>(s: seq<T>, k: nat, v: T, x: T)
    requires k < |s|
    ensures Count(s[k := v], x) == Count(s, x) - (if s[k] == x then 1 else 0) + (if v == x then 1 else 0)
    decreases k
  {
    if k == 0 {
      assert s[k := v][1..] == s[1..];
    } else {
      assert s[k := v][1..] == s[1..][k - 1 := v];
      CountUpdate(s[1..], k - 1, v, x);
    }
  }

  /** `a` is `b` with some elements deleted, the rest kept in order. */
  predicate Subseq<T(==)>(a: seq<T>, b: seq<T>)
    decreases |b|
  {
    |a| == 0 || (|b| > 0 && (Subseq(a, b[1..]) || (a[0] == b[0] && Subseq(a[1..], b[1..]))))
  }

  lemma {:induction false} SubseqRefl<T>(a: seq<T>)
    ensures Subseq(a, a)
  {
    if |a| > 0 {
      SubseqRefl(a[1..]);
    }
  }

  /** A subsequence of `b` with its k-th element deleted is a subsequence of `b`. */
  lemma {:induction false} SubseqDropOne<T>(a: seq<T>, b: seq<T>, k: nat)
    requires k < |b|
    requires Subseq(a, b[..k] + b[k + 1..])
    ensures Subseq(a, b)
    decreases k
  {
    if |a| > 0 {
      if k == 0 {
        assert b[..k] + b[k + 1..] == b[1..];
      } else {
        var c := b[..k] + b[k + 1..];
        assert c[0] == b[0];
        assert c[1..] == b[1..][..k - 1] + b[1..][k..];
        if Subseq(a, c[1..]) {
          SubseqDropOne(a, b[1..], k - 1);
        } else {
          SubseqDropOne(a[1..], b[1..], k - 1);
        }
      }
    }
  }
}
