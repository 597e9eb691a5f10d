/** The one-pass byte search the near arena uses to find blank memory. It never goes back in the haystack,
    so it is a correct search for exactly the needles that repeat one byte. */
module Memmem {
  import opened Common

  datatype Found = At(index: nat) | Null

  // ----- what a search should answer -----

  predicate Occurs(h: seq<Byte>, n: seq<Byte>, s: nat) {
    s + |n| <= |h| && h[s..s + |n|] == n
  }

  ghost predicate IsLeftmost(h: seq<Byte>, n: seq<Byte>, r: Found) {
    match r
    case Null => forall s: nat :: !Occurs(h, n, s)
    case At(i) => Occurs(h, n, i) && forall s: nat :: s < i ==> !Occurs(h, n, s)
  }

  /** Every byte of the needle is its first. */
  predicate Repeats(n: seq<Byte>) { forall k :: 0 <= k < |n| ==> n[k] == n[0] }

  // ----- what the code does -----

  /** The answer from haystack byte i on, with the m bytes before it matched. */
  function Search(h: seq<Byte>, n: seq<Byte>, i: nat, m: nat): Found
    requires m <= i <= |h| && m <= |n|
    decreases |h| - i
  {
    if m == |n| then At(i - m)
    else if |n| - m > |h| - i then Null
    else if n[m] != h[i] then Search(h, n, i + 1, 0)
    else Search(h, n, i + 1, m + 1)
  }

  /** memmem: `left` is l and `remaining` is haystacklen of the source. */
  method Find(haystack: seq<Byte>, needle: seq<Byte>) returns (r: Found)
    ensures r == Search(haystack, needle, 0, 0)
    ensures r.At? ==> Occurs(haystack, needle, r.index)
    ensures Repeats(needle) ==> IsLeftmost(haystack, needle, r)
  {
    var h, n, start, left, remaining := 0, 0, 0, |needle|, |haystack|;
    while left != 0 && left <= remaining
      invariant 0 <= left <= |needle| && n == |needle| - left && h == |haystack| - remaining
      invariant start + n == h <= |haystack|
      invariant Search(haystack, needle, h, n) == Search(haystack, needle, 0, 0)
      decreases remaining
    {
      var same := needle[n] == haystack[h];
      n, h := n + 1, h + 1;
      if !same {
        start, n, left := h, 0, |needle|;
      } else {
        left := left - 1;
      }
      remaining := remaining - 1;
    }
    r := if left != 0 then Null else At(start);
    Sound(haystack, needle, 0, 0);
    if Repeats(needle) {
      LeftmostFrom(haystack, needle, 0, 0);
    }
  }

  // ----- when the two agree -----

  /** Whatever the needle, an answer is an occurrence. */
  lemma {:induction false} Sound(h: seq<Byte>, n: seq<Byte>, i: nat, m: nat)
    requires m <= i <= |h| && m <= |n| && h[i - m..i] == n[..m]
    ensures Search(h, n, i, m).At? ==> Occurs(h, n, Search(h, n, i, m).index)
    decreases |h| - i
  {
    if m < |n| && |n| - m <= |h| - i {
      if n[m] != h[i] {
        Sound(h, n, i + 1, 0);
      } else {
        assert h[i - m..i + 1] == h[i - m..i] + [h[i]] && n[..m + 1] == n[..m] + [n[m]];
        Sound(h, n, i + 1, m + 1);
      }
    }
  }

  lemma DifferentByte(h: seq<Byte>, n: seq<Byte>, s: nat, i: nat)
    requires Repeats(n) && s <= i < s + |n| && i < |h| && h[i] != n[0]
    ensures !Occurs(h, n, s)
  {
    if s + |n| <= |h| {
      assert h[s..s + |n|][i - s] == h[i];
    }
  }

  lemma {:induction false} LeftmostFrom(h: seq<Byte>, n: seq<Byte>, i: nat, m: nat)
    requires m <= i <= |h| && m <= |n| && h[i - m..i] == n[..m]
    requires Repeats(n) && forall s: nat :: s < i - m ==> !Occurs(h, n, s)
    ensures IsLeftmost(h, n, Search(h, n, i, m))
    decreases |h| - i
  {
    if m < |n| && |n| - m <= |h| - i {
      if n[m] != h[i] {
        forall s: nat | s < i + 1
          ensures !Occurs(h, n, s)
        {
          if s >= i - m {
            DifferentByte(h, n, s, i);
          }
        }
        LeftmostFrom(h, n, i + 1, 0);
      } else {
        assert h[i - m..i + 1] == h[i - m..i] + [h[i]] && n[..m + 1] == n[..m] + [n[m]];
        LeftmostFrom(h, n, i + 1, m + 1);
      }
    }
  }

  /** Matching a run of the needle's first byte. */
  lemma {:induction false} MatchRun(h: seq<Byte>, n: seq<Byte>, i: nat, k: nat)
    requires i <= k < |n| && k < |h| && |n| <= |h|
    requires forall j :: 0 <= j < k ==> n[j] == h[j]
    ensures Search(h, n, i, i) == Search(h, n, k, k)
    decreases k - i
  {
    if i < k {
      MatchRun(h, n, i + 1, k);
    }
  }

  /** Any other needle is missed behind one more copy of its first byte. */
  lemma Misses(n: seq<Byte>, k: nat)
    requires k < |n| && n[k] != n[0] && forall j :: 0 <= j < k ==> n[j] == n[0]
    ensures Occurs([n[0]] + n, n, 1) && Search([n[0]] + n, n, 0, 0) == Null
  {
    var h := [n[0]] + n;
    assert h[1..1 + |n|] == n;
    MatchRun(h, n, 0, k);
    assert h[k] == n[0];
  }

  lemma {:induction false} FirstOther(n: seq<Byte>, m: nat) returns (k: nat)
    requires !Repeats(n) && m <= |n| && forall j :: 0 <= j < m ==> n[j] == n[0]
    ensures k < |n| && n[k] != n[0] && forall j :: 0 <= j < k ==> n[j] == n[0]
    decreases |n| - m
  {
    if n[m] != n[0] {
      k := m;
    } else {
      k := FirstOther(n, m + 1);
    }
  }

  /** The search is right on every haystack exactly for the needles that repeat one byte, such as the zeros
      its caller looks for. */
  lemma ExactNeedles(n: seq<Byte>)
    ensures (forall h: seq<Byte> :: IsLeftmost(h, n, Search(h, n, 0, 0))) <==> Repeats(n)
  {
    if Repeats(n) {
      forall h: seq<Byte>
        ensures IsLeftmost(h, n, Search(h, n, 0, 0))
      {
        LeftmostFrom(h, n, 0, 0);
      }
    } else {
      var k := FirstOther(n, 0);
      Misses(n, k);
      assert !IsLeftmost([n[0]] + n, n, Search([n[0]] + n, n, 0, 0));
    }
  }
}
