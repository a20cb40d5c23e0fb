/** Sequence and finite-set helpers shared by both dependency resolvers. */
module Seqs {

  /** The reversal both resolvers apply to every discovered list. */
  function Reverse<T>(s: seq<T>): (r: seq<T>)
    ensures |r| == |s|
    ensures forall i :: 0 <= i < |s| ==> r[i] == s[|s| - 1 - i]
  {
    if |s| == 0 then [] else Reverse(s[1..]) + [s[0]]
  }

  /** The in-place swap loop of the Go `reverse`, on a value sequence. */
  method ReverseSwap<T>(s: seq<T>) returns (r: seq<T>)
    ensures r == Reverse(s)
  {
    r := s;
    var i, j := 0, |s| - 1;
    while i < j
      invariant |r| == |s|
      invariant 0 <= i <= |s| && -1 <= j < |s| && i + j == |s| - 1
      invariant forall k :: 0 <= k < i ==> r[k] == s[|s| - 1 - k]
      invariant forall k :: j < k < |s| ==> r[k] == s[|s| - 1 - k]
      invariant forall k :: i <= k <= j ==> r[k] == s[k]
    {
      var t := r[i];
      r := r[i := r[j]][j := t];
      i, j := i + 1, j - 1;
    }
  }

  lemma ReverseInvolution<T>(s: seq<T>)
    ensures Reverse(Reverse(s)) == s
  {
    var r := Reverse(Reverse(s));
    assert forall i :: 0 <= i < |s| ==> r[i] == s[i];
  }

  lemma {:induction false} ReverseKeepsContents<T>(s: seq<T>)
    ensures multiset(Reverse(s)) == multiset(s)
  {
    if |s| > 0 {
      ReverseKeepsContents(s[1..]);
      assert s == [s[0]] + s[1..];
    }
  }

  /** Membership survives reversal. */
  lemma InReverse<T>(s: seq<T>, x: T)
    ensures x in Reverse(s) <==> x in s
  {
    ReverseKeepsContents(s);
    assert x in Reverse(s) <==> x in multiset(Reverse(s));
  }

  lemma {:induction false} ReverseAppend<T>(a: seq<T>, b: seq<T>)
    ensures Reverse(a + b) == Reverse(b) + Reverse(a)
  {
    var l, r := Reverse(a + b), Reverse(b) + Reverse(a);
    assert |l| == |r|;
    forall i | 0 <= i < |l|
      ensures l[i] == r[i]
    {
      assert l[i] == (a + b)[|a| + |b| - 1 - i];
    }
  }

  /** `s` repeated `n` times. */
  function Repeat<T>(s: seq<T>, n: nat): (r: seq<T>)
    ensures |r| == n * |s|
  {
    if n == 0 then [] else s + Repeat(s, n - 1)
  }

  lemma {:induction false} RepeatShift<T>(s: seq<T>, n: nat)
    ensures Repeat(s, n) + s == s + Repeat(s, n)
  {
    if n > 0 {
      RepeatShift(s, n - 1);
      calc {
        Repeat(s, n) + s;
        (s + Repeat(s, n - 1)) + s;
        s + (Repeat(s, n - 1) + s);
        s + (s + Repeat(s, n - 1));
      }
    }
  }

  lemma {:induction false} ReverseRepeat<T>(s: seq<T>, n: nat)
    ensures Reverse(Repeat(s, n)) == Repeat(Reverse(s), n)
  {
    if n > 0 {
      ReverseRepeat(s, n - 1);
      ReverseAppend(s, Repeat(s, n - 1));
      RepeatShift(Reverse(s), n - 1);
    }
  }

  /** No element occurs twice. */
  predicate Distinct<T(==)>(s: seq<T>) {
    forall i, j :: 0 <= i < j < |s| ==> s[i] != s[j]
  }

  lemma ReverseKeepsDistinct<T>(s: seq<T>)
    requires Distinct(s)
    ensures Distinct(Reverse(s))
  {
    var r := Reverse(s);
    forall i, j | 0 <= i < j < |r|
      ensures r[i] != r[j]
    {
      assert r[i] == s[|s| - 1 - i] && r[j] == s[|s| - 1 - j];
    }
  }

  // ----- The termination measure of both walks -----

  /** Marking one more element of `u` shrinks what is left unseen. */
  lemma SeenGrows<T>(u: set<T>, seen: set<T>, x: T)
    requires x in u && x !in seen
    ensures |u - (seen + {x})| < |u - seen|
  {
    assert u - (seen + {x}) == (u - seen) - {x};
  }

  /** A larger seen set leaves no more of `u` unseen. */
  lemma UnseenShrinks<T>(u: set<T>, seen: set<T>, seen': set<T>)
    requires seen <= seen'
    ensures |u - seen'| <= |u - seen|
  {
    var a, b := u - seen, u - seen';
    assert a == b + (a - b) && b * (a - b) == {};
  }
}
