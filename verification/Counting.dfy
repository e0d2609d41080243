/** Counting the threads that are at certain points of their code. */
module Counting {

  function Count<T>(s: seq<T>, p: T -> bool): nat {
    if s == [] then 0 else (if p(s[0]) then 1 else 0) + Count(s[1..], p)
  }

  /** One thread moved. */
  lemma {:induction false} CountUpdate<T>(s: seq<T>, i: nat, v: T, p: T -> bool)
    requires i < |s|
    ensures Count(s[i := v], p) + (if p(s[i]) then 1 else 0) == Count(s, p) + (if p(v) then 1 else 0)
  {
    if i == 0 {
      assert s[i := v][1..] == s[1..];
    } else {
      assert s[i := v][1..] == s[1..][i - 1 := v];
      CountUpdate(s[1..], i - 1, v, p);
    }
  }

  lemma {:induction false} CountPositive<T>(s: seq<T>, i: nat, p: T -> bool)
    requires i < |s| && p(s[i])
    ensures 0 < Count(s, p)
  {
    if i != 0 { CountPositive(s[1..], i - 1, p); }
  }

  lemma {:induction false} CountNone<T>(s: seq<T>, p: T -> bool)
    requires forall i :: 0 <= i < |s| ==> !p(s[i])
    ensures Count(s, p) == 0
  {
    if s != [] {
      forall i | 0 <= i < |s[1..]| ensures !p(s[1..][i]) { assert !p(s[i + 1]); }
      CountNone(s[1..], p);
    }
  }

  lemma {:induction false} CountAll<T>(s: seq<T>, p: T -> bool)
    requires forall i :: 0 <= i < |s| ==> p(s[i])
    ensures Count(s, p) == |s|
  {
    if s != [] {
      forall i | 0 <= i < |s[1..]| ensures p(s[1..][i]) { assert p(s[i + 1]); }
      CountAll(s[1..], p);
    }
  }

  /** If every `q` thread is a `p` thread, there are at most as many. */
  lemma {:induction false} CountImplies<T>(s: seq<T>, q: T -> bool, p: T -> bool)
    requires forall i :: 0 <= i < |s| && q(s[i]) ==> p(s[i])
    ensures Count(s, q) <= Count(s, p)
  {
    if s != [] {
      forall i | 0 <= i < |s[1..]| && q(s[1..][i]) ensures p(s[1..][i]) { assert p(s[i + 1]); }
      CountImplies(s[1..], q, p);
    }
  }

  /** Threads that are in exactly one of two places, counted together. */
  lemma {:induction false} CountSplit<T>(s: seq<T>, p: T -> bool, q: T -> bool, r: T -> bool)
    requires forall i :: 0 <= i < |s| ==> (r(s[i]) <==> p(s[i]) || q(s[i])) && !(p(s[i]) && q(s[i]))
    ensures Count(s, r) == Count(s, p) + Count(s, q)
  {
    if s != [] {
      forall i | 0 <= i < |s[1..]|
        ensures (r(s[1..][i]) <==> p(s[1..][i]) || q(s[1..][i])) && !(p(s[1..][i]) && q(s[1..][i]))
      {
        assert s[1..][i] == s[i + 1];
      }
      CountSplit(s[1..], p, q, r);
    }
  }

  /** A thread that is counted. */
  lemma {:induction false} CountWitness<T>(s: seq<T>, p: T -> bool) returns (i: nat)
    requires 0 < Count(s, p)
    ensures i < |s| && p(s[i])
  {
    if p(s[0]) {
      i := 0;
    } else {
      var j := CountWitness(s[1..], p);
      i := j + 1;
    }
  }
}
