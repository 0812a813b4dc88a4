/** Sequences of mark identities: distinctness, removal of one identity, consecutive runs. */
module Seqs {

  /** Concatenation regroups freely. */
  lemma Associative<T>(a: seq<T>, b: seq<T>, c: seq<T>)
    ensures a + (b + c) == (a + b) + c
  {
  }

  predicate Distinct(s: seq<nat>) {
    forall i, j | 0 <= i < j < |s| :: s[i] != s[j]
  }

  /** s with every occurrence of x removed, order kept. */
  function Without(s: seq<nat>, x: nat): (r: seq<nat>)
    ensures forall y :: y in r <==> y in s && y != x
    ensures |r| <= |s|
  {
    if s == [] then [] else (if s[0] == x then [] else [s[0]]) + Without(s[1..], x)
  }

  lemma {:induction false} WithoutAppend(a: seq<nat>, b: seq<nat>, x: nat)
    ensures Without(a + b, x) == Without(a, x) + Without(b, x)
  {
    if a == [] {
      assert a + b == b;
    } else {
      assert (a + b)[1..] == a[1..] + b;
      WithoutAppend(a[1..], b, x);
      var head := if a[0] == x then [] else [a[0]];
      assert head + (Without(a[1..], x) + Without(b, x)) == (head + Without(a[1..], x)) + Without(b, x);
    }
  }

  lemma {:induction false} WithoutDistinct(s: seq<nat>, x: nat)
    requires Distinct(s)
    ensures Distinct(Without(s, x))
  {
    if s != [] {
      assert Distinct(s[1..]) by {
        forall i, j | 0 <= i < j < |s[1..]| ensures s[1..][i] != s[1..][j] {
          assert s[1..][i] == s[i + 1] && s[1..][j] == s[j + 1];
        }
      }
      WithoutDistinct(s[1..], x);
      assert s[0] !in s[1..] by {
        forall k | 0 <= k < |s[1..]| ensures s[1..][k] != s[0] {
          assert s[1..][k] == s[k + 1];
        }
      }
    }
  }

  /** start, start + 1, ..., start + n - 1. */
  function Consecutive(start: nat, n: nat): (r: seq<nat>)
    ensures |r| == n && forall i | 0 <= i < n :: r[i] == start + i
  {
    seq(n, i requires 0 <= i < n => start + i)
  }

  lemma ConsecutiveAppend(start: nat, a: nat, b: nat)
    ensures Consecutive(start, a) + Consecutive(start + a, b) == Consecutive(start, a + b)
  {
  }

  lemma ConsecutiveDistinct(start: nat, n: nat)
    ensures Distinct(Consecutive(start, n))
    ensures forall x :: x in Consecutive(start, n) <==> start <= x < start + n
  {
    var c := Consecutive(start, n);
    forall x | start <= x < start + n ensures x in c {
      assert c[x - start] == x;
    }
  }
}
