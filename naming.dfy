/**
 * The " (N)" de-duplication used both by the Save As name cleaner of the WOPI
 * files endpoint and by the mail-merge target of the user interface: a name
 * "base.ext" that is taken is retried as "base (2).ext", "base (3).ext", ...
 * until one is free.
 */
module Naming {
  import opened Php

  /** The N-th retry name: "base (N).ext" (a trailing period when there is no extension). */
  function Candidate(base: string, ext: string, n: nat): string {
    base + " (" + NatToString(n) + ")." + ext
  }

  /** Different retry numbers give different names. */
  lemma CandidateInjective(dir: string, base: string, ext: string, n: nat, m: nat)
    requires dir + Candidate(base, ext, n) == dir + Candidate(base, ext, m)
    ensures n == m
  {
    var a, b := NatToString(n), NatToString(m);
    var x, y := dir + Candidate(base, ext, n), dir + Candidate(base, ext, m);
    var pre, post := dir + base + " (", ")." + ext;
    assert x == pre + a + post;
    assert y == pre + b + post;
    assert |a| == |b|;
    assert a == x[|pre|..|pre| + |a|];
    assert b == y[|pre|..|pre| + |b|];
    NatToStringInjective(n, m);
  }

  /** All retries up to `n` taken means at least n - 2 names are taken. */
  lemma {:induction false} CandidatesBound(dir: string, base: string, ext: string, n: nat, taken: set<string>)
    requires n >= 2
    requires forall k :: 2 <= k < n ==> dir + Candidate(base, ext, k) in taken
    ensures n - 2 <= |taken|
  {
    if n > 2 {
      var last := dir + Candidate(base, ext, n - 1);
      var rest := taken - {last};
      forall k | 2 <= k < n - 1
        ensures dir + Candidate(base, ext, k) in rest
      {
        if dir + Candidate(base, ext, k) == last {
          CandidateInjective(dir, base, ext, k, n - 1);
        }
      }
      CandidatesBound(dir, base, ext, n - 1, rest);
    }
  }

  /**
   * The first retry number from `n` on whose name is free, given that every retry
   * before `n` is taken. It exists because only finitely many names are taken.
   */
  function FirstFree(dir: string, base: string, ext: string, n: nat, taken: set<string>): (m: nat)
    requires n >= 2
    requires forall k :: 2 <= k < n ==> dir + Candidate(base, ext, k) in taken
    ensures m >= n
    ensures dir + Candidate(base, ext, m) !in taken
    ensures forall k :: 2 <= k < m ==> dir + Candidate(base, ext, k) in taken
    decreases |taken| + 2 - n
  {
    if dir + Candidate(base, ext, n) in taken then
      CandidatesBound(dir, base, ext, n + 1, taken);
      FirstFree(dir, base, ext, n + 1, taken)
    else n
  }

  /**
   * The name the de-duplication settles on for `first` = "base.ext" in `dir`:
   * `first` itself when free, otherwise the first free "base (N).ext".
   */
  function Unique(dir: string, first: string, base: string, ext: string, taken: set<string>): (r: string)
    ensures r !in taken
    ensures dir + first !in taken ==> r == dir + first
    ensures dir + first in taken ==> exists n :: n >= 2 && r == dir + Candidate(base, ext, n)
  {
    if dir + first !in taken then dir + first
    else dir + Candidate(base, ext, FirstFree(dir, base, ext, 2, taken))
  }

  /** The first retry is "(2)", and the chosen number is the smallest free one. */
  lemma UniqueIsFirst(dir: string, first: string, base: string, ext: string, taken: set<string>, n: nat)
    requires dir + first in taken
    requires n >= 2 && dir + Candidate(base, ext, n) !in taken
    requires forall k :: 2 <= k < n ==> dir + Candidate(base, ext, k) in taken
    ensures Unique(dir, first, base, ext, taken) == dir + Candidate(base, ext, n)
  {
    var m := FirstFree(dir, base, ext, 2, taken);
    assert !(m < n) && !(m > n);
  }

  /**
   * The state of a retry loop: `count` retries made, `file` the name tried
   * last, every name tried before it taken.
   */
  predicate Retrying(dir: string, first: string, base: string, ext: string, taken: set<string>,
                     count: nat, file: string) {
    && (count == 0 ==> file == first)
    && (count > 0 ==> file == Candidate(base, ext, count + 1) && dir + first in taken)
    && (forall k :: 2 <= k <= count ==> dir + Candidate(base, ext, k) in taken)
  }

  /** One more retry keeps the loop state, and the number of retries stays bounded by the taken names. */
  lemma RetryStep(dir: string, first: string, base: string, ext: string, taken: set<string>,
                  count: nat, file: string)
    requires Retrying(dir, first, base, ext, taken, count, file)
    requires dir + file in taken
    ensures Retrying(dir, first, base, ext, taken, count + 1, Candidate(base, ext, count + 2))
    ensures count <= |taken|
  {
    if count > 0 {
      CandidatesBound(dir, base, ext, count + 2, taken);
    }
  }

  /** When the loop stops, its name is the one Unique chooses, the first free retry from (2) on. */
  lemma RetryDone(dir: string, first: string, base: string, ext: string, taken: set<string>,
                  count: nat, file: string)
    requires Retrying(dir, first, base, ext, taken, count, file)
    requires dir + file !in taken
    ensures dir + file == Unique(dir, first, base, ext, taken)
    ensures dir + first in taken ==>
      exists n :: (n >= 2 && dir + file == dir + Candidate(base, ext, n)
                   && forall k :: 2 <= k < n ==> dir + Candidate(base, ext, k) in taken)
  {
    if count > 0 {
      UniqueIsFirst(dir, first, base, ext, taken, count + 1);
    }
  }
}
