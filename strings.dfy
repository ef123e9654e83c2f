/**
 * The few C-string and GLib string operations the two programs lean on:
 * strchr, strstr and the first two tokens of g_strsplit, stated on
 * sequences. A C string is modelled as the sequence of its characters
 * without the terminating NUL.
 */
module Strings {

  datatype Option<T> = None | Some(value: T)

  /** Position of the first x in s at or after from (C's strchr on s + from). */
  function IndexOfFrom<T(==)>(s: seq<T>, from: nat, x: T): (p: nat)
    requires from <= |s| && x in s[from..]
    ensures from <= p < |s| && s[p] == x
    decreases |s| - from
  {
    if s[from] == x then from
    else
      assert s[from..] == [s[from]] + s[from + 1..];
      IndexOfFrom(s, from + 1, x)
  }

  /** Position of the first x in s. */
  function IndexOf<T(==)>(s: seq<T>, x: T): (p: nat)
    requires x in s
    ensures p < |s| && s[p] == x
  {
    assert s[0..] == s;
    IndexOfFrom(s, 0, x)
  }

  /** No x lies between from and the position IndexOfFrom reports: it is the first. */
  lemma {:induction false} IndexOfFromFirst<T>(s: seq<T>, from: nat, x: T)
    requires from <= |s| && x in s[from..]
    ensures forall k :: from <= k < IndexOfFrom(s, from, x) ==> s[k] != x
    decreases |s| - from
  {
    if s[from] != x {
      assert s[from..] == [s[from]] + s[from + 1..];
      IndexOfFromFirst(s, from + 1, x);
    }
  }

  /** No x lies before the position IndexOf reports: it is the first. */
  lemma {:induction false} IndexOfFirst<T>(s: seq<T>, x: T)
    requires x in s
    ensures forall k :: 0 <= k < IndexOf(s, x) ==> s[k] != x
  {
    assert s[0..] == s;
    IndexOfFromFirst(s, 0, x);
  }

  /** Extending a sequence does not move the first occurrence of an element it already holds. */
  lemma {:induction false} IndexOfPrefix<T>(a: seq<T>, b: seq<T>, x: T)
    requires |a| <= |b| && b[..|a|] == a && x in a
    ensures x in b && IndexOf(b, x) == IndexOf(a, x)
  {
    var p := IndexOf(a, x);
    assert b[p] == a[p];
    IndexOfFirst(a, x);
    IndexOfFirst(b, x);
  }

  /** The table t indexes s: it maps exactly the elements of s, each to its position. */
  ghost predicate Indexes<T>(t: map<T, nat>, s: seq<T>)
  {
    && (forall x :: x in t ==> t[x] < |s| && s[t[x]] == x)
    && (forall i :: 0 <= i < |s| ==> s[i] in t && t[s[i]] == i)
  }

  /** Entering a new element under the next position keeps the table an index of the extended sequence. */
  lemma {:induction false} IndexesAppend<T>(t: map<T, nat>, s: seq<T>, x: T)
    requires Indexes(t, s) && x !in s
    ensures Indexes(t[x := |s|], s + [x])
  {
    var t', s' := t[x := |s|], s + [x];
    forall y | y in t' ensures t'[y] < |s'| && s'[t'[y]] == y {
      if y != x {
        assert s'[t[y]] == s[t[y]];
      }
    }
    forall i | 0 <= i < |s'| ensures s'[i] in t' && t'[s'[i]] == i {
      if i < |s| {
        assert s'[i] == s[i];
        assert s[i] != x;
      }
    }
  }

  /** The text before the first c, or all of s when c does not occur: token 0 of g_strsplit(s, c). */
  function Before(s: string, c: char): (r: string)
    ensures |r| <= |s| && r == s[..|r|]
    ensures c !in r
    ensures |r| < |s| ==> s[|r|] == c
  {
    if c in s then
      IndexOfFirst(s, c);
      s[..IndexOf(s, c)]
    else s
  }

  /** pat occurs in s starting at position i. */
  ghost predicate MatchAt(pat: string, s: string, i: int)
  {
    0 <= i <= |s| - |pat| && s[i..i + |pat|] == pat
  }

  /** pat occurs somewhere inside s. */
  ghost predicate OccursIn(pat: string, s: string)
  {
    exists i :: MatchAt(pat, s, i)
  }

  lemma {:induction false} OccursInTail(pat: string, s: string)
    requires |pat| <= |s| && s[..|pat|] != pat
    ensures OccursIn(pat, s) <==> OccursIn(pat, s[1..])
  {
    if OccursIn(pat, s) {
      var i :| MatchAt(pat, s, i);
      assert i != 0;
      TailSlice(s, i, |pat|);
      assert MatchAt(pat, s[1..], i - 1);
    }
    if OccursIn(pat, s[1..]) {
      var j :| MatchAt(pat, s[1..], j);
      TailSlice(s, j + 1, |pat|);
      assert MatchAt(pat, s, j + 1);
    }
  }

  /** A slice of s[1..] is the slice of s one position further on. */
  lemma {:induction false} TailSlice(s: string, i: nat, n: nat)
    requires 1 <= i && i + n <= |s|
    ensures s[1..][i - 1..i - 1 + n] == s[i..i + n]
  {
    var l, r := s[1..][i - 1..i - 1 + n], s[i..i + n];
    forall k | 0 <= k < n ensures l[k] == r[k] {
      assert s[1..][i - 1 + k] == s[i + k];
    }
  }

  /** strstr(s, pat) != NULL. */
  function Contains(s: string, pat: string): (b: bool)
    ensures b <==> OccursIn(pat, s)
    decreases |s|
  {
    if |s| < |pat| then false
    else if s[..|pat|] == pat then
      assert MatchAt(pat, s, 0);
      true
    else
      OccursInTail(pat, s);
      Contains(s[1..], pat)
  }
}
