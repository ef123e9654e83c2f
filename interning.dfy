/**
 * The insns hash table of the writer in front of the shared table, as a
 * specification on sequences: the names in slot order after a run of
 * lookups, the slots those lookups hand out, and the zero counts the new
 * slots start with.
 */
module Interning {
  import opened Strings
  import opened Shm

  /** The names after one lookup of m: unchanged when present, m appended when new. */
  function InternOne(ns: seq<string>, m: string): (r: seq<string>)
    ensures |ns| <= |r| && r[..|ns|] == ns && m in r
    ensures r == ns <==> m in ns
    ensures r != ns ==> r[|ns|..] == [m]
  {
    if m in ns then ns else ns + [m]
  }

  /** The names after looking up each of ms in turn: the distinct new ones appended in first-sighting order. */
  function Intern(ns: seq<string>, ms: seq<string>): (r: seq<string>)
    ensures forall x :: x in r <==> x in ns || x in ms
    decreases |ms|
  {
    if ms == [] then ns
    else
      var ms' := ms[..|ms| - 1];
      assert ms == ms' + [ms[|ms| - 1]];
      InternOne(Intern(ns, ms'), ms[|ms| - 1])
  }

  /** Interning only appends: the names it started from keep their slots. */
  lemma {:induction false} InternExtends(ns: seq<string>, ms: seq<string>)
    ensures |ns| <= |Intern(ns, ms)| && Intern(ns, ms)[..|ns|] == ns
    decreases |ms|
  {
    if ms != [] {
      var r' := Intern(ns, ms[..|ms| - 1]);
      InternExtends(ns, ms[..|ms| - 1]);
      assert (r' + [ms[|ms| - 1]])[..|ns|] == r'[..|ns|];
    }
  }

  predicate Distinct(ns: seq<string>)
  {
    forall i, j :: 0 <= i < j < |ns| ==> ns[i] != ns[j]
  }

  /** Each distinct mnemonic gets exactly one slot: interning keeps the names distinct. */
  lemma {:induction false} InternDistinct(ns: seq<string>, ms: seq<string>)
    requires Distinct(ns)
    ensures Distinct(Intern(ns, ms))
    decreases |ms|
  {
    if ms != [] {
      InternDistinct(ns, ms[..|ms| - 1]);
    }
  }

  /** Looking up names that are all known already changes nothing. */
  lemma {:induction false} InternKnown(ns: seq<string>, ms: seq<string>)
    requires forall x :: x in ms ==> x in ns
    ensures Intern(ns, ms) == ns
    decreases |ms|
  {
    if ms != [] {
      assert ms[|ms| - 1] in ms;
      InternKnown(ns, ms[..|ms| - 1]);
    }
  }

  /** Seeing the same mnemonics again, in any block, allocates nothing more. */
  lemma {:induction false} InternIdempotent(ns: seq<string>, ms: seq<string>)
    ensures Intern(Intern(ns, ms), ms) == Intern(ns, ms)
  {
    InternKnown(Intern(ns, ms), ms);
  }

  /** Interning a then b is interning a + b. */
  lemma {:induction false} InternAppend(ns: seq<string>, a: seq<string>, b: seq<string>)
    ensures Intern(ns, a + b) == Intern(Intern(ns, a), b)
    decreases |b|
  {
    if b == [] {
      assert a + b == a;
    } else {
      assert (a + b)[..|a + b| - 1] == a + b[..|b| - 1];
      assert (a + b)[|a + b| - 1] == b[|b| - 1];
      InternAppend(ns, a, b[..|b| - 1]);
    }
  }

  /**
   * Slots are dense in first-sighting order: of two names the interning
   * added, the one in the earlier slot was sighted first in ms.
   */
  lemma {:induction false} InternFirstSightingOrder(ns: seq<string>, ms: seq<string>, i: nat, j: nat)
    requires |ns| <= i < j < |Intern(ns, ms)|
    ensures Intern(ns, ms)[i] in ms && Intern(ns, ms)[j] in ms
    ensures IndexOf(ms, Intern(ns, ms)[i]) < IndexOf(ms, Intern(ns, ms)[j])
    decreases |ms|
  {
    var r := Intern(ns, ms);
    var ms' := ms[..|ms| - 1];
    var m := ms[|ms| - 1];
    var r' := Intern(ns, ms');
    assert ms == ms' + [m];
    if m in r' {
      InternFirstSightingOrder(ns, ms', i, j);
      IndexOfPrefix(ms', ms, r[i]);
      IndexOfPrefix(ms', ms, r[j]);
    } else {
      assert r == r' + [m];
      assert m !in ms';
      if j < |r'| {
        InternFirstSightingOrder(ns, ms', i, j);
        IndexOfPrefix(ms', ms, r[i]);
        IndexOfPrefix(ms', ms, r[j]);
      } else {
        assert r[i] == r'[i];
        InternExtends(ns, ms');
        NewNameFromMs(ns, ms', i);
        IndexOfPrefix(ms', ms, r[i]);
        assert IndexOf(ms, m) == |ms| - 1;
      }
    }
  }

  /** A name the interning added comes from ms and not from ns. */
  lemma {:induction false} NewNameFromMs(ns: seq<string>, ms: seq<string>, i: nat)
    requires |ns| <= i < |Intern(ns, ms)|
    ensures Intern(ns, ms)[i] in ms
  {
    var r := Intern(ns, ms);
    assert r[i] in r;
    NewNameNotInPrefix(ns, ms, i);
  }

  /** A name the interning added is not one of the names it started from. */
  lemma {:induction false} NewNameNotInPrefix(ns: seq<string>, ms: seq<string>, i: nat)
    requires |ns| <= i < |Intern(ns, ms)|
    ensures Intern(ns, ms)[i] !in ns
    decreases |ms|
  {
    var ms' := ms[..|ms| - 1];
    var r' := Intern(ns, ms');
    if i < |r'| {
      NewNameNotInPrefix(ns, ms', i);
    } else {
      InternExtends(ns, ms');
      assert forall x :: x in ns ==> x in r';
    }
  }

  /** The slots that registrations for the mnemonics ms point at, given the slot order ns. */
  function SlotsOf(ns: seq<string>, ms: seq<string>): (slots: seq<nat>)
    requires forall x :: x in ms ==> x in ns
    ensures |slots| == |ms|
    ensures forall k :: 0 <= k < |ms| ==> slots[k] < |ns| && ns[slots[k]] == ms[k]
  {
    seq(|ms|, k requires 0 <= k < |ms| => IndexOf(ns, ms[k]))
  }

  /** Growing the slot order does not move the slots of mnemonics already registered. */
  lemma {:induction false} SlotsOfGrow(ns: seq<string>, ns': seq<string>, ms: seq<string>)
    requires |ns| <= |ns'| && ns'[..|ns|] == ns
    requires forall x :: x in ms ==> x in ns
    ensures forall x :: x in ms ==> x in ns'
    ensures SlotsOf(ns', ms) == SlotsOf(ns, ms)
  {
    forall x | x in ms ensures x in ns' && IndexOf(ns', x) == IndexOf(ns, x) {
      IndexOfPrefix(ns, ns', x);
    }
  }

  /** Looking up one more mnemonic is one more InternOne. */
  lemma {:induction false} InternStep(ns: seq<string>, ms: seq<string>, m: string)
    ensures Intern(ns, ms + [m]) == InternOne(Intern(ns, ms), m)
  {
    assert (ms + [m])[..|ms|] == ms;
  }

  /** A single lookup: interning [m] is one InternOne, and m's one registration is its slot. */
  lemma {:induction false} InternSingle(ns: seq<string>, m: string)
    ensures Intern(ns, [m]) == InternOne(ns, m)
    ensures m in InternOne(ns, m) && SlotsOf(InternOne(ns, m), [m]) == [IndexOf(InternOne(ns, m), m)]
  {
    assert [m][..0] == [];
  }

  /** Registering the mnemonics of a then of b registers the slots of a then those of b. */
  lemma {:induction false} SlotsOfConcat(ns: seq<string>, a: seq<string>, b: seq<string>)
    requires (forall x :: x in a ==> x in ns) && (forall x :: x in b ==> x in ns)
    ensures forall x :: x in a + b ==> x in ns
    ensures SlotsOf(ns, a + b) == SlotsOf(ns, a) + SlotsOf(ns, b)
  {
    var ab := a + b;
    forall k | 0 <= k < |ab| ensures SlotsOf(ns, ab)[k] == (SlotsOf(ns, a) + SlotsOf(ns, b))[k] {
      if k < |a| {
        assert ab[k] == a[k];
      } else {
        assert ab[k] == b[k - |a|];
      }
    }
  }

  function Zeros(n: nat): (z: seq<u64>)
    ensures |z| == n && forall k :: 0 <= k < n ==> z[k] == 0
  {
    seq(n, _ => 0)
  }

  lemma {:induction false} ZerosConcat(c: seq<u64>, a: nat, b: nat)
    ensures c + Zeros(a) + Zeros(b) == c + Zeros(a + b)
  {
    assert Zeros(a) + Zeros(b) == Zeros(a + b);
  }

  /** No new slot, or one: the counts gain nothing, or one zero. */
  lemma {:induction false} ZerosNoneOrOne(c: seq<u64>)
    ensures c + Zeros(0) == c && c + Zeros(1) == c + [0]
  {
    assert Zeros(1) == [0];
  }

  /** If the table after interning a + b fits, so does the table after interning a. */
  lemma {:induction false} InternFitsPrefix(ns: seq<string>, a: seq<string>, b: seq<string>)
    requires Fits(Intern(ns, a + b))
    ensures Fits(Intern(ns, a))
  {
    InternAppend(ns, a, b);
    InternExtends(Intern(ns, a), b);
    FitsPrefix(Intern(ns, a), Intern(Intern(ns, a), b));
  }

  /**
   * The account a run of lookups leaves behind: from the names ns0 and the
   * counts cs0, looking up each of ms in turn gives the names ns, one
   * registered slot per lookup (regs) and a zero count per new slot (cs).
   */
  ghost predicate Accounts(ns0: seq<string>, cs0: seq<u64>, ms: seq<string>,
                           ns: seq<string>, regs: seq<nat>, cs: seq<u64>)
  {
    && ns == Intern(ns0, ms) && |ns0| <= |ns|
    && regs == SlotsOf(ns, ms)
    && cs == cs0 + Zeros(|ns| - |ns0|)
  }

  /** Looking up a and then b leaves the account of looking up a + b. */
  lemma {:induction false} AccountsCompose(ns0: seq<string>, cs0: seq<u64>, a: seq<string>,
                                           ns1: seq<string>, regs1: seq<nat>, cs1: seq<u64>, b: seq<string>,
                                           ns2: seq<string>, regs2: seq<nat>, cs2: seq<u64>)
    requires Accounts(ns0, cs0, a, ns1, regs1, cs1) && Accounts(ns1, cs1, b, ns2, regs2, cs2)
    ensures Accounts(ns0, cs0, a + b, ns2, regs1 + regs2, cs2)
  {
    InternAppend(ns0, a, b);
    InternExtends(ns1, b);
    SlotsOfGrow(ns1, ns2, a);
    SlotsOfConcat(ns2, a, b);
    ZerosConcat(cs0, |ns1| - |ns0|, |ns2| - |ns1|);
  }
}
