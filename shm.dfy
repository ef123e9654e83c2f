/**
 * The binary table that the writer plugin (insncounts.c) and the reader
 * tool (insncountsctl.c) share through one file under /dev/shm.
 *
 * The mapping is ShmTotalSize bytes: a count region of ShmCountSize bytes
 * holding 16-byte Counter slots from offset 0, then a name region of
 * ShmInameSize bytes holding NUL-terminated mnemonics. A slot's inameOff
 * is an absolute offset into the mapping; 0 marks an unused slot.
 *
 * The count region is modelled slot by slot (slot i sits at byte offset
 * SlotSize * i); the name region is an array of characters in which the
 * absolute offset off is element off - ShmCountSize.
 */
module Shm {

  const ShmCountSize: nat := 128 * 1024
  const ShmInameSize: nat := 128 * 1024
  const ShmTotalSize: nat := ShmCountSize + ShmInameSize
  /** sizeof(Counter) */
  const SlotSize: nat := 16
  const SlotCount: nat := ShmCountSize / SlotSize

  newtype u64 = x: int | 0 <= x < 0x1_0000_0000_0000_0000

  const U64Max: u64 := 0xFFFF_FFFF_FFFF_FFFF

  /** One 16-byte slot of the count region. */
  datatype Counter = Counter(count: u64, inameOff: u64)

  /** The contents of the shared file once it is mapped. */
  class Store {
    const slots: array<Counter>
    const names: array<char>

    predicate Valid()
    {
      slots.Length == SlotCount && names.Length == ShmInameSize
    }

    /** Every byte of the file is 0: each slot is {0, 0} and each name byte NUL. */
    ghost predicate Zeroed()
      reads slots, names
    {
      && (forall i :: 0 <= i < slots.Length ==> slots[i] == Counter(0, 0))
      && (forall k :: 0 <= k < names.Length ==> names[k] == '\0')
    }

    /** A file truncated to zero and grown back to ShmTotalSize bytes: all zero. */
    constructor ()
      ensures Valid() && fresh(slots) && fresh(names) && Zeroed()
    {
      slots := new Counter[SlotCount](_ => Counter(0, 0));
      names := new char[ShmInameSize](_ => '\0');
    }

    /**
     * The writes of a first sighting into the mapped memory: slot `slot`
     * becomes {count 0, off} and m with its NUL is copied to absolute
     * offset off. At the growth offsets of a table holding ns, the table
     * then holds ns + [m].
     */
    method Record(ghost ns: seq<string>, m: string, slot: nat, off: nat)
      requires Valid() && Layout(slots[..], names[..], ns) && '\0' !in m && Fits(ns + [m])
      requires slot == |ns| && off == NameEnd(ns)
      modifies slots, names
      ensures slots[..] == old(slots[..])[slot := Counter(0, off as u64)]
      ensures names[..] == Overwrite(old(names[..]), off - ShmCountSize, m + ['\0'])
      ensures Layout(slots[..], names[..], ns + [m])
    {
      ghost var s0, n0 := slots[..], names[..];
      PackedAppend(ns, m);
      // the new slot: count 0, name at the current name offset
      slots[slot] := Counter(0, off as u64);
      // the name and its NUL, copied to the current name offset
      CopyName(names, off - ShmCountSize, m + ['\0']);
      AppendLayout(s0, n0, ns, m, slots[..], names[..]);
    }
  }

  /**
   * The files under /dev/shm, by path: those of the full ShmTotalSize
   * bytes with their contents, and those that exist but hold 0 bytes.
   */
  class ShmDir {
    var files: map<string, Store>
    var empty: set<string>

    ghost predicate Valid()
      reads this
    {
      && (forall p :: p in files ==> files[p].Valid())
      && (forall p :: p in empty ==> p !in files)
    }

    /** open(p, O_CREAT) succeeding: a missing file is created with 0 bytes. */
    method Create(p: string)
      requires Valid()
      modifies this
      ensures Valid() && files == old(files)
      ensures empty == if p in old(files) then old(empty) else old(empty) + {p}
    {
      if p !in files {
        empty := empty + {p};
      }
    }

    /** ftruncate(p, 0) succeeding: the file holds 0 bytes. */
    method Shrink(p: string)
      requires Valid()
      modifies this
      ensures Valid() && files == old(files) - {p} && empty == old(empty) + {p}
    {
      files := files - {p};
      empty := empty + {p};
    }

    /** ftruncate(p, ShmTotalSize) on an empty file succeeding: a full-size file of zeros. */
    method Grow(p: string) returns (s: Store)
      requires Valid()
      modifies this
      ensures Valid() && files == old(files)[p := s] && empty == old(empty) - {p}
      ensures fresh(s) && fresh(s.slots) && fresh(s.names) && s.Valid() && s.Zeroed()
    {
      s := new Store();
      files := files[p := s];
      empty := empty - {p};
    }
  }

  const ShmPrefix: string := "/dev/shm/insncounts."
  /** sizeof(path) in both programs; snprintf keeps at most PathBufSize - 1 characters. */
  const PathBufSize: nat := 256

  /** The backing file of a target; writer and reader build it the same way, snprintf truncation included. */
  function ShmPath(target: string): (path: string)
    ensures |path| == if |ShmPrefix| + |target| < PathBufSize then |ShmPrefix| + |target| else PathBufSize - 1
    ensures path == (ShmPrefix + target)[..|path|]
  {
    var full := ShmPrefix + target;
    if |full| < PathBufSize then full else full[..PathBufSize - 1]
  }

  /** Distinct targets short enough to escape truncation never share a backing file. */
  lemma {:induction false} ShmPathInjective(t1: string, t2: string)
    requires |ShmPrefix| + |t1| < PathBufSize && |ShmPrefix| + |t2| < PathBufSize
    requires ShmPath(t1) == ShmPath(t2)
    ensures t1 == t2
  {
    assert t1 == ShmPath(t1)[|ShmPrefix|..];
    assert t2 == ShmPath(t2)[|ShmPrefix|..];
  }

  /** Longer targets that agree up to the truncation point do share one. */
  lemma {:induction false} ShmPathTruncates(t1: string, t2: string)
    requires |ShmPrefix| + |t1| >= PathBufSize && |ShmPrefix| + |t2| >= PathBufSize
    requires t1[..PathBufSize - 1 - |ShmPrefix|] == t2[..PathBufSize - 1 - |ShmPrefix|]
    ensures ShmPath(t1) == ShmPath(t2)
  {
    var k := PathBufSize - 1 - |ShmPrefix|;
    assert (ShmPrefix + t1)[..PathBufSize - 1] == ShmPrefix + t1[..k];
    assert (ShmPrefix + t2)[..PathBufSize - 1] == ShmPrefix + t2[..k];
  }

  /** The names ns, each followed by its NUL, back to back: what the name region starts with. */
  function Packed(ns: seq<string>): seq<char>
    decreases |ns|
  {
    if ns == [] then []
    else Packed(ns[..|ns| - 1]) + ns[|ns| - 1] + ['\0']
  }

  /** The first free name offset once the names ns are stored, in order, from ShmCountSize. */
  function NameEnd(ns: seq<string>): nat
  {
    ShmCountSize + |Packed(ns)|
  }

  /** The offset at which the i-th name of ns is stored. */
  function NameStart(ns: seq<string>, i: nat): nat
    requires i < |ns|
  {
    NameEnd(ns[..i])
  }

  /** The names before position j end no later than the names before a later position k. */
  lemma {:induction false} NameEndPrefix(ns: seq<string>, j: nat, k: nat)
    requires j < k <= |ns|
    ensures NameEnd(ns[..j]) + |ns[j]| + 1 <= NameEnd(ns[..k])
    decreases k
  {
    assert ns[..k][..k - 1] == ns[..k - 1] && ns[..k][k - 1] == ns[k - 1];
    if j < k - 1 {
      NameEndPrefix(ns, j, k - 1);
    }
  }

  /** Name offsets are positive and strictly increasing. */
  lemma {:induction false} NameStartIncreasing(ns: seq<string>, i: nat, j: nat)
    requires i < j < |ns|
    ensures ShmCountSize <= NameStart(ns, i) < NameStart(ns, j)
  {
    NameEndPrefix(ns, i, j);
  }

  /** The text n followed by a NUL lies at absolute offset off of the name region. */
  ghost predicate NameStored(names: seq<char>, off: int, n: string)
  {
    && ShmCountSize <= off
    && off - ShmCountSize + |n| < |names|
    && names[off - ShmCountSize..off - ShmCountSize + |n|] == n
    && names[off - ShmCountSize + |n|] == '\0'
  }

  /** Whether the names ns, in allocation order, fit into the store. */
  ghost predicate Fits(ns: seq<string>)
  {
    |ns| <= SlotCount && NameEnd(ns) <= ShmTotalSize
  }

  lemma {:induction false} FitsPrefix(ns: seq<string>, ns': seq<string>)
    requires |ns| <= |ns'| && ns'[..|ns|] == ns && Fits(ns')
    ensures Fits(ns)
  {
    assert ns'[..|ns'|] == ns';
    if |ns| < |ns'| {
      NameEndPrefix(ns', |ns|, |ns'|);
    }
  }

  /** n NUL characters. */
  function Nuls(n: nat): (z: seq<char>)
    ensures |z| == n && forall k :: 0 <= k < n ==> z[k] == '\0'
  {
    seq(n, _ => '\0')
  }

  /** Each name can be read back, NUL included, at its allocation offset. */
  lemma {:induction false} PackedStores(ns: seq<string>, i: nat)
    requires i < |ns|
    ensures NameStored(Packed(ns), NameStart(ns, i), ns[i])
    decreases |ns|
  {
    var init := ns[..|ns| - 1];
    var p, q := Packed(init), Packed(ns);
    assert q == p + ns[|ns| - 1] + ['\0'];
    if i == |ns| - 1 {
      assert ns[..i] == init;
      assert q[|p|..|p| + |ns[i]|] == ns[i];
    } else {
      assert init[..i] == ns[..i] && init[i] == ns[i];
      PackedStores(init, i);
      var off := NameStart(ns, i) - ShmCountSize;
      assert q[..|p|] == p;
      assert q[off..off + |ns[i]|] == p[off..off + |ns[i]|];
    }
  }

  /**
   * The table holds exactly the names ns: slot i names ns[i] at its
   * allocation offset, every later slot is all zero, and the name region
   * holds the names back to back, each NUL-terminated, then zeros.
   * Counts of used slots are free.
   */
  ghost predicate Layout(slots: seq<Counter>, names: seq<char>, ns: seq<string>)
  {
    && |slots| == SlotCount
    && Fits(ns)
    && (forall i :: 0 <= i < |ns| ==> '\0' !in ns[i])
    && (forall i :: 0 <= i < |ns| ==> slots[i].inameOff as int == NameStart(ns, i))
    && (forall i :: |ns| <= i < |slots| ==> slots[i] == Counter(0, 0))
    && names == Packed(ns) + Nuls(ShmInameSize - |Packed(ns)|)
  }

  /**
   * The writer's view of a mapped store: it holds exactly the names ns, and
   * the two growth offsets point just past the last slot and the last name.
   */
  ghost predicate Mapped(store: Store, ns: seq<string>, countOff: nat, inameOff: nat)
    reads store.slots, store.names
  {
    && store.Valid()
    && Layout(store.slots[..], store.names[..], ns)
    && countOff == SlotSize * |ns|
    && inameOff == NameEnd(ns)
  }

  /** A zeroed store holds no names. */
  lemma {:induction false} ZeroLayout(slots: seq<Counter>, names: seq<char>)
    requires |slots| == SlotCount && |names| == ShmInameSize
    requires forall i :: 0 <= i < |slots| ==> slots[i] == Counter(0, 0)
    requires forall k :: 0 <= k < |names| ==> names[k] == '\0'
    ensures Layout(slots, names, [])
  {
    assert names == Nuls(ShmInameSize);
  }

  /** Only the inameOff fields of used slots matter to the layout, not their counts. */
  lemma {:induction false} LayoutIgnoresCounts(slots: seq<Counter>, slots': seq<Counter>, names: seq<char>, ns: seq<string>)
    requires Layout(slots, names, ns) && |slots'| == |slots|
    requires forall i :: 0 <= i < |ns| ==> slots'[i].inameOff == slots[i].inameOff
    requires forall i :: |ns| <= i < |slots| ==> slots'[i] == slots[i]
    ensures Layout(slots', names, ns)
  {
  }

  /** Appending a name m puts it, NUL-terminated, at the old end. */
  lemma {:induction false} PackedAppend(ns: seq<string>, m: string)
    ensures NameStart(ns + [m], |ns|) == NameEnd(ns)
    ensures NameEnd(ns + [m]) == NameEnd(ns) + |m| + 1
    ensures Packed(ns + [m]) == Packed(ns) + m + ['\0']
  {
    assert (ns + [m])[..|ns|] == ns;
  }

  /** The starts of the first names do not move when a name is appended. */
  lemma {:induction false} NameStartAppend(ns: seq<string>, m: string)
    ensures forall i :: 0 <= i < |ns| ==> NameStart(ns + [m], i) == NameStart(ns, i)
    ensures NameStart(ns + [m], |ns|) == NameEnd(ns)
    ensures NameEnd(ns + [m]) == NameEnd(ns) + |m| + 1
  {
    var ns' := ns + [m];
    PackedAppend(ns, m);
    forall i | 0 <= i < |ns| ensures NameStart(ns', i) == NameStart(ns, i) {
      assert ns'[..i] == ns[..i];
    }
  }

  /** a with the elements from position at on replaced by src (memcpy into a buffer). */
  function Overwrite<T>(a: seq<T>, at: nat, src: seq<T>): (r: seq<T>)
    requires at + |src| <= |a|
    ensures |r| == |a|
  {
    seq(|a|, k requires 0 <= k < |a| => if at <= k < at + |src| then src[k - at] else a[k])
  }

  /** Copying src over the start of the zeros that follow p appends src to p. */
  lemma {:induction false} OverwriteNuls(a: seq<char>, p: seq<char>, n: nat, at: nat, src: seq<char>)
    requires a == p + Nuls(n) && at == |p| && |src| <= n
    ensures Overwrite(a, at, src) == p + src + Nuls(n - |src|)
  {
    assert a[..at] == p;
    assert a[at + |src|..] == Nuls(n - |src|);
  }

  /** The name region after copying m and its NUL to the first free name offset. */
  lemma {:induction false} AppendName(names: seq<char>, p: seq<char>, m: string, names': seq<char>)
    requires |p| + |m| + 1 <= ShmInameSize && names == p + Nuls(ShmInameSize - |p|)
    requires names' == Overwrite(names, |p|, m + ['\0'])
    ensures names' == p + m + ['\0'] + Nuls(ShmInameSize - (|p| + |m| + 1))
  {
    OverwriteNuls(names, p, ShmInameSize - |p|, |p|, m + ['\0']);
    assert p + (m + ['\0']) == p + m + ['\0'];
  }

  /** The same name region, read as the packed names ns + [m]. */
  lemma {:induction false} AppendPacked(names': seq<char>, ns: seq<string>, m: string)
    requires |Packed(ns)| + |m| + 1 <= ShmInameSize
    requires names' == Packed(ns) + m + ['\0'] + Nuls(ShmInameSize - (|Packed(ns)| + |m| + 1))
    ensures names' == Packed(ns + [m]) + Nuls(ShmInameSize - |Packed(ns + [m])|)
  {
    PackedAppend(ns, m);
  }

  /** Copying m and its NUL to the end of the packed names ns gives the packed names ns + [m]. */
  lemma {:induction false} AppendNames(names: seq<char>, ns: seq<string>, m: string, names': seq<char>)
    requires |Packed(ns)| + |m| + 1 <= ShmInameSize
    requires names == Packed(ns) + Nuls(ShmInameSize - |Packed(ns)|)
    requires names' == Overwrite(names, |Packed(ns)|, m + ['\0'])
    ensures names' == Packed(ns + [m]) + Nuls(ShmInameSize - |Packed(ns + [m])|)
  {
    AppendName(names, Packed(ns), m, names');
    AppendPacked(names', ns, m);
  }

  /** The slot table after filling in slot |ns| for a new name m. */
  lemma {:induction false} AppendSlot(slots: seq<Counter>, ns: seq<string>, m: string, slots': seq<Counter>)
    requires |slots| == SlotCount && |ns| < SlotCount
    requires forall i :: 0 <= i < |ns| ==> slots[i].inameOff as int == NameStart(ns, i)
    requires forall i :: |ns| <= i < |slots| ==> slots[i] == Counter(0, 0)
    requires NameEnd(ns) < 0x1_0000_0000_0000_0000
    requires slots' == slots[|ns| := Counter(0, NameEnd(ns) as u64)]
    ensures forall i :: 0 <= i < |ns| + 1 ==> slots'[i].inameOff as int == NameStart(ns + [m], i)
    ensures forall i :: |ns| + 1 <= i < |slots'| ==> slots'[i] == Counter(0, 0)
  {
    NameStartAppend(ns, m);
  }

  /**
   * Appending the slot and the name of a new mnemonic m at the two growth
   * offsets turns a table holding ns into one holding ns + [m].
   */
  lemma {:induction false} AppendLayout(slots: seq<Counter>, names: seq<char>, ns: seq<string>, m: string,
                     slots': seq<Counter>, names': seq<char>)
    requires Layout(slots, names, ns) && '\0' !in m && Fits(ns + [m])
    requires slots' == slots[|ns| := Counter(0, NameEnd(ns) as u64)]
    requires names' == Overwrite(names, NameEnd(ns) - ShmCountSize, m + ['\0'])
    ensures Layout(slots', names', ns + [m])
  {
    PackedAppend(ns, m);
    AppendNames(names, ns, m, names');
    AppendSlot(slots, ns, m, slots');
    assert forall i :: 0 <= i < |ns| + 1 ==> '\0' !in (ns + [m])[i];
  }

  /** memcpy(names + at, src, |src|) */
  method CopyName(names: array<char>, at: nat, src: seq<char>)
    requires at + |src| <= names.Length
    modifies names
    ensures names[..] == Overwrite(old(names[..]), at, src)
  {
    for k := 0 to |src|
      invariant forall j :: 0 <= j < names.Length ==>
                  names[j] == if at <= j < at + k then src[j - at] else old(names[j])
    {
      names[at + k] := src[k];
    }
  }
}
