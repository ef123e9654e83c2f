/**
 * insncountsctl: the reader of the shared table. It maps the file of a
 * target and walks the slots in order up to the first one whose inameOff
 * is 0, either printing each slot's name and count or, when a second
 * argument is given, setting each count back to 0.
 *
 * The printed lines are modelled as Entry values, in order.
 */
module InsncountsCtl {
  import opened Strings
  import opened Shm
  import Insncounts

  const Two63: int := 0x8000_0000_0000_0000
  const Two64: int := 0x1_0000_0000_0000_0000

  /** A count as PRId64 prints it: the 64 bits of the uint64_t read as two's-complement. */
  function Signed(c: u64): (v: int)
    ensures -Two63 <= v < Two63
    ensures (v - c as int) % Two64 == 0
  {
    if (c as int) < Two63 then c as int else c as int - Two64
  }

  /**
   * The C string at absolute offset off of the mapping, when it is a text
   * of the name region that a NUL ends inside the region. The reader does
   * not check the offset; anything else is None here.
   */
  function NameAt(names: seq<char>, off: u64): (r: Option<string>)
    ensures r.Some? <==>
              ShmCountSize <= off as int < ShmCountSize + |names| && '\0' in names[off as int - ShmCountSize..]
    ensures r.Some? ==> NameStored(names, off as int, r.value) && '\0' !in r.value
  {
    if ShmCountSize <= off as int < ShmCountSize + |names| then
      var a := off as int - ShmCountSize;
      if '\0' in names[a..] then
        IndexOfFromFirst(names, a, '\0');
        Some(names[a..IndexOfFrom(names, a, '\0')])
      else None
    else None
  }

  /** What the writer stores at an offset is exactly what the reader reads back there. */
  lemma {:induction false} NameAtStored(names: seq<char>, off: u64, n: string)
    requires NameStored(names, off as int, n) && '\0' !in n
    ensures NameAt(names, off) == Some(n)
  {
    var a := off as int - ShmCountSize;
    assert names[a..][|n|] == '\0';
    forall k | a <= k < a + |n| ensures names[k] != '\0' {
      assert names[k] == names[a..a + |n|][k - a] == n[k - a];
      assert n[k - a] in n;
    }
    IndexOfFromFirst(names, a, '\0');
  }

  /** The number of slots the reader visits: those before the first whose inameOff is 0. */
  function Live(slots: seq<Counter>): (n: nat)
    ensures n <= |slots|
    ensures forall i :: 0 <= i < n ==> slots[i].inameOff != 0
    ensures n < |slots| ==> slots[n].inameOff == 0
  {
    if slots == [] || slots[0].inameOff == 0 then 0
    else
      var n := Live(slots[1..]);
      assert forall i :: 1 <= i < n + 1 ==> slots[i] == slots[1..][i - 1];
      n + 1
  }

  /** Only the offsets decide how far the reader goes. */
  lemma {:induction false} LiveOffsets(slots: seq<Counter>, slots': seq<Counter>)
    requires |slots'| == |slots|
    requires forall i :: 0 <= i < |slots| ==> slots'[i].inameOff == slots[i].inameOff
    ensures Live(slots') == Live(slots)
  {
    var n, n' := Live(slots), Live(slots');
    if n < |slots| {
      assert slots'[n].inameOff == 0;
    }
    if n' < |slots| {
      assert slots[n'].inameOff == 0;
    }
  }

  /** One printed line: the slot's name and its count. */
  datatype Entry = Entry(name: Option<string>, count: int)

  function EntryOf(c: Counter, names: seq<char>): Entry
  {
    Entry(NameAt(names, c.inameOff), Signed(c.count))
  }

  /** The lines of a listing, one per visited slot, in slot order. */
  function Report(slots: seq<Counter>, names: seq<char>): (r: seq<Entry>)
    ensures |r| == Live(slots)
  {
    seq(Live(slots), i requires 0 <= i < Live(slots) => EntryOf(slots[i], names))
  }

  /** The slots after a reset: each visited slot's count is 0, everything else is as it was. */
  function Reset(slots: seq<Counter>): (r: seq<Counter>)
    ensures |r| == |slots|
  {
    seq(|slots|, i requires 0 <= i < |slots| =>
      if i < Live(slots) then slots[i].(count := 0) else slots[i])
  }

  /** A reset touches counts only: every offset stays, so the reader visits the same slots. */
  lemma {:induction false} ResetKeepsOffsets(slots: seq<Counter>)
    ensures forall i :: 0 <= i < |slots| ==> Reset(slots)[i].inameOff == slots[i].inameOff
    ensures Live(Reset(slots)) == Live(slots)
  {
    assert forall i :: 0 <= i < |slots| ==> Reset(slots)[i].inameOff == slots[i].inameOff;
    LiveOffsets(slots, Reset(slots));
  }

  /** Resetting twice is resetting once. */
  lemma {:induction false} ResetIdempotent(slots: seq<Counter>)
    ensures Reset(Reset(slots)) == Reset(slots)
  {
    var r := Reset(slots);
    ResetKeepsOffsets(slots);
    forall i | 0 <= i < |slots| ensures Reset(r)[i] == r[i] {
    }
  }

  /** After a reset a listing shows the same names, each with count 0. */
  lemma {:induction false} ReportAfterReset(slots: seq<Counter>, names: seq<char>)
    ensures |Report(Reset(slots), names)| == |Report(slots, names)|
    ensures forall i :: 0 <= i < |Report(slots, names)| ==>
              Report(Reset(slots), names)[i] == Entry(Report(slots, names)[i].name, 0)
  {
    ResetKeepsOffsets(slots);
  }

  /** In a table holding ns, slot i names ns[i], and the reader reads it back. */
  lemma {:induction false} LayoutNameAt(slots: seq<Counter>, names: seq<char>, ns: seq<string>, i: nat)
    requires Layout(slots, names, ns) && i < |ns|
    ensures slots[i].inameOff != 0 && NameAt(names, slots[i].inameOff) == Some(ns[i])
  {
    NameStartIncreasing(ns + [""], i, |ns|);
    assert (ns + [""])[..i] == ns[..i];
    PackedStores(ns, i);
    var off := slots[i].inameOff as int - ShmCountSize;
    assert names[..|Packed(ns)|] == Packed(ns);
    assert names[off..off + |ns[i]|] == Packed(ns)[off..off + |ns[i]|];
    NameAtStored(names, slots[i].inameOff, ns[i]);
  }

  /**
   * The round trip between the two programs: a table holding the names ns
   * lists exactly ns, in allocation order, each with its slot's count.
   */
  lemma {:induction false} ReportLayout(slots: seq<Counter>, names: seq<char>, ns: seq<string>)
    requires Layout(slots, names, ns)
    ensures |Report(slots, names)| == |ns|
    ensures forall i :: 0 <= i < |ns| ==> Report(slots, names)[i] == Entry(Some(ns[i]), Signed(slots[i].count))
  {
    forall i | 0 <= i < |ns| ensures slots[i].inameOff != 0 && NameAt(names, slots[i].inameOff) == Some(ns[i]) {
      LayoutNameAt(slots, names, ns, i);
    }
    if |ns| < |slots| {
      assert slots[|ns|].inameOff == 0;
    }
  }

  /** A reset keeps the writer's table: the same names, now all counting from 0. */
  lemma {:induction false} ResetLayout(slots: seq<Counter>, names: seq<char>, ns: seq<string>)
    requires Layout(slots, names, ns)
    ensures Layout(Reset(slots), names, ns)
    ensures forall i :: 0 <= i < |ns| ==> Reset(slots)[i].count == 0
  {
    ReportLayout(slots, names, ns);
    ResetKeepsOffsets(slots);
    LayoutIgnoresCounts(slots, Reset(slots), names, ns);
  }

  /** A file of zeros, as a writer whose mmap failed leaves it, lists nothing. */
  lemma {:induction false} ReportZeroed(s: Store)
    requires s.Valid() && s.Zeroed()
    ensures Report(s.slots[..], s.names[..]) == []
  {
    assert s.slots[..][0].inameOff == 0;
  }

  /** What a reader run of a live plugin's table shows: its mnemonics, in slot order, with their counts. */
  lemma {:induction false} ReadsPlugin(p: Insncounts.Plugin)
    requires p.Valid()
    ensures |Report(p.store.slots[..], p.store.names[..])| == |p.Interned|
    ensures forall i :: 0 <= i < |p.Interned| ==>
              Report(p.store.slots[..], p.store.names[..])[i] == Entry(Some(p.Interned[i]), Signed(p.Counts()[i]))
  {
    ReportLayout(p.store.slots[..], p.store.names[..], p.Interned);
  }

  /** Whether main gets as far as the loop: a target is named and its file opens and maps. */
  predicate Opens(args: seq<string>, shm: map<string, Store>, ioFails: bool)
  {
    |args| >= 2 && ShmPath(args[1]) in shm && !ioFails
  }

  /**
   * Whether main maps a file that holds 0 bytes: mmap accepts a mapping
   * longer than the file, and the first read of a slot then falls past its
   * end.
   */
  predicate MapsEmpty(args: seq<string>, empty: set<string>, ioFails: bool)
  {
    |args| >= 2 && ShmPath(args[1]) in empty && !ioFails
  }

  /** SIGBUS on Linux for x86, Arm, RISC-V and LoongArch. */
  const SigBus: int := 7

  /** How the reader process ends: main returns a status, or a signal kills it. */
  datatype Exit = Exited(status: int) | Killed(signal: int)

  /**
   * main(argc, argv) of insncountsctl, with args the argv vector: list the
   * table of target args[1] or, when a further argument follows, reset its
   * counts. ioFails stands for open() or mmap() failing on an existing file;
   * a missing file fails open() because the reader does not create it. A
   * file of 0 bytes maps, and the first read of its first slot raises
   * SIGBUS.
   */
  method Run(args: seq<string>, shm: ShmDir, ioFails: bool) returns (exit: Exit, out: seq<Entry>)
    requires shm.Valid()
    modifies set p | p in shm.files :: shm.files[p].slots
    ensures exit == Exited(0) <==> Opens(args, shm.files, ioFails)
    ensures exit == Killed(SigBus) <==> MapsEmpty(args, shm.empty, ioFails)
    ensures exit != Exited(0) ==> (exit == Exited(-1) || exit == Killed(SigBus)) && out == []
    ensures !Opens(args, shm.files, ioFails) ==>
              forall p :: p in shm.files ==> shm.files[p].slots[..] == old(shm.files[p].slots[..])
    ensures Opens(args, shm.files, ioFails) ==>
              var s := shm.files[ShmPath(args[1])];
              && (|args| > 2 ==> out == [] && s.slots[..] == Reset(old(s.slots[..])))
              && (|args| == 2 ==> out == Report(s.slots[..], s.names[..]) && s.slots[..] == old(s.slots[..]))
              && forall p :: p in shm.files && shm.files[p].slots != s.slots ==>
                   shm.files[p].slots[..] == old(shm.files[p].slots[..])
  {
    out := [];
    if |args| < 2 {
      return Exited(-1), [];
    }
    var path := ShmPath(args[1]);
    if (path !in shm.files && path !in shm.empty) || ioFails {
      return Exited(-1), [];
    }
    if path in shm.empty {
      return Killed(SigBus), [];
    }
    var s := shm.files[path];
    out := Walk(s.slots, s.names, |args| > 2);
    exit := Exited(0);
  }

  /**
   * The loop of main: from offset 0 in steps of sizeof(Counter), stop at
   * the first slot whose inameOff is 0; reset its count or list it.
   */
  method Walk(slots: array<Counter>, names: array<char>, reset: bool) returns (out: seq<Entry>)
    requires slots.Length == SlotCount
    modifies slots
    ensures reset ==> out == [] && slots[..] == Reset(old(slots[..]))
    ensures !reset ==> out == Report(slots[..], names[..]) && slots[..] == old(slots[..])
  {
    ghost var s0 := slots[..];
    out := [];
    var off := 0;
    while off < ShmCountSize
      invariant off % SlotSize == 0 && off <= ShmCountSize
      invariant off / SlotSize <= Live(s0)
      invariant forall i :: 0 <= i < slots.Length ==>
                  slots[i] == if reset && i < off / SlotSize then s0[i].(count := 0) else s0[i]
      invariant reset ==> out == []
      invariant !reset ==> out == Report(s0, names[..])[..off / SlotSize]
    {
      var k := off / SlotSize;
      var counter := slots[k];
      if counter.inameOff == 0 {
        break;
      }
      if reset {
        slots[k] := counter.(count := 0);
      } else {
        out := out + [EntryOf(counter, names[..])];
      }
      off := off + SlotSize;
    }
    ghost var k := off / SlotSize;
    assert k == Live(s0);
    assert !reset ==> Report(s0, names[..])[..k] == Report(s0, names[..]);
    assert reset ==> slots[..] == Reset(s0);
  }
}
