/**
 * The writer: the insncounts TCG plugin. At install time it reads its
 * low=/high= options and picks, from the target name, where a mnemonic
 * starts in the disassembly text and which character ends it. Each time
 * QEMU translates a block, every instruction inside the address window
 * whose disassembly is not the "Address ... out of bounds" text is
 * classified by its mnemonic; the mnemonic is interned in the shared
 * table (one slot and one stored name per distinct mnemonic) and an
 * inline +1 on that slot's count is registered for the instruction.
 */
module Insncounts {
  import opened Strings
  import opened Shm
  import opened Interning

  // ---------------------------------------------------------------------
  // Target selection (plugin_init)

  /** Where the mnemonic starts in the disassembly text and what ends it. */
  datatype Rule = Rule(start: nat, terminator: char)

  /** The slicing rule for a target name, checked in this order; None for an unsupported target. */
  function SelectRule(target: string): (r: Option<Rule>)
    ensures OccursIn("loongarch64", target) ==> r == Some(Rule(11, '\t'))
    ensures !OccursIn("loongarch64", target) && OccursIn("aarch64", target) ==> r == Some(Rule(0, ' '))
    ensures (!OccursIn("loongarch64", target) && !OccursIn("aarch64", target) && OccursIn("riscv64", target))
              ==> r == Some(Rule(18, ' '))
    ensures r.None? <==>
              !OccursIn("loongarch64", target) && !OccursIn("aarch64", target) && !OccursIn("riscv64", target)
  {
    if Contains(target, "loongarch64") then Some(Rule(8 + 3, '\t'))
    else if Contains(target, "aarch64") then Some(Rule(0, ' '))
    else if Contains(target, "riscv64") then Some(Rule(18, ' '))
    else None
  }

  // ---------------------------------------------------------------------
  // Options (qemu_plugin_install)

  predicate IsHexDigit(c: char)
  {
    '0' <= c <= '9' || 'a' <= c <= 'f' || 'A' <= c <= 'F'
  }

  function HexDigitValue(c: char): (d: nat)
    requires IsHexDigit(c)
    ensures d < 16
  {
    if '0' <= c <= '9' then c as int - '0' as int
    else if 'a' <= c <= 'f' then c as int - 'a' as int + 10
    else c as int - 'A' as int + 10
  }

  /** The value of the leading run of hex digits of s, read on top of acc. */
  function HexRun(s: string, acc: nat): (v: nat)
    ensures v >= acc
    decreases |s|
  {
    if s != [] && IsHexDigit(s[0]) then HexRun(s[1..], 16 * acc + HexDigitValue(s[0])) else acc
  }

  /**
   * g_ascii_strtoull(s, NULL, 16): an optional 0x prefix, then hex digits
   * up to the first other character; a value past 64 bits saturates.
   */
  function ParseHex(s: string): (v: u64)
    ensures !(|s| > 0 && IsHexDigit(s[0])) ==> v == 0
  {
    var digits := if |s| >= 2 && s[0] == '0' && (s[1] == 'x' || s[1] == 'X') then s[2..] else s;
    var n := HexRun(digits, 0);
    if n <= U64Max as nat then n as u64 else U64Max
  }

  /** The hex digit of d < 16, lower case. */
  function HexDigit(d: nat): (c: char)
    requires d < 16
    ensures IsHexDigit(c) && HexDigitValue(c) == d
  {
    if d < 10 then ('0' as int + d) as char else ('a' as int + d - 10) as char
  }

  /** n written in hex without leading zeros, as printf's %x does. */
  function HexText(n: nat): (s: string)
    ensures |s| > 0 && IsHexDigit(s[0])
    ensures n >= 16 ==> s[0] != '0'
    decreases n
  {
    if n < 16 then [HexDigit(n)] else HexText(n / 16) + [HexDigit(n % 16)]
  }

  /** One more digit at the end multiplies the value read so far by 16 and adds the digit. */
  lemma {:induction false} HexRunSnoc(s: string, acc: nat, c: char)
    requires forall i :: 0 <= i < |s| ==> IsHexDigit(s[i])
    requires IsHexDigit(c)
    ensures HexRun(s + [c], acc) == 16 * HexRun(s, acc) + HexDigitValue(c)
    decreases |s|
  {
    if s == [] {
      assert [c][1..] == [];
    } else {
      assert (s + [c])[1..] == s[1..] + [c];
      HexRunSnoc(s[1..], 16 * acc + HexDigitValue(s[0]), c);
    }
  }

  /** The digits of HexText(n) read back as n. */
  lemma {:induction false} HexRunText(n: nat)
    ensures forall i :: 0 <= i < |HexText(n)| ==> IsHexDigit(HexText(n)[i])
    ensures HexRun(HexText(n), 0) == n
    decreases n
  {
    if n >= 16 {
      HexRunText(n / 16);
      var t := HexText(n / 16);
      assert HexText(n) == t + [HexDigit(n % 16)];
      HexRunSnoc(t, 0, HexDigit(n % 16));
    }
  }

  /** Round trip: parsing the hex text of a 64-bit value, with or without 0x, gives the value back. */
  lemma {:induction false} ParseHexText(n: u64)
    ensures ParseHex(HexText(n as nat)) == n
    ensures ParseHex("0x" + HexText(n as nat)) == n
  {
    HexRunText(n as nat);
    assert ("0x" + HexText(n as nat))[2..] == HexText(n as nat);
  }

  /** tokens[0] of g_strsplit(opt, "=", -1). */
  function OptionKey(opt: string): (key: string)
    ensures '=' !in key && |key| <= |opt| && key == opt[..|key|]
    ensures |key| < |opt| ==> opt[|key|] == '='
  {
    Before(opt, '=')
  }

  /** The value an option assigns: tokens[1] read as hex, 0 when there is no '='. */
  function OptionValue(opt: string): u64
  {
    var key := OptionKey(opt);
    if |key| < |opt| then ParseHex(Before(opt[|key| + 1..], '=')) else 0
  }

  /** The bounds reached by the option loop, and whether it got through every option. */
  datatype OptState = OptState(ok: bool, low: u64, high: u64)

  /** The option loop run over opts, starting from the bounds low and high. */
  function ApplyOptions(opts: seq<string>, low: u64, high: u64): OptState
    decreases |opts|
  {
    if opts == [] then OptState(true, low, high)
    else if OptionKey(opts[0]) == "low" then ApplyOptions(opts[1..], OptionValue(opts[0]), high)
    else if OptionKey(opts[0]) == "high" then ApplyOptions(opts[1..], low, OptionValue(opts[0]))
    else OptState(false, low, high)
  }

  /** The options are accepted exactly when every key is low or high. */
  lemma {:induction false} OptionsAccepted(opts: seq<string>, low: u64, high: u64)
    ensures ApplyOptions(opts, low, high).ok <==>
              forall i :: 0 <= i < |opts| ==> OptionKey(opts[i]) in {"low", "high"}
    decreases |opts|
  {
    if opts != [] {
      var o := opts[0];
      if OptionKey(o) == "low" {
        OptionsAccepted(opts[1..], OptionValue(o), high);
      } else if OptionKey(o) == "high" {
        OptionsAccepted(opts[1..], low, OptionValue(o));
      } else {
        assert OptionKey(opts[0]) !in {"low", "high"};
      }
      if OptionKey(o) in {"low", "high"} {
        assert forall i :: 1 <= i < |opts| ==> opts[i] == opts[1..][i - 1];
      }
    }
  }

  /** Running the loop over a + b is running it over a and then, if that got through, over b. */
  lemma {:induction false} ApplyOptionsAppend(a: seq<string>, b: seq<string>, low: u64, high: u64)
    ensures var r := ApplyOptions(a, low, high);
            ApplyOptions(a + b, low, high) == if r.ok then ApplyOptions(b, r.low, r.high) else r
    decreases |a|
  {
    if a != [] {
      assert (a + b)[0] == a[0] && (a + b)[1..] == a[1..] + b;
      var o := a[0];
      if OptionKey(o) == "low" {
        ApplyOptionsAppend(a[1..], b, OptionValue(o), high);
      } else if OptionKey(o) == "high" {
        ApplyOptionsAppend(a[1..], b, low, OptionValue(o));
      }
    } else {
      assert a + b == b;
    }
  }

  /** When accepted, the last low= option decides the low bound and leaves the high one alone. */
  lemma {:induction false} LastLowOptionWins(a: seq<string>, opt: string, low: u64, high: u64)
    requires OptionKey(opt) == "low" && ApplyOptions(a, low, high).ok
    ensures ApplyOptions(a + [opt], low, high)
         == OptState(true, OptionValue(opt), ApplyOptions(a, low, high).high)
  {
    ApplyOptionsAppend(a, [opt], low, high);
  }

  /** When accepted, the last high= option decides the high bound and leaves the low one alone. */
  lemma {:induction false} LastHighOptionWins(a: seq<string>, opt: string, low: u64, high: u64)
    requires OptionKey(opt) == "high" && ApplyOptions(a, low, high).ok
    ensures ApplyOptions(a + [opt], low, high)
         == OptState(true, ApplyOptions(a, low, high).low, OptionValue(opt))
  {
    ApplyOptionsAppend(a, [opt], low, high);
  }

  // ---------------------------------------------------------------------
  // Classification (vcpu_tb_trans)

  /** One instruction of a translated block: its virtual address and its disassembly. */
  datatype Insn = Insn(vaddr: u64, disas: string)

  /** The inclusive address window [low, high]. */
  predicate InWindow(vaddr: u64, low: u64, high: u64)
  {
    low <= vaddr <= high
  }

  /** The disassembler's "Address 0x... is out of bounds." text, recognised by its first character. */
  predicate OutOfBoundsText(disas: string)
  {
    |disas| > 0 && disas[0] == 'A'
  }

  /**
   * What slicing needs of a disassembly text: the start index lies inside
   * it and the terminator occurs at or after it (otherwise strchr returns
   * NULL and the plugin writes through it). A C string holds no NUL.
   */
  predicate Sliceable(disas: string, rule: Rule)
  {
    '\0' !in disas && rule.start <= |disas| && rule.terminator in disas[rule.start..]
  }

  /** The source's demand on an instruction: sliceable whenever it is classified at all. */
  predicate Admissible(insn: Insn, rule: Rule, low: u64, high: u64)
  {
    Counted(insn, low, high) ==> Sliceable(insn.disas, rule)
  }

  /** Every instruction of the block is admissible. */
  predicate AllAdmissible(tb: seq<Insn>, rule: Rule, low: u64, high: u64)
  {
    forall i :: 0 <= i < |tb| ==> Admissible(tb[i], rule, low, high)
  }

  lemma {:induction false} AllAdmissiblePrefix(tb: seq<Insn>, k: nat, rule: Rule, low: u64, high: u64)
    requires AllAdmissible(tb, rule, low, high) && k <= |tb|
    ensures AllAdmissible(tb[..k], rule, low, high)
  {
    assert forall i :: 0 <= i < k ==> tb[..k][i] == tb[i];
  }

  /** The mnemonic: the text from rule.start up to, not including, the first terminator after it. */
  function Mnemonic(disas: string, rule: Rule): (m: string)
    requires Sliceable(disas, rule)
    ensures rule.start + |m| < |disas| && disas[rule.start..rule.start + |m|] == m
    ensures disas[rule.start + |m|] == rule.terminator
    ensures rule.terminator !in m && '\0' !in m
  {
    var p := IndexOfFrom(disas, rule.start, rule.terminator);
    IndexOfFromFirst(disas, rule.start, rule.terminator);
    assert forall k :: 0 <= k < p - rule.start ==> disas[rule.start..p][k] == disas[rule.start + k];
    disas[rule.start..p]
  }

  /** An instruction is counted when it is in the window and its disassembly is not the out-of-bounds text. */
  predicate Counted(insn: Insn, low: u64, high: u64)
  {
    InWindow(insn.vaddr, low, high) && !OutOfBoundsText(insn.disas)
  }

  /** The mnemonic an instruction contributes: its own when counted, else none. */
  function InsnMnemonics(insn: Insn, rule: Rule, low: u64, high: u64): (ms: seq<string>)
    requires Admissible(insn, rule, low, high)
  {
    if Counted(insn, low, high) then [Mnemonic(insn.disas, rule)] else []
  }

  /** The mnemonics of the instructions of tb that are classified, in block order. */
  function Classify(tb: seq<Insn>, rule: Rule, low: u64, high: u64): (ms: seq<string>)
    requires AllAdmissible(tb, rule, low, high)
    ensures |ms| <= |tb|
    decreases |tb|
  {
    if tb == [] then []
    else
      var insn := tb[|tb| - 1];
      assert Admissible(insn, rule, low, high);
      AllAdmissiblePrefix(tb, |tb| - 1, rule, low, high);
      Classify(tb[..|tb| - 1], rule, low, high) + InsnMnemonics(insn, rule, low, high)
  }

  /** Classification of a concatenation of blocks is the concatenation of their classifications. */
  lemma {:induction false} ClassifyAppend(a: seq<Insn>, b: seq<Insn>, rule: Rule, low: u64, high: u64)
    requires AllAdmissible(a, rule, low, high) && AllAdmissible(b, rule, low, high)
    ensures AllAdmissible(a + b, rule, low, high)
    ensures Classify(a + b, rule, low, high) == Classify(a, rule, low, high) + Classify(b, rule, low, high)
    decreases |b|
  {
    assert forall i :: 0 <= i < |a + b| ==> (a + b)[i] == if i < |a| then a[i] else b[i - |a|];
    if b == [] {
      assert a + b == a;
    } else {
      var b' := b[..|b| - 1];
      assert (a + b)[..|a + b| - 1] == a + b';
      ClassifyAppend(a, b', rule, low, high);
    }
  }

  /**
   * An instruction outside the window, or whose disassembly is the
   * out-of-bounds text, contributes no mnemonic; so a block of only such
   * instructions allocates nothing and registers nothing.
   */
  lemma {:induction false} SkippedInsnsClassifyToNothing(tb: seq<Insn>, rule: Rule, low: u64, high: u64)
    requires forall i :: 0 <= i < |tb| ==>
               !InWindow(tb[i].vaddr, low, high) || OutOfBoundsText(tb[i].disas)
    ensures Classify(tb, rule, low, high) == []
    decreases |tb|
  {
    if tb != [] {
      SkippedInsnsClassifyToNothing(tb[..|tb| - 1], rule, low, high);
    }
  }

  /** insn is counted and its mnemonic is m. */
  predicate Yields(insn: Insn, rule: Rule, low: u64, high: u64, m: string)
  {
    Counted(insn, low, high) && Sliceable(insn.disas, rule) && Mnemonic(insn.disas, rule) == m
  }

  /** One admissible instruction contributes m exactly when it yields m. */
  lemma {:induction false} InsnYields(insn: Insn, rule: Rule, low: u64, high: u64, m: string)
    requires Admissible(insn, rule, low, high)
    ensures m in InsnMnemonics(insn, rule, low, high) <==> Yields(insn, rule, low, high, m)
  {
  }

  /** Every mnemonic of a block comes from one of its counted instructions. */
  lemma {:induction false} ClassifySound(tb: seq<Insn>, rule: Rule, low: u64, high: u64, m: string)
    requires AllAdmissible(tb, rule, low, high) && m in Classify(tb, rule, low, high)
    ensures exists i :: 0 <= i < |tb| && Yields(tb[i], rule, low, high, m)
    decreases |tb|
  {
    var k := |tb| - 1;
    var init := tb[..k];
    AllAdmissiblePrefix(tb, k, rule, low, high);
    InsnYields(tb[k], rule, low, high, m);
    var ci := Classify(init, rule, low, high);
    assert Classify(tb, rule, low, high) == ci + InsnMnemonics(tb[k], rule, low, high);
    if m in ci {
      ClassifySound(init, rule, low, high, m);
      var i :| 0 <= i < k && Yields(init[i], rule, low, high, m);
      assert tb[i] == init[i];
    }
  }

  /** Every counted instruction of a block contributes its mnemonic. */
  lemma {:induction false} ClassifyComplete(tb: seq<Insn>, rule: Rule, low: u64, high: u64, m: string, i: nat)
    requires AllAdmissible(tb, rule, low, high) && i < |tb| && Yields(tb[i], rule, low, high, m)
    ensures m in Classify(tb, rule, low, high)
    decreases |tb|
  {
    var k := |tb| - 1;
    var init := tb[..k];
    AllAdmissiblePrefix(tb, k, rule, low, high);
    var ci, last := Classify(init, rule, low, high), InsnMnemonics(tb[k], rule, low, high);
    assert Classify(tb, rule, low, high) == ci + last;
    if i < k {
      assert init[i] == tb[i];
      ClassifyComplete(init, rule, low, high, m, i);
    } else {
      InsnYields(tb[k], rule, low, high, m);
    }
  }

  /**
   * The mnemonics a block contributes are exactly those of its instructions
   * that lie in the window and are not the out-of-bounds text.
   */
  lemma {:induction false} ClassifyMembers(tb: seq<Insn>, rule: Rule, low: u64, high: u64, m: string)
    requires AllAdmissible(tb, rule, low, high)
    ensures m in Classify(tb, rule, low, high) <==> exists i :: 0 <= i < |tb| && Yields(tb[i], rule, low, high, m)
  {
    if m in Classify(tb, rule, low, high) {
      ClassifySound(tb, rule, low, high, m);
    }
    if exists i :: 0 <= i < |tb| && Yields(tb[i], rule, low, high, m) {
      var i :| 0 <= i < |tb| && Yields(tb[i], rule, low, high, m);
      ClassifyComplete(tb, rule, low, high, m, i);
    }
  }

  // ---------------------------------------------------------------------
  // Counts (the count fields of the used slots)

  /** The effect of one execution of an instrumented instruction on its slot: a wrapping 64-bit +1. */
  function Bump(c: Counter): (c': Counter)
    ensures c'.inameOff == c.inameOff
    ensures c'.count as int == (c.count as int + 1) % 0x1_0000_0000_0000_0000
  {
    c.(count := if c.count == U64Max then 0 else c.count + 1)
  }

  /** The counts of the first n slots. */
  function CountsOf(slots: seq<Counter>, n: nat): (cs: seq<u64>)
    requires n <= |slots|
    ensures |cs| == n && forall i :: 0 <= i < n ==> cs[i] == slots[i].count
  {
    seq(n, i requires 0 <= i < n => slots[i].count)
  }

  /** Filling in a fresh slot n with a zero count adds a zero count. */
  lemma {:induction false} CountsOfAppend(slots: seq<Counter>, n: nat, c: Counter)
    requires n < |slots| && c.count == 0
    ensures CountsOf(slots[n := c], n + 1) == CountsOf(slots, n) + [0]
  {
  }

  /** Replacing the count of slot j < n replaces that one count. */
  lemma {:induction false} CountsOfUpdate(slots: seq<Counter>, n: nat, j: nat, c: Counter)
    requires j < n <= |slots|
    ensures CountsOf(slots[j := c], n) == CountsOf(slots, n)[j := c.count]
  {
  }

  // ---------------------------------------------------------------------
  // The backing file's set-up

  /** The first call on the backing file that fails in plugin_init: open, either ftruncate, or mmap; or none. */
  datatype InitIo = IoOk | OpenFails | ShrinkFails | ExpandFails | MapFails

  /**
   * What plugin_init's calls on the backing file at path p leave under
   * /dev/shm, given the first that fails: a failed open changes nothing; a
   * failed shrink leaves a missing file created with 0 bytes and an
   * existing one as it was; a failed grow leaves the file at 0 bytes; past
   * the grow, the file is a new full-size one (whose zeroed contents the
   * callers state).
   */
  ghost predicate InitLeaves(io: InitIo, p: string, files0: map<string, Store>, empty0: set<string>,
                             files: map<string, Store>, empty: set<string>)
  {
    match io
    case OpenFails => files == files0 && empty == empty0
    case ShrinkFails => files == files0 && empty == (if p in files0 then empty0 else empty0 + {p})
    case ExpandFails => files == files0 - {p} && empty == empty0 + {p}
    case MapFails => p in files && files == files0[p := files[p]] && empty == empty0 - {p}
    case IoOk => p in files && files == files0[p := files[p]] && empty == empty0 - {p}
  }

  /**
   * The calls of plugin_init on the backing file at path p, up to the
   * first that fails: open (creating it), ftruncate to 0, ftruncate to
   * ShmTotalSize, mmap. The mapped store, or null on a failure.
   */
  method MapBacking(shm: ShmDir, p: string, io: InitIo) returns (s: Store?)
    requires shm.Valid()
    modifies shm
    ensures shm.Valid()
    ensures InitLeaves(io, p, old(shm.files), old(shm.empty), shm.files, shm.empty)
    ensures io == MapFails || io == IoOk ==>
              var f := shm.files[p];
              fresh(f) && fresh(f.slots) && fresh(f.names) && f.Zeroed()
    ensures (s != null <==> io == IoOk) && (s != null ==> s == shm.files[p])
  {
    if io == OpenFails {
      return null;
    }
    shm.Create(p);
    if io == ShrinkFails {
      return null;
    }
    shm.Shrink(p);
    if io == ExpandFails {
      return null;
    }
    var f := shm.Grow(p);
    if io == MapFails {
      return null;
    }
    s := f;
  }

  // ---------------------------------------------------------------------
  // The plugin's global state

  class Plugin {
    var lowBound: u64
    var highBound: u64
    /** iname_off and iname_end */
    var rule: Rule
    /** The mapped store (shm_ptr); null until plugin_init has mapped it. */
    var store: Store?
    /** shm_count_off: the byte offset of the next free slot */
    var countOff: nat
    /** shm_iname_off: the absolute offset of the next free name byte */
    var inameOff: nat
    /** The insns hash table: mnemonic to its slot (the slot's index stands for its address). */
    var insns: map<string, nat>
    /** Whether install has registered the translation and exit callbacks. */
    var ready: bool
    /** The mnemonics in the table, in slot order. */
    ghost var Interned: seq<string>

    ghost function Footprint(): set<object>
      reads this`store
    {
      if store == null then {} else {store.slots as object, store.names as object}
    }

    /** The zero-initialised globals of a freshly loaded plugin. */
    ghost predicate Loaded()
      reads this
    {
      && lowBound == 0 && highBound == 0
      && rule == Rule(0, '\0') && store == null
      && countOff == 0 && inameOff == 0
      && insns == map[] && !ready && Interned == []
    }

    /** The store, the growth offsets and the hash table agree with Interned. */
    ghost predicate Valid()
      reads this`ready, this`store, this`countOff, this`inameOff, this`insns, this`Interned, Footprint()
    {
      && ready && store != null
      // the plugin's globals and the mapped memory never overlap
      && this !in Footprint()
      && Mapped(store, Interned, countOff, inameOff)
      // the hash table insns maps each name to its slot
      && Indexes(insns, Interned)
    }

    /** The counts of the used slots, in slot order. */
    ghost function Counts(): (cs: seq<u64>)
      reads this`store, this`Interned, Footprint()
      requires store != null && |Interned| <= store.slots.Length
    {
      CountsOf(store.slots[..], |Interned|)
    }

    constructor ()
      ensures Loaded()
    {
      lowBound, highBound := 0, 0;
      rule := Rule(0, '\0');
      store := null;
      countOff, inameOff := 0, 0;
      insns := map[];
      ready := false;
      Interned := [];
    }

    /**
     * qemu_plugin_install: the option loop, then plugin_init, then the
     * callback registration. io says which call on the backing file fails,
     * if any.
     */
    method Install(target: string, args: seq<string>, shm: ShmDir, io: InitIo) returns (status: int)
      requires Loaded() && shm.Valid()
      modifies this`lowBound, this`highBound, this`rule, this`store, this`inameOff, this`insns, this`ready, shm
      ensures shm.Valid()
      ensures var o := ApplyOptions(args, 0, 0);
              && lowBound == o.low && highBound == o.high
              && (status == 0 <==> o.ok && SelectRule(target).Some? && io == IoOk)
              && (o.ok && SelectRule(target).Some? ==> rule == SelectRule(target).value)
              && (!o.ok ==> rule == old(rule))
      ensures !(ApplyOptions(args, 0, 0).ok && SelectRule(target).Some?) ==>
                shm.files == old(shm.files) && shm.empty == old(shm.empty)
      ensures ApplyOptions(args, 0, 0).ok && SelectRule(target).Some? ==>
                InitLeaves(io, ShmPath(target), old(shm.files), old(shm.empty), shm.files, shm.empty)
      ensures ApplyOptions(args, 0, 0).ok && SelectRule(target).Some? && (io == MapFails || io == IoOk) ==>
                var s := shm.files[ShmPath(target)];
                fresh(s) && fresh(s.slots) && fresh(s.names) && s.Zeroed()
      ensures status != 0 ==> status == -1 && !ready
      ensures status == 0 ==>
                && Valid() && store == shm.files[ShmPath(target)] && Interned == [] && insns == map[]
                && fresh(store) && fresh(store.slots) && fresh(store.names)
                && countOff == 0 && inameOff == ShmCountSize
    {
      var ok := ParseOptions(args);
      if !ok {
        return -1;
      }
      status := Init(target, shm, io);
      if status < 0 {
        return -1;
      }
      ready := true;
      ZeroLayout(store.slots[..], store.names[..]);
      status := 0;
    }

    /** The option loop of qemu_plugin_install; false at the first option whose key is neither low nor high. */
    method ParseOptions(args: seq<string>) returns (ok: bool)
      modifies this`lowBound, this`highBound
      ensures var o := ApplyOptions(args, old(lowBound), old(highBound));
              ok == o.ok && lowBound == o.low && highBound == o.high
    {
      var i := 0;
      while i < |args|
        invariant 0 <= i <= |args|
        invariant ApplyOptions(args, old(lowBound), old(highBound)) == ApplyOptions(args[i..], lowBound, highBound)
      {
        var opt := args[i];
        assert args[i..][0] == opt && args[i..][1..] == args[i + 1..];
        var key := OptionKey(opt);
        if key == "low" {
          lowBound := OptionValue(opt);
        } else if key == "high" {
          highBound := OptionValue(opt);
        } else {
          return false;
        }
        i := i + 1;
      }
      return true;
    }

    /**
     * plugin_init: choose the slicing rule, then create, empty, grow and
     * map the backing file, giving up at the first call that fails.
     */
    method Init(target: string, shm: ShmDir, io: InitIo) returns (status: int)
      requires shm.Valid()
      modifies this`rule, this`store, this`inameOff, this`insns, shm
      ensures shm.Valid()
      ensures status == 0 <==> SelectRule(target).Some? && io == IoOk
      ensures status != 0 ==>
                status == -1 && store == old(store) && inameOff == old(inameOff) && insns == old(insns)
      ensures SelectRule(target).Some? ==> rule == SelectRule(target).value
      ensures SelectRule(target).None? ==>
                rule == old(rule) && shm.files == old(shm.files) && shm.empty == old(shm.empty)
      ensures SelectRule(target).Some? ==>
                InitLeaves(io, ShmPath(target), old(shm.files), old(shm.empty), shm.files, shm.empty)
      ensures SelectRule(target).Some? && (io == MapFails || io == IoOk) ==>
                var s := shm.files[ShmPath(target)];
                fresh(s) && fresh(s.slots) && fresh(s.names) && s.Zeroed()
      ensures status == 0 ==>
                store == shm.files[ShmPath(target)] && inameOff == ShmCountSize && insns == map[]
    {
      var r := SelectRule(target);
      if r.None? {
        return -1;
      }
      rule := r.value;
      var s := MapBacking(shm, ShmPath(target), io);
      if s == null {
        return -1;
      }
      store := s;
      inameOff := ShmCountSize;
      insns := map[];
      status := 0;
    }

    /**
     * The hash-table lookup of vcpu_tb_trans: the slot of m, allocating one
     * on the first sighting.
     */
    method Resolve(m: string) returns (slot: nat)
      requires Valid() && '\0' !in m && Fits(InternOne(Interned, m))
      modifies this`countOff, this`inameOff, this`insns, this`Interned, Footprint()
      ensures Valid()
      ensures Interned == InternOne(old(Interned), m)
      ensures slot == IndexOf(Interned, m)
      ensures m in old(Interned) ==>
                && insns == old(insns) && countOff == old(countOff) && inameOff == old(inameOff)
                && store.slots[..] == old(store.slots[..]) && store.names[..] == old(store.names[..])
      ensures m !in old(Interned) ==>
                && insns == old(insns)[m := slot]
                && old(countOff) == SlotSize * slot
                && store.slots[..] == old(store.slots[..])[slot := Counter(0, old(inameOff) as u64)]
                && countOff == old(countOff) + SlotSize
                && inameOff == old(inameOff) + |m| + 1
      ensures Counts() == if m in old(Interned) then old(Counts()) else old(Counts()) + [0]
    {
      if m in insns {
        slot := insns[m];
        ghost var i := IndexOf(Interned, m);
        assert insns[Interned[i]] == i;
      } else {
        slot := Allocate(m);
      }
    }

    /**
     * The first sighting of m: a slot {count 0, inameOff} at countOff, the
     * name and the NUL written after it copied to inameOff, both growth
     * offsets advanced and m entered into the hash table.
     */
    method Allocate(m: string) returns (slot: nat)
      requires Valid() && '\0' !in m && m !in Interned && Fits(Interned + [m])
      modifies this`countOff, this`inameOff, this`insns, this`Interned, Footprint()
      ensures Valid()
      ensures Interned == old(Interned) + [m]
      ensures slot == |old(Interned)| && old(countOff) == SlotSize * slot
      ensures insns == old(insns)[m := slot]
      ensures store.slots[..] == old(store.slots[..])[slot := Counter(0, old(inameOff) as u64)]
      ensures countOff == old(countOff) + SlotSize && inameOff == old(inameOff) + |m| + 1
      ensures Counts() == old(Counts()) + [0]
    {
      ghost var s0, ns0 := store.slots[..], Interned;
      assert countOff / SlotSize == |Interned|;
      slot := countOff / SlotSize;
      var off := inameOff;
      store.Record(Interned, m, slot, off);
      CountsOfAppend(s0, |ns0|, Counter(0, off as u64));
      PackedAppend(ns0, m);
      // both growth offsets move past the new slot and the new name
      countOff := countOff + SlotSize;
      inameOff := inameOff + |m| + 1;
      // the hash table learns the new name and its slot
      IndexesAppend(insns, Interned, m);
      insns := insns[m := slot];
      Interned := Interned + [m];
    }

    /**
     * vcpu_tb_trans: classify the instructions of the block in order,
     * intern each counted mnemonic and register a +1 on its slot. After the
     * block the table holds the old names and then the block's new ones in
     * first-sighting order, regs holds one slot per counted instruction in
     * block order, old counts are kept and each new slot counts 0.
     */
    method TbTrans(tb: seq<Insn>) returns (regs: seq<nat>)
      requires Valid()
      requires AllAdmissible(tb, rule, lowBound, highBound)
      requires Fits(Intern(Interned, Classify(tb, rule, lowBound, highBound)))
      modifies this`countOff, this`inameOff, this`insns, this`Interned, Footprint()
      ensures Valid()
      ensures Accounts(old(Interned), old(Counts()), Classify(tb, rule, lowBound, highBound), Interned, regs, Counts())
    {
      ghost var i0, c0 := Interned, Counts();
      ZerosNoneOrOne(c0);
      ClassifyUpToWhole(tb, rule, lowBound, highBound);
      regs := [];
      for i := 0 to |tb|
        invariant Valid()
        invariant Accounts(i0, c0, ClassifyUpTo(tb, i, rule, lowBound, highBound), Interned, regs, Counts())
      {
        regs := TranslateNext(tb, i, i0, c0, regs);
      }
    }

    /** Pass i of the vcpu_tb_trans loop, carrying the loop's account of names, registrations and counts. */
    method TranslateNext(tb: seq<Insn>, i: nat, ghost i0: seq<string>, ghost c0: seq<u64>, regs: seq<nat>)
      returns (regs': seq<nat>)
      requires i < |tb| && Valid()
      requires AllAdmissible(tb, rule, lowBound, highBound)
      requires Fits(Intern(i0, Classify(tb, rule, lowBound, highBound)))
      requires Accounts(i0, c0, ClassifyUpTo(tb, i, rule, lowBound, highBound), Interned, regs, Counts())
      modifies this`countOff, this`inameOff, this`insns, this`Interned, Footprint()
      ensures Valid()
      ensures Accounts(i0, c0, ClassifyUpTo(tb, i + 1, rule, lowBound, highBound), Interned, regs', Counts())
    {
      ghost var seen := ClassifyUpTo(tb, i, rule, lowBound, highBound);
      TbTransFits(i0, tb, i, rule, lowBound, highBound);
      ghost var ms := InsnMnemonics(tb[i], rule, lowBound, highBound);
      ghost var names0, counts0 := Interned, Counts();
      var r := TranslateInsn(tb[i]);
      AccountsCompose(i0, c0, seen, names0, regs, counts0, ms, Interned, r, Counts());
      regs' := regs + r;
    }

    /**
     * One pass of the vcpu_tb_trans loop: an instruction in the window whose
     * disassembly is not the out-of-bounds text has its mnemonic counted;
     * any other instruction contributes no mnemonic, so nothing changes and
     * nothing is registered.
     */
    method TranslateInsn(insn: Insn) returns (regs: seq<nat>)
      requires Valid() && Admissible(insn, rule, lowBound, highBound)
      requires Fits(Intern(Interned, InsnMnemonics(insn, rule, lowBound, highBound)))
      modifies this`countOff, this`inameOff, this`insns, this`Interned, Footprint()
      ensures Valid()
      ensures Accounts(old(Interned), old(Counts()), InsnMnemonics(insn, rule, lowBound, highBound), Interned, regs, Counts())
    {
      ghost var ms := InsnMnemonics(insn, rule, lowBound, highBound);
      ZerosNoneOrOne(Counts());
      if insn.vaddr < lowBound || insn.vaddr > highBound {
        assert ms == [];
        return [];
      }
      var disas := insn.disas;
      if |disas| == 0 || disas[0] != 'A' {
        var m := Mnemonic(disas, rule);
        assert ms == [m];
        regs := CountMnemonic(m);
      } else {
        assert ms == [];
        regs := [];
      }
    }

    /**
     * The counted case of vcpu_tb_trans: resolve the slot of m and register
     * a +1 on its count (the one slot in regs).
     */
    method CountMnemonic(m: string) returns (regs: seq<nat>)
      requires Valid() && '\0' !in m && Fits(Intern(Interned, [m]))
      modifies this`countOff, this`inameOff, this`insns, this`Interned, Footprint()
      ensures Valid()
      ensures Accounts(old(Interned), old(Counts()), [m], Interned, regs, Counts())
    {
      ghost var n0, c0 := Interned, Counts();
      InternSingle(n0, m);
      ZerosNoneOrOne(c0);
      var slot := Resolve(m);
      // the inline 64-bit add of 1 on the slot's count, registered for this instruction
      regs := [slot];
      if m in n0 {
        assert Interned == n0 && Counts() == c0 + Zeros(0);
      } else {
        assert Interned == n0 + [m] && Counts() == c0 + Zeros(1);
      }
    }

    /** The run-time effect of one execution of an instruction registered on slot j: +1 on its count. */
    method Execute(j: nat)
      requires Valid() && j < |Interned|
      modifies store.slots
      ensures Valid()
      ensures store.slots[..] == old(store.slots[..])[j := Bump(old(store.slots[j]))]
      ensures Counts() == old(Counts())[j := Bump(old(store.slots[j])).count]
    {
      ghost var s0, c0 := store.slots[..], Counts();
      store.slots[j] := Bump(store.slots[j]);
      assert store.slots[..] == s0[j := Bump(s0[j])];
      LayoutIgnoresCounts(s0, store.slots[..], store.names[..], Interned);
      assert Valid();
      assert Counts() == c0[j := Bump(s0[j]).count];
    }
  }

  /** The mnemonics of the first i instructions of tb. */
  function ClassifyUpTo(tb: seq<Insn>, i: nat, rule: Rule, low: u64, high: u64): seq<string>
    requires AllAdmissible(tb, rule, low, high) && i <= |tb|
  {
    AllAdmissiblePrefix(tb, i, rule, low, high);
    Classify(tb[..i], rule, low, high)
  }

  /** All of the block classifies to Classify of the block. */
  lemma {:induction false} ClassifyUpToWhole(tb: seq<Insn>, rule: Rule, low: u64, high: u64)
    requires AllAdmissible(tb, rule, low, high)
    ensures ClassifyUpTo(tb, 0, rule, low, high) == []
    ensures ClassifyUpTo(tb, |tb|, rule, low, high) == Classify(tb, rule, low, high)
  {
    assert tb[..|tb|] == tb;
  }

  /** Classifying one more instruction appends its mnemonics. */
  lemma {:induction false} ClassifyStep(tb: seq<Insn>, i: nat, rule: Rule, low: u64, high: u64)
    requires i < |tb| && AllAdmissible(tb, rule, low, high)
    ensures Admissible(tb[i], rule, low, high)
    ensures ClassifyUpTo(tb, i + 1, rule, low, high)
         == ClassifyUpTo(tb, i, rule, low, high) + InsnMnemonics(tb[i], rule, low, high)
  {
    AllAdmissiblePrefix(tb, i, rule, low, high);
    AllAdmissiblePrefix(tb, i + 1, rule, low, high);
    assert tb[..i + 1][..i] == tb[..i] && tb[..i + 1][i] == tb[i];
  }

  /** If interning a whole block fits, interning its first k instructions' mnemonics fits too. */
  lemma {:induction false} ClassifyPrefixFits(ns: seq<string>, tb: seq<Insn>, k: nat, rule: Rule, low: u64, high: u64)
    requires k <= |tb| && AllAdmissible(tb, rule, low, high)
    requires Fits(Intern(ns, Classify(tb, rule, low, high)))
    ensures Fits(Intern(ns, ClassifyUpTo(tb, k, rule, low, high)))
  {
    ClassifySplit(tb, k, rule, low, high);
    InternFitsPrefix(ns, Classify(tb[..k], rule, low, high), Classify(tb[k..], rule, low, high));
  }

  /**
   * In the middle of a block whose names fit, the next instruction is
   * sliceable and interning its mnemonics after those before it still fits.
   */
  lemma {:induction false} TbTransFits(ns: seq<string>, tb: seq<Insn>, i: nat, rule: Rule, low: u64, high: u64)
    requires i < |tb| && AllAdmissible(tb, rule, low, high)
    requires Fits(Intern(ns, Classify(tb, rule, low, high)))
    ensures Admissible(tb[i], rule, low, high)
    ensures Fits(Intern(Intern(ns, ClassifyUpTo(tb, i, rule, low, high)), InsnMnemonics(tb[i], rule, low, high)))
    ensures ClassifyUpTo(tb, i + 1, rule, low, high)
         == ClassifyUpTo(tb, i, rule, low, high) + InsnMnemonics(tb[i], rule, low, high)
  {
    ClassifyPrefixFits(ns, tb, i + 1, rule, low, high);
    ClassifyStep(tb, i, rule, low, high);
    InternAppend(ns, ClassifyUpTo(tb, i, rule, low, high), InsnMnemonics(tb[i], rule, low, high));
  }

  /** Classifying a block is classifying its first k instructions, then the rest. */
  lemma {:induction false} ClassifySplit(tb: seq<Insn>, k: nat, rule: Rule, low: u64, high: u64)
    requires k <= |tb| && AllAdmissible(tb, rule, low, high)
    ensures AllAdmissible(tb[..k], rule, low, high) && AllAdmissible(tb[k..], rule, low, high)
    ensures Classify(tb, rule, low, high) == Classify(tb[..k], rule, low, high) + Classify(tb[k..], rule, low, high)
  {
    var a, b := tb[..k], tb[k..];
    assert tb == a + b;
    AllAdmissiblePrefix(tb, k, rule, low, high);
    assert forall j :: 0 <= j < |b| ==> b[j] == tb[k + j];
    ClassifyAppend(a, b, rule, low, high);
  }
}
