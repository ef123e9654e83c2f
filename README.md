# insncounts: a verified model of QEMU's instruction-mnemonic counter

Two C programs from QEMU's `contrib/plugins` share one table in a file under
`/dev/shm`:

- **insncounts.c** is a TCG plugin, the writer. At install time it reads its
  `low=`/`high=` options and picks a slicing rule from the target name. The
  rule gives the index where the mnemonic starts in the disassembly text and
  the character that ends it. It then creates and zeroes the backing file
  and maps it.
- Each time QEMU translates a block, the writer looks at every instruction
  whose address lies in the inclusive window `[low, high]` and whose
  disassembly is not the "Address ... is out of bounds." text. It slices the
  mnemonic out of that text and looks it up in a hash table. On a first
  sighting it appends a 16-byte `Counter` slot `{count 0, inameOff}` and the
  NUL-terminated name to the shared table, then advances both growth
  offsets. Either way it registers an inline 64-bit `+1` on that slot's count.
- **insncountsctl.c** is the reader. It maps the same file and walks the
  slots in 16-byte strides until the first slot whose `inameOff` is 0. For
  each slot before that one it either prints the name and count, or, when a
  second argument is given, sets the count to 0.

The model has five modules:

- `Strings` (`strings.dfy`): `strchr`, `strstr` and the first token of
  `g_strsplit`, stated on sequences. It also has the `Indexes` relation
  between a map and a sequence.
- `Shm` (`shm.dfy`): the table layout shared by both programs. It holds the
  constants, `u64`, `Counter`, the `Store` class (two `const` arrays: the
  slots, and the name region), `/dev/shm` as a class `ShmDir` holding the
  full-size files by path and the paths of files that hold 0 bytes, and the
  backing path. The `Layout` predicate says that a table holds exactly a
  given list of names. The lemmas cover how appending one name changes
  `Layout`, and how names are read back.
- `Interning` (`interning.dfy`): the `insns` hash table stated on
  sequences. `Intern` gives the slot order after a series of lookups,
  `SlotsOf` the slots the registrations point at, and `Accounts` ties the
  table, the registrations and the counts to a series of lookups.
- `Insncounts` (`insncounts.dfy`): the writer.
  - Spec functions: target selection, option parsing, and classification
    of a block (`Classify`).
  - A class `Plugin` holds the plugin's globals. Its methods are `Install`,
    `ParseOptions`, `Init`, `TbTrans` (vcpu_tb_trans) with its per-instruction
    steps, `Resolve`/`Allocate` (the hash lookup and the first-sighting
    append), and `Execute` (one run of a registered inline add).
- `InsncountsCtl` (`insncountsctl.dfy`): the reader. It has the spec
  functions `Live`, `Report` and `Reset`, the method `Run` for `main`, and
  `Walk` for `main`'s loop over the slots. Its lemmas give the round trip
  from the writer's table back to the listing.

Slot `i` of the count region sits at byte offset `16 * i`. A slot's
`inameOff` is an absolute offset into the mapping, as in the code. Name
offsets start at `SHM_COUNT_SIZE`, so 0 can serve as the sentinel. The name
region is an array of characters in which absolute offset `off` is element
`off - SHM_COUNT_SIZE`.

QEMU's inline registrations are the list of slots that `TbTrans` returns, in
block order. `Execute(j)` is the wrapping `+1` that running such an
instruction performs on slot `j`.

Two facts about the code that the model keeps:

- The bounds `low_bound` and `high_bound` are zero-initialised statics, so
  the address window defaults to `low = high = 0`. With no `high=` option
  only address 0 is counted.
- `inameOff` is an absolute offset into the mapping, not an offset into the
  name region.

## Model

| member | source | states |
|---|---|---|
| Strings.Contains | contrib/plugins/insncounts.c:45-51 | `strstr(s, pat) != NULL`: true exactly when pat occurs at some position of s |
| Strings.Before | contrib/plugins/insncounts.c:167-169 | token 0 of `g_strsplit(s, c)`: the prefix of s up to the first c (all of s without one), which holds no c |
| Strings.IndexOfFromFirst | contrib/plugins/insncounts.c:130 | `strchr` from an index finds the first occurrence at or after it: nothing before the reported position matches |
| Strings.IndexOfFrom | contrib/plugins/insncounts.c:130 | `strchr` from an index: a position at or after it that holds the character |
| Strings.IndexOfPrefix | contrib/plugins/insncounts.c:134-150 | extending a sequence does not move the first occurrence of an element it already holds (a repeat sighting keeps its slot) |
| Strings.IndexesAppend | contrib/plugins/insncounts.c:149 | inserting a new name into the hash table at the next slot index keeps the table and the slot order in step |
| Shm.Store.constructor | contrib/plugins/insncounts.c:66-76 | the file truncated to 0 and grown to `SHM_TOTAL_SIZE`: every slot `{0, 0}`, every name byte NUL |
| Shm.Store.Zeroed | contrib/plugins/insncounts.c:66-76 | every byte of the file is 0: each slot `{0, 0}` and each name byte NUL |
| Shm.Packed | contrib/plugins/insncounts.c:142-147 | the name region's used part: each allocated name followed by its NUL, in allocation order |
| Shm.NameEnd | contrib/plugins/insncounts.c:147 | the name offset after the names: `SHM_COUNT_SIZE` plus the packed length |
| Shm.Layout | contrib/plugins/insncounts.c:138-147 | a table holding exactly the names ns: slot i names ns[i] at its allocation offset, later slots are `{0, 0}`, and the name region is the packed names followed by NULs |
| Shm.ShmPath | contrib/plugins/insncounts.c:59 | the backing path is a prefix of `"/dev/shm/insncounts." + target`: all of it when shorter than the 256-byte buffer, otherwise its first 255 characters |
| Shm.ShmPathInjective | contrib/plugins/insncountsctl.c:36 | writer and reader build the same path, and two targets short enough not to be truncated share a file only when they are equal |
| Shm.ShmPathTruncates | contrib/plugins/insncountsctl.c:36 | longer targets that agree up to the truncation point share one backing file |
| Shm.NameEndPrefix | contrib/plugins/insncounts.c:142-147 | the names before an earlier position end, NUL included, no later than those before a later position |
| Shm.NameStartIncreasing | contrib/plugins/insncounts.c:139 | name offsets are at least `SHM_COUNT_SIZE` (so never the sentinel 0) and strictly increase with the slot index |
| Shm.FitsPrefix | contrib/plugins/insncounts.c:138-147 | if a longer allocation history fits in both regions, so does each earlier one |
| Shm.PackedStores | contrib/plugins/insncounts.c:143 | each name of the packed name region, NUL included, can be read back at its allocation offset |
| Shm.ZeroLayout | contrib/plugins/insncounts.c:66-86 | a zeroed store holds no names: every slot is unused |
| Shm.LayoutIgnoresCounts | contrib/plugins/insncounts.c:152-153 | changing the counts of used slots leaves the table's layout valid |
| Shm.PackedAppend | contrib/plugins/insncounts.c:142-147 | appending a name puts it, NUL-terminated, at the old end of the names and advances that end by its length + 1 |
| Shm.NameStartAppend | contrib/plugins/insncounts.c:142-147 | appending a name moves no earlier name's offset |
| Shm.Overwrite | contrib/plugins/insncounts.c:143 | `memcpy` into a buffer keeps its length |
| Shm.OverwriteNuls | contrib/plugins/insncounts.c:143 | copying text over the zeros after the packed names appends that text |
| Shm.AppendNames | contrib/plugins/insncounts.c:143 | copying m and its NUL to the end of the packed names ns gives the packed names ns + [m] |
| Shm.AppendSlot | contrib/plugins/insncounts.c:138-140 | filling slot \|ns\| with `{0, NameEnd(ns)}` gives the slot table of ns + [m] |
| Shm.AppendLayout | contrib/plugins/insncounts.c:136-147 | writing the new slot at the count offset and the name + NUL at the name offset turns a table holding ns into one holding ns + [m] |
| Insncounts.SelectRule | contrib/plugins/insncounts.c:45-57 | checked in order: "loongarch64" gives start 11 and tab, else "aarch64" gives 0 and space, else "riscv64" gives 18 and space; None (init fails) exactly when none occurs |
| Insncounts.HexRun | contrib/plugins/insncounts.c:170 | reading more hex digits never lowers the value |
| Insncounts.ParseHex | contrib/plugins/insncounts.c:170-172 | `g_ascii_strtoull(s, NULL, 16)` is 0 when s does not start with a hex digit (the optional 0x prefix and saturation are in the body) |
| Insncounts.HexDigit | contrib/plugins/insncounts.c:170 | the hex digit for a value below 16 reads back as that value |
| Insncounts.HexText | contrib/plugins/insncounts.c:170 | the hex numeral of n is non-empty, starts with a hex digit and, from 16 on, has no leading zero |
| Insncounts.HexRunSnoc | contrib/plugins/insncounts.c:170 | one more hex digit d after the digits s reads as 16 times their value plus d |
| Insncounts.HexRunText | contrib/plugins/insncounts.c:170 | the hex numeral of n is all digits and reads back as n |
| Insncounts.ParseHexText | contrib/plugins/insncounts.c:170-172 | round trip: every 64-bit bound written in hex, with or without `0x`, parses back to itself |
| Insncounts.OptionKey | contrib/plugins/insncounts.c:167-169 | the key is the text of the option before its first '=' |
| Insncounts.OptionValue | contrib/plugins/insncounts.c:167-172 | `tokens[1]` of the split read as hex; 0 when the option has no '=' |
| Insncounts.ApplyOptions | contrib/plugins/insncounts.c:165-177 | the option loop: each `low=`/`high=` option sets its bound in turn, and the first other key stops the loop with failure |
| Insncounts.OptionsAccepted | contrib/plugins/insncounts.c:165-177 | the option loop gets through all options exactly when every key is `low` or `high` |
| Insncounts.ApplyOptionsAppend | contrib/plugins/insncounts.c:165-177 | running the loop over a + b is running it over a and then, if a was accepted, over b |
| Insncounts.LastLowOptionWins | contrib/plugins/insncounts.c:169-170 | a final `low=` option sets the low bound and leaves the high bound alone |
| Insncounts.LastHighOptionWins | contrib/plugins/insncounts.c:171-172 | a final `high=` option sets the high bound and leaves the low bound alone |
| Insncounts.AllAdmissiblePrefix | contrib/plugins/insncounts.c:119-133 | the slicing demand on a block holds for each of its prefixes |
| Insncounts.InWindow | contrib/plugins/insncounts.c:124-125 | the inclusive window test: an address is skipped when below `low` or above `high` |
| Insncounts.OutOfBoundsText | contrib/plugins/insncounts.c:127-128 | the disassembly is the out-of-bounds text when its first character is 'A' |
| Insncounts.Counted | contrib/plugins/insncounts.c:124-128 | an instruction is counted when it is in the window and its text is not the out-of-bounds text |
| Insncounts.Mnemonic | contrib/plugins/insncounts.c:129-133 | the mnemonic is the text from the rule's start index up to, not including, the first terminator at or after it; it holds neither the terminator nor a NUL |
| Insncounts.Classify | contrib/plugins/insncounts.c:119-128 | a block contributes at most one mnemonic per instruction |
| Insncounts.ClassifyAppend | contrib/plugins/insncounts.c:119 | classifying two blocks back to back is classifying each in turn |
| Insncounts.SkippedInsnsClassifyToNothing | contrib/plugins/insncounts.c:124-128 | instructions outside the window or with disassembly starting with 'A' contribute no mnemonic: no slot, no name, no registration |
| Insncounts.ClassifySound | contrib/plugins/insncounts.c:124-133 | every mnemonic of a block comes from an instruction of the block that is in the inclusive window, is not the out-of-bounds text, and slices to it |
| Insncounts.ClassifyComplete | contrib/plugins/insncounts.c:124-133 | every such counted instruction contributes its mnemonic |
| Insncounts.ClassifyMembers | contrib/plugins/insncounts.c:124-133 | both directions: a mnemonic comes out of a block exactly when some instruction in the inclusive window, whose disassembly is not the out-of-bounds text, slices to that mnemonic |
| Interning.Intern | contrib/plugins/insncounts.c:134-150 | after the lookups the table holds exactly the old names and the looked-up ones |
| Interning.InternOne | contrib/plugins/insncounts.c:134-150 | one hash lookup: the table only grows, at most by m, it then holds m, and it is unchanged exactly when m was already there |
| Interning.InternExtends | contrib/plugins/insncounts.c:138-147 | interning only appends: existing names keep their slots |
| Interning.InternDistinct | contrib/plugins/insncounts.c:134-150 | each distinct mnemonic occupies exactly one slot |
| Interning.InternKnown | contrib/plugins/insncounts.c:134-135 | looking up names already present changes nothing |
| Interning.InternIdempotent | contrib/plugins/insncounts.c:134-135 | translating the same mnemonics again allocates nothing more |
| Interning.InternAppend | contrib/plugins/insncounts.c:119-156 | interning a then b is interning a + b |
| Interning.InternFirstSightingOrder | contrib/plugins/insncounts.c:138-147 | slots are dense in first-sighting order: of two new names, the one in the earlier slot was sighted first |
| Interning.NewNameFromMs | contrib/plugins/insncounts.c:138-149 | a newly allocated name is one that was looked up |
| Interning.NewNameNotInPrefix | contrib/plugins/insncounts.c:134-135 | a newly allocated name was not in the table before |
| Interning.SlotsOf | contrib/plugins/insncounts.c:152-153 | registration k points at the slot that holds mnemonic k |
| Interning.SlotsOfGrow | contrib/plugins/insncounts.c:138-147 | allocating more slots does not move the slots of earlier registrations |
| Interning.InternStep | contrib/plugins/insncounts.c:134-150 | looking up one more mnemonic is one more single lookup |
| Interning.InternSingle | contrib/plugins/insncounts.c:134-153 | one lookup of m, and its one registration pointing at m's slot |
| Interning.SlotsOfConcat | contrib/plugins/insncounts.c:119-156 | the registrations of a + b are those of a and then those of b |
| Interning.ZerosConcat | contrib/plugins/insncounts.c:140 | zero counts appended in two steps are zero counts appended at once |
| Interning.AccountsCompose | contrib/plugins/insncounts.c:119-156 | the effect of looking up a and then b composes into the effect of looking up a + b: table, registrations and counts |
| Interning.ZerosNoneOrOne | contrib/plugins/insncounts.c:140 | a lookup adds no counts, or one zero count |
| Insncounts.Bump | contrib/plugins/insncounts.c:152-153 | the inline `ADD_U64` of 1: the count wraps modulo 2^64 and the name offset is untouched |
| Insncounts.CountsOf | contrib/plugins/insncounts.c:152-153 | the counts of the first n slots, in slot order |
| Insncounts.CountsOfAppend | contrib/plugins/insncounts.c:140 | a freshly filled slot adds a zero count |
| Insncounts.CountsOfUpdate | contrib/plugins/insncounts.c:152-153 | changing one used slot's count changes that one count |
| Insncounts.Plugin.constructor | contrib/plugins/insncounts.c:31-39 | the globals of a loaded plugin are zero: bounds 0, no store, offsets 0, empty hash table |
| Insncounts.Plugin.Install | contrib/plugins/insncounts.c:160-185 | bounds as the option loop leaves them; status 0 exactly when the options are accepted, the target is supported and no call on the backing file fails, else -1 with no callbacks. Rejected options or an unsupported target leave `/dev/shm` unchanged; otherwise it is left as `InitLeaves` says for the failing call, and past the grow the file is new and zeroed. On success the table is that file's, empty, with fresh arrays, count offset 0 and name offset `SHM_COUNT_SIZE` |
| Insncounts.Plugin.ParseOptions | contrib/plugins/insncounts.c:165-177 | the option loop's result and bounds are those of `ApplyOptions` |
| Insncounts.Plugin.Init | contrib/plugins/insncounts.c:41-90 | the rule is chosen before any I/O, and an unsupported target touches no file; status 0 exactly when the target is supported and no call on the file fails; `/dev/shm` is left as `InitLeaves` says; on success the plugin maps the new zeroed file at the target's path and the name offset is `SHM_COUNT_SIZE` |
| Insncounts.InitLeaves | contrib/plugins/insncounts.c:59-84 | what each failing call leaves at the path: a failed open nothing; a failed shrink a missing file created with 0 bytes, an existing one as it was; a failed grow a 0-byte file; a failed mmap, or none, a new full-size file |
| Insncounts.MapBacking | contrib/plugins/insncounts.c:59-84 | open, ftruncate to 0, ftruncate to full size and mmap in order, stopping at the first failure: `/dev/shm` ends as `InitLeaves` says, a file past the grow is fresh and zeroed, and a store is returned exactly when nothing failed |
| Shm.ShmDir.Create | contrib/plugins/insncounts.c:60 | `open` with `O_CREAT`: a missing file now exists with 0 bytes, an existing one is untouched |
| Shm.ShmDir.Shrink | contrib/plugins/insncounts.c:66 | `ftruncate` to 0: the file holds 0 bytes, its old contents gone |
| Shm.ShmDir.Grow | contrib/plugins/insncounts.c:72 | `ftruncate` to `SHM_TOTAL_SIZE`: the file becomes a fresh full-size store of zeros; no other file changes |
| Insncounts.Plugin.Resolve | contrib/plugins/insncounts.c:134-150 | returns m's slot. A repeat sighting changes no offset, slot, name or map entry. A first sighting writes slot `{0, old name offset}` at the count offset, grows the offsets by 16 and \|m\|+1, and adds exactly the key m |
| Insncounts.Plugin.Allocate | contrib/plugins/insncounts.c:136-149 | the first-sighting append: new slot index \|names\| at the old count offset, the name copied at the old name offset, both offsets advanced, the map extended by m only, a zero count added |
| Insncounts.Plugin.TbTrans | contrib/plugins/insncounts.c:114-157 | stated by `Accounts`: after the block the table holds `Intern(old names, Classify(block))`; the registrations are `SlotsOf` the classified mnemonics, in block order; old counts are kept and each new slot counts 0; the invariant holds |
| Insncounts.Plugin.TranslateNext | contrib/plugins/insncounts.c:119-156 | one iteration of the loop takes `Accounts` of the first i instructions to `Accounts` of the first i+1 |
| Insncounts.Plugin.TranslateInsn | contrib/plugins/insncounts.c:120-155 | an instruction contributes exactly its mnemonics: nothing outside the window or for 'A' text, else one lookup and one registration on the resolved slot |
| Insncounts.Plugin.CountMnemonic | contrib/plugins/insncounts.c:129-153 | the counted case: one lookup of m and one registration, on m's slot, whether the sighting is first or repeat |
| Insncounts.Plugin.Execute | contrib/plugins/insncounts.c:152-153 | executing a registered instruction bumps that slot's count, wrapping at 2^64, and keeps the invariant |
| Shm.Store.Record | contrib/plugins/insncounts.c:138-143 | the two stores of a first sighting: slot `\|names\|` becomes `{0, name offset}` and the name with its NUL is copied at the name offset; the table then holds the names plus m |
| Shm.CopyName | contrib/plugins/insncounts.c:143 | `memcpy`: the name region becomes `Overwrite(old, at, src)` |
| Insncounts.ClassifyUpToWhole | contrib/plugins/insncounts.c:119 | the loop starts with no mnemonics and ends with those of the whole block |
| Insncounts.ClassifyStep | contrib/plugins/insncounts.c:119-128 | classifying one more instruction appends its mnemonics |
| Insncounts.ClassifySplit | contrib/plugins/insncounts.c:119 | a block's classification is that of any prefix followed by that of the rest |
| Interning.InternFitsPrefix | contrib/plugins/insncounts.c:138-147 | if interning a whole block fits, interning any prefix of it does too |
| Insncounts.ClassifyPrefixFits | contrib/plugins/insncounts.c:119-156 | if the names of a whole block fit, the names of any first k instructions fit |
| Insncounts.TbTransFits | contrib/plugins/insncounts.c:119-156 | in the middle of a block, the next instruction is sliceable, its lookup fits, and it extends the classification by its mnemonics |
| InsncountsCtl.Signed | contrib/plugins/insncountsctl.c:66-68 | `PRId64` prints the count's 64 bits as two's complement: a value in [-2^63, 2^63) congruent to the count modulo 2^64 |
| InsncountsCtl.NameAt | contrib/plugins/insncountsctl.c:65 | the string at an absolute offset exists exactly when the offset lies in the name region and a NUL follows it there; it is then the NUL-free text stored there |
| InsncountsCtl.NameAtStored | contrib/plugins/insncountsctl.c:65 | a name stored NUL-terminated at an offset is read back exactly |
| InsncountsCtl.EntryOf | contrib/plugins/insncountsctl.c:65-68 | one printed line: the name read at the slot's offset and the count as `PRId64` reads it |
| InsncountsCtl.Live | contrib/plugins/insncountsctl.c:56-60 | the walk visits every slot before the first whose `inameOff` is 0 (or all of them), and no other |
| InsncountsCtl.LiveOffsets | contrib/plugins/insncountsctl.c:59-60 | how far the walk goes depends on the name offsets only |
| InsncountsCtl.Report | contrib/plugins/insncountsctl.c:64-69 | one line per visited slot |
| InsncountsCtl.Reset | contrib/plugins/insncountsctl.c:62-63 | a reset keeps the number of slots |
| InsncountsCtl.ResetKeepsOffsets | contrib/plugins/insncountsctl.c:62-63 | a reset changes no `inameOff`, so a later walk visits the same slots |
| InsncountsCtl.ResetIdempotent | contrib/plugins/insncountsctl.c:62-63 | resetting twice equals resetting once |
| InsncountsCtl.ReportAfterReset | contrib/plugins/insncountsctl.c:56-68 | after a reset a listing shows the same names, in the same order, each with count 0 |
| InsncountsCtl.LayoutNameAt | contrib/plugins/insncountsctl.c:59-65 | in a writer's table, slot i has a nonzero offset at which the reader finds name i |
| InsncountsCtl.ReportLayout | contrib/plugins/insncountsctl.c:56-68 | round trip: a table holding the names ns lists exactly ns, in allocation (first-sighting) order, each with its slot's count |
| InsncountsCtl.ResetLayout | contrib/plugins/insncountsctl.c:56-63 | a reset keeps the writer's table (same names, same offsets) with every used count 0 |
| InsncountsCtl.ReadsPlugin | contrib/plugins/insncountsctl.c:56-68 | listing a live writer's table shows its mnemonics in slot order, each with its current count |
| InsncountsCtl.ReportZeroed | contrib/plugins/insncountsctl.c:56-60 | a file of zeros, such as a writer whose `mmap` failed leaves, lists nothing |
| InsncountsCtl.Run | contrib/plugins/insncountsctl.c:23-76 | exits 0 exactly when a target is given and its full-size file opens and maps; is killed by SIGBUS exactly when the file holds 0 bytes; otherwise exits -1. Except on exit 0 nothing is listed and no table changes. With a further argument the walked counts become 0 and nothing is printed; otherwise the slots' `Report` is printed and nothing changes. No other file's slots change |
| InsncountsCtl.Opens | contrib/plugins/insncountsctl.c:31-49 | main reaches its loop: a target argument is given, and its file opens and maps |
| InsncountsCtl.MapsEmpty | contrib/plugins/insncountsctl.c:37-59 | main maps a 0-byte file, so its first read of a slot lies past the end of the file |
| InsncountsCtl.Walk | contrib/plugins/insncountsctl.c:56-70 | the loop in 16-byte strides with its `break`: reset mode gives `Reset` of the old slots; report mode gives `Report` and leaves the slots unchanged |

## Left out

- The outcome of the writer's file calls is an input, `InitIo`, naming the first call that fails. The reader's is a boolean `ioFails` for `open` or `mmap` failing on an existing file; a missing file is a path absent from `/dev/shm`, because the reader calls `open` without `O_CREAT`. `munmap` and `close` are not modelled.
- C text is modelled as `seq<char>`, one `char` per byte: the start indexes 11 and 18, a name's length + 1, the name region and the 255 characters of a path all count bytes.
- Insncounts.Plugin.Init binds a fresh zeroed `Store` at the path instead of truncating the existing file object in place. A reader that still maps the old file is not modelled.
- Error messages on stderr, and the usage text, are not modelled.
- `plugin_exit` and `insns_foreach` are not modelled. They emit the writer's own report in hash-table order through `qemu_plugin_outs`, and unmap the file.
- InsncountsCtl.Report: the lines are `Entry` values, not formatted text. The `%-12s` padding, the tab and the decimal digits are left out. The signed reading of `PRId64` is kept.
- Insncounts.ParseHex: leading whitespace, a sign and `errno` handling of `g_ascii_strtoull` are not modelled. It models an optional `0x` prefix, hex digits up to the first other character, and saturation at 2^64-1.
- Insncounts.OptionValue: for an option without '=', `tokens[1]` is NULL and is passed to `g_ascii_strtoull`; the model takes the value 0 there.
- Insncounts.Plugin.TbTrans requires that the block's new names fit. The source does not check capacity: past 8192 slots or 128 KiB of names it writes outside the regions, and that is not modelled.
- Insncounts.Plugin.TbTrans requires that every counted instruction is sliceable: the start index lies within the text and the terminator occurs after it. Otherwise `strchr` returns NULL and the source writes through it.
- The NUL that vcpu_tb_trans writes over the disassembly buffer, and `g_free` of that buffer, are not modelled. The buffer is discarded right after.
- The QEMU plugin API (`qemu_plugin_tb_*`, `qemu_plugin_insn_*`, callback registration) is not modelled. A block is a sequence of `Insn(vaddr, disas)`. The registrations are the returned slot list, and executing one is `Execute`.
- Concurrency is not modelled: several vCPUs adding to one count, or a reader walking while the writer appends. The model is sequential.
- InsncountsCtl.NameAt: an offset outside the name region, or one with no NUL after it inside the region, yields None. The C reads raw bytes of the mapping there, or past its end.
- `shm_count_off` and `shm_iname_off` are C `int`s. Under the capacity requirement they are at most 2^18, so they are modelled as unbounded naturals.
