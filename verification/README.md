# BrainDance in Dafny

BrainDance is a small i386 kernel. This project models its parts that are closed
state machines or transformations, and proves what they keep over whole runs:

- **The calculator**: a shunting-yard translator from characters to characters and a
  32-slot stack machine. `CalcTokens`, `CalcGrammar`, `ShuntingYard`, `StackMachine`
  hold the tokens, the parse trees and the two algorithms on tokens; `Calculator` holds
  the character loops and the semantic preservation theorem, `CalcReference` the same
  theorem for sums, terms and factors in decimal digits, `CalcLimits` the trees that
  attain its bounds.
- **BDFS**, the in-memory file system: `BdfsModel` holds every operation on values,
  `BdfsRuns` the invariant of every reachable state, `BdfsLaws` what each operation
  changes and returns, `BdfsBytes` where bytes land and the first tree, `Bdfs` the
  operations as they run on arrays.
- **Physical memory and paging**: `PhysicalBlocks`, `Pmm` and `PmmRuns` (a bitmap of
  32-bit words with a redundant counter, its setup, and runs of it), `PageTables` and
  `VirtualMemory` (two-level page tables edited through the recursive slot 1023, agreeing
  with section 4.3, "32-Bit Paging", of the Intel SDM volume 3A), `KernelMemory` (the same
  machine with the bitmap in the memory that page tables are taken from) and `Paging` (the
  functions on that one memory as they run, every access through the walk of the moment).
- **Terminal, strtok, bytecode and editor**: `Terminal` (a scrolling terminal that shows
  a part of an unbounded one), `Strtok`, `Bytecode` (encoder and interpreter),
  `EditorText`, `EditorDisk` and `Editor` (save and load), with `Bytes` underneath.

Where the source updates state in place the model is a class or a method on arrays; its
`ensures` ties the new state to a function of the old one, and the lemmas are about that
function. Loops of one C function are sometimes methods of their own.

## How things are modelled

- A C string argument is its contents (no NUL inside). Bytes are 0 to 255.
- C `int` arithmetic of the calculator is a bounded type, so the verifier checks every
  operation for overflow; overflow, division by zero and a full stack are an explicit
  `Undefined` outcome of trees and of the machine alike.
- 32-bit words of the bitmap are their 32 bits, with mask, or, and, not defined bit by
  bit. Page table entries are their fields, with a proof that these are exactly the
  32-bit words.
- BDFS names are the raw 16 bytes, so that what strcpy and deletion leave behind the
  terminator is in the serialised image too.
- Preconditions are what C needs for a defined run: at most 2 GB of memory (the address
  handed out is an `int` product, memory/pmm.c:96), fewer than 8192 memory map entries
  (the loader stores them in one 64 KB segment, boot/BDbootloader.asm:16-33), kernel and
  bitmap in managed memory, `bytes_to_write + 511` below 2^32, `map_page` and `unmap_page`
  away from the window and from the page of the directory.
  The memory map is the E820 interface of section 15.1 of the ACPI Specification.
- Where C writes past a local buffer the method returns a flag that says so, and what
  happens after that is not modelled.

## Where the source does less than it seems to promise

- The serialised table is 2052 bytes but its region is 2048 (fs/bdfs.c:91-93), so every
  sync overwrites data bytes 0 to 3. `BdfsRuns.ReadsExactlyWhen` says when a file still
  reads back exactly, `BdfsLaws.FirstWriteSpoiled` how every first file written
  fails to, and `EditorDisk.SavedSheetLoads` what that means for the editor.
- `unmap_page` uses a physical address as a virtual one (memory/paging.c:120).
  `VirtualMemory.UnmapWorksWhen` gives the exact condition under which it works, for
  mapped and unmapped pages, `VirtualMemory.UnmapCanFail` runs in which it does not, and
  `VirtualMemory.UnmapFailsThere` a machine with such a run.
- The kernel reservation rounds down (memory/pmm.c:75), so the block with the end of the
  bitmap can be handed out, and the first page table is then placed over it.
  `KernelMemory.CounterRightWhen` gives the exact condition under which this never
  happens, `KernelMemory.TailOverwritten` what happens otherwise, and
  `KernelMemory.UnsafeThere` a machine on which it does.
- `pmm_init` decrements the counter for every visit to a block (memory/pmm.c:67-70): twice
  for a block that two usable regions share, and once for a part of a block behind the
  managed ones, where it also clears a bit behind the bitmap. Its memset covers whole bytes
  only (memory/pmm.c:56-59), so the flags of the last `total_blocks % 8` blocks start out
  as whatever the memory held. `Pmm.InitialCorrect` says exactly when the counter is right;
  `PhysicalBlocks.SharedBlock`, `PhysicalBlocks.BlockBehindEnd` and `Pmm.StrayBlock` give
  maps for which it is not. `PmmRuns.CounterOverRuns` says that no run repairs or spoils it.
- Rows that scroll in are blanked in colour 7, not in the colour of the last clear
  (libc/memcore.c:239-242); `Terminal.PadColor` has it as the code does.
- A directory's `length` is documented as a number of entries (include/bdfs.h:23) and is
  always 0 in the code; the model follows the code.
- The editor can save up to 1919 bytes, but the write goes through a 1024-byte bytecode
  buffer (app/utils/cable.c:12) that larger texts overflow; `EditorDisk.TooLargeToSave`
  gives such a sheet.

## Model

| member | source | states |
|---|---|---|
| `CalcTokens.LexLayout` | app/utils/calculator.c:62-70 | Spacing does not matter: tokens laid out with any number of spaces before, between and after them read back as the same tokens, provided two adjacent numbers are kept apart |
| `CalcTokens.LexRender` | app/utils/calculator.c:88-100 | Round trip through the output buffer: the text written for a token list (one space after each token, the last one overwritten by the terminator) reads back as exactly that list |
| `CalcTokens.LexSize` | app/utils/calculator.c:65-70 | A text of n characters holds tokens worth at most 2n emitted characters |
| `CalcGrammar.TruncDiv` | app/utils/calculator.c:18-18 | C division: the remainder is smaller in size than the divisor and has the sign of the dividend |
| `ShuntingYard.RunTree` | app/utils/calculator.c:62-86 | Loop lemma: on any stack whose top does not bind a parse tree, reading the tree's tokens pushes exactly its pending operators and emits exactly the rest, and the stack never grows by more than 3d + 3 - level for parenthesis depth d |
| `ShuntingYard.TranslatesTree` | app/utils/calculator.c:58-101 | The translator turns the tokens of every parse tree into its postfix form, with an operator stack of at most 3d + 2 entries |
| `ShuntingYard.TranslatesAnything` | app/utils/calculator.c:58-101 | For every token sequence, well-formed or not: numbers come out in order, operators with the same multiplicities, no parenthesis, no growth |
| `ShuntingYard.TrailingParenthesis` | app/utils/calculator.c:73-98 | For every token sequence, one more closing parenthesis at the end changes nothing: what is still open there counts as closed |
| `ShuntingYard.LeadingParenthesis` | app/utils/calculator.c:71-98 | For every token sequence, one more opening parenthesis at the front changes nothing: what is closed without having been opened counts as opened there |
| `StackMachine.SlotsSufficeWhen` | app/utils/calculator.c:25-49 | For every token sequence the 32-slot machine gives what one with an endless stack gives, if that one's tallest stack has at most 32 entries, and is undefined otherwise |
| `StackMachine.TallestTree` | app/utils/calculator.c:27-49 | While the postfix form of a tree runs in front of any further tokens, on any stack, the machine's stack grows by exactly the tree's height, or by no more if its value is undefined |
| `StackMachine.ValueStackBound` | app/utils/calculator.c:25-48 | Evaluating a parse tree of depth d, the value stack never exceeds 2d + 3 entries |
| `StackMachine.MachineRunsTree` | app/utils/calculator.c:27-49 | Running the postfix form of a tree in front of any further tokens, on any stack with room, pushes the tree's value, and is undefined exactly when that value is |
| `StackMachine.EvaluatesTree` | app/utils/calculator.c:24-55 | For depth at most 10 the 32-slot machine computes the tree's value exactly, undefinedness included |
| `StackMachine.UnbalancedYieldsZero` | app/utils/calculator.c:39-54 | Postfix code that runs out of operands, or does not end with exactly one value, yields 0 or is undefined |
| `StackMachine.UnknownOperator` | app/utils/calculator.c:13-21 | Any other operator replaces its two operands by 0 |
| `Calculator.PopOperators` | app/utils/calculator.c:74-83 | The popping loops leave the stack and the output of the token-level unwinding, within the output buffer |
| `Calculator.CopyNumber` | app/utils/calculator.c:65-70 | Copies exactly the maximal digit run and one space, and stops right behind it |
| `Calculator.ReadSymbol` | app/utils/calculator.c:71-85 | One parenthesis or operator has exactly the token-level effect on stack array and output buffer |
| `Calculator.Finish` | app/utils/calculator.c:88-100 | Flushes the stack without open parentheses and terminates the output over its last space |
| `Calculator.InfixToPostfix` | app/utils/calculator.c:58-101 | The character-level translator, with its index loops and the 32-slot stack, leaves in the buffer the C string of the token-level translation, for every text for which stack and buffer suffice; what the translation means is `CalcReference.CalculatorComputesSums` for sums, `ShuntingYard.TranslatesAnything` and the two parenthesis lemmas for the rest |
| `Calculator.ReadNumber` | app/utils/calculator.c:33-38 | Reads the value of the maximal digit run without leaving the int range at any step, whenever that value is in range |
| `Calculator.EvaluatePostfix` | app/utils/calculator.c:24-55 | Returns what the token-level machine returns, for every string on which C defines the result, with all int arithmetic checked for overflow |
| `Calculator.CalculatorMain` | app/utils/calculator.c:103-108 | The value printed is the machine's value of the translated text, for every text on which C defines the run |
| `Calculator.CalculatorCorrect` | app/utils/calculator.c:24-108 | Semantic preservation: for every parse tree of depth d at most 10 and every spacing of it within 128 characters, the calculator computes the tree's value under standard precedence and left associativity; the operator stack stays within 3d + 2 and the value stack within 2d + 3 entries, and the 256-byte buffer suffices; the run is defined if and only if no literal, intermediate value or divisor makes the tree's value undefined |
| `CalcReference.CalculatorComputesSums` | app/utils/calculator.c:6-108 | The same without a precedence function: for every sum of terms of factors, where `+` and `-` join terms, `*` and `/` join factors, and a factor is a decimal number or a sum in parentheses, nested at most 10 deep and spaced in any way within 128 characters, the calculator is defined if and only if every literal, intermediate value and divisor of the sum is, and computes its value |
| `CalcLimits.DepthLimitIsTight` | app/utils/calculator.c:24-86 | For every depth d a text of 6d + 5 characters attains both bounds, 3d + 2 operators and 2d + 3 values; the calculator is defined on that text if and only if d is at most 10 |
| `Calculator.OutputPreserves` | app/utils/calculator.c:58-101 | For every text: same digit runs in order, same multiset of operator characters, no parentheses, at most max(1, 2n) bytes with the terminator |
| `Bytes.CopyString` | libc/memcore.c:314-318 | strcpy changes exactly the target range, to the string at the front of the source and its terminator |
| `Bytes.CStrOf` | libc/memcore.c:314-318 | What strcpy leaves in a buffer reads back as the string, whatever bytes follow |
| `Bytes.LE32Bytes` | fs/bdfs.c:92-92 | Byte k of a stored 32-bit number is worth 256^k |
| `Bytes.CopyBytes` | libc/memcore.c:23-30 | memcpy changes exactly the target range, to the data |
| `Bytes.FillBytes` | libc/memcore.c:47-53 | memset sets exactly the first n bytes to the value |
| `Bytes.MoveBytes` | libc/memcore.c:32-45 | memmove copies the old source range for every overlap of source and target |
| `Bdfs.StrCompare` | libc/memcore.c:63-69 | strcmp yields zero exactly for equal C strings, and a negative number exactly if the first one comes before the second in the order of their bytes |
| `Bdfs.Disk.FindEntryInDir` | fs/bdfs.c:16-23 | Finds the least live slot with this parent and name, or -1 |
| `Bdfs.Disk.FindFreeEntry` | fs/bdfs.c:26-33 | Finds the least free slot, or -1 |
| `Bdfs.Disk.FindFreeSector` | fs/bdfs.c:204-215 | Finds the sector behind all live files |
| `Bdfs.Disk.SyncFileTable` | fs/bdfs.c:86-94 | Leaves the magic number and the encoded table, four bytes beyond the table sectors, and all other bytes as they were |
| `Bdfs.Disk.CreateDirEntry` | fs/bdfs.c:36-50 | Same table and code as the model, without syncing |
| `Bdfs.Disk.CreateFile` | fs/bdfs.c:96-111 | Same state and code as the model |
| `Bdfs.Disk.Mkdir` | fs/bdfs.c:113-120 | Same state and code as the model |
| `Bdfs.Disk.DeleteFile` | fs/bdfs.c:122-131 | Same state and code as the model |
| `Bdfs.Disk.RenameFile` | fs/bdfs.c:133-144 | Same state and code as the model |
| `Bdfs.Disk.ChangeDir` | fs/bdfs.c:176-194 | Same state and code as the model; only the current directory changes |
| `Bdfs.Disk.FindPlace` | fs/bdfs.c:222-241 | The type check, first placement and refusal to grow that `BdfsLaws.WriteEffect` and `BdfsBytes.WriteLands` are about |
| `Bdfs.Disk.WriteFile` | fs/bdfs.c:217-251 | The state and code that `BdfsLaws.WriteEffect`, `BdfsBytes.WriteLands` and `BdfsBytes.WriteBytes` are about |
| `Bdfs.Disk.ReadFile` | fs/bdfs.c:253-268 | Copies out exactly the file's bytes; on an error the caller's buffer is untouched; says when the file is larger than the caller's buffer |
| `Bdfs.Disk.InitDisk` | fs/bdfs.c:52-84 | Builds the default tree or loads the stored table, and goes to the root |
| `BdfsRuns.EncodeRoundTrip` | include/bdfs.h:18-24 | The 32-byte encoding of an entry decodes to the entry |
| `BdfsRuns.ImageRoundTrip` | fs/bdfs.c:79-94 | Decoding the image of a synced state gives its table back |
| `BdfsRuns.FirstDataBytes` | fs/bdfs.c:91-93 | In every synced state data bytes 0 to 3 hold the little-endian length field of entry 63 |
| `BdfsRuns.FailureChangesNothing` | fs/bdfs.c:96-251 | An operation that returns a negative code changes nothing |
| `BdfsRuns.ReinitRestores` | fs/bdfs.c:79-84 | Running bdfs_init again in any synced state restores the table exactly and only resets the current directory to the root |
| `BdfsRuns.FindIsTheMatch` | fs/bdfs.c:16-23 | With unique names, a lookup returns a slot if and only if that slot matches |
| `BdfsRuns.PlacementApart` | fs/bdfs.c:224-241 | A write is placed apart from every other live non-empty file: behind all of them, or inside its own old extent |
| `BdfsRuns.OffPath` | fs/bdfs.c:122-131 | No dead slot and no child of the current directory lies on its path to the root |
| `BdfsRuns.ChdirPath` | fs/bdfs.c:176-194 | Every directory change leaves a path to the root; `..` takes its tail |
| `BdfsRuns.CreateInv` | fs/bdfs.c:96-120 | Creation keeps the whole invariant, slot reuse and empty names included |
| `BdfsRuns.DeleteInv` | fs/bdfs.c:122-131 | Deletion keeps the whole invariant, non-empty directories included |
| `BdfsRuns.RenameInv` | fs/bdfs.c:133-144 | Renaming keeps the whole invariant |
| `BdfsRuns.WriteInv` | fs/bdfs.c:217-251 | Writing keeps the whole invariant and records the data as the slot's contents |
| `BdfsRuns.StepInv` | fs/bdfs.c:52-251 | Every operation keeps the invariant: synced image, unique names, disjoint extents, a path to the root, and stored contents |
| `BdfsRuns.RunInv` | fs/bdfs.c:52-251 | The invariant holds after bdfs_init and any sequence of operations |
| `BdfsRuns.ReadsLastWrite` | fs/bdfs.c:217-268 | In every reachable state a read returns what was last written to that entry, except that data bytes 0 to 3 hold the length field of entry 63 |
| `BdfsRuns.ReadsExactlyWhen` | fs/bdfs.c:86-94 | So a read returns the last write exactly if and only if the file does not start at sector 0 or its first bytes agree with that length field |
| `BdfsRuns.ReadAfterWrite` | fs/bdfs.c:217-268 | What a read right after a successful write returns, byte for byte |
| `BdfsLaws.FirstWriteSpoiled` | fs/bdfs.c:86-94 | The failing family, from power-on: create a file under any new name in the root, write 4 to 32768 bytes, and it reads back with its first four bytes zero |
| `BdfsRuns.ExtentsDisjoint` | fs/bdfs.c:204-251 | In every reachable state the extents of live non-empty files are disjoint and end by sector 64 |
| `BdfsRuns.RootIsNear` | fs/bdfs.c:176-194 | From every reachable state at most 63 times `cd ..` reach the root, through live directories only and without repetition |
| `BdfsRuns.NamesAreUnique` | fs/bdfs.c:16-23 | In every reachable state a lookup has at most one match and finds it, and every name is terminated within 16 bytes |
| `BdfsLaws.CreateResult` | fs/bdfs.c:97-101 | -1 for a long name, else -2 for a taken one, else -3 for a full table, else success, each exactly then |
| `BdfsLaws.CreateEffect` | fs/bdfs.c:100-110 | The first free slot holds the new empty entry, a lookup of the name finds it, no other slot changes; an empty name leaves the slot free |
| `BdfsLaws.DeleteEffect` | fs/bdfs.c:122-131 | Succeeds exactly if the entry exists; then the name is gone and no other slot changes |
| `BdfsLaws.RenameResult` | fs/bdfs.c:134-139 | -1, -2 and -3 exactly for a long new name, a missing entry and a taken new name, in this order |
| `BdfsLaws.RenameEffect` | fs/bdfs.c:141-143 | The same slot answers to the new name, nothing to the old one, no other field or slot changes; an empty new name deletes |
| `BdfsLaws.DeleteUndoesCreate` | fs/bdfs.c:96-131 | Creating an entry and deleting it leaves every lookup in every directory as it was |
| `BdfsLaws.RenameUndoesRename` | fs/bdfs.c:133-144 | Renaming an entry and renaming it back succeeds and leaves every lookup in every directory as it was |
| `BdfsLaws.ChdirEffect` | fs/bdfs.c:176-194 | Enters exactly the named directory; -1 and -2 for no entry and for a file; `..` undoes it unless the entry sits in slot 0 |
| `BdfsLaws.FreeSectorAttained` | fs/bdfs.c:204-215 | The free sector is 0 or the end of some live file, so it is the maximum |
| `BdfsLaws.WriteEffect` | fs/bdfs.c:217-251 | -1, -3 and -2 exactly for no entry, a directory and too few sectors; otherwise one entry changes its extent and nothing else: a file with data stays where it is, and one without starts where the last live file ends, or at 0 |
| `BdfsLaws.StepLists` | fs/bdfs.c:96-251 | The file system as a table of contents, in any reachable state: which names of which kind every directory lists after each of the seven operations, exactly when the operation succeeds, and what becomes of the current directory |
| `BdfsBytes.WriteLands` | fs/bdfs.c:204-241 | In bytes: if sector s is the first one behind all live files, a file without data is placed there if the data end by byte 32768 and refused otherwise; a file with data stays in place if the data fit the sectors it has |
| `BdfsBytes.WriteBytes` | fs/bdfs.c:245-250 | Behind the serialised table, a write changes exactly the bytes from 2048 + 512 * start on, to the data |
| `BdfsBytes.ReadBytes` | fs/bdfs.c:253-268 | -1 and -2 exactly for no entry and a directory; otherwise the bytes that lie from 2048 + 512 * start on, as many as the entry says |
| `BdfsBytes.ImageBytes` | fs/bdfs.c:86-94 | In every synced state storage begins with the bytes 53 46 44 42 and then holds, for each slot, 16 bytes of name and kind, parent, start and length as little-endian words |
| `BdfsBytes.CreateBytes` | fs/bdfs.c:103-103 | The 16 bytes of a name after creation: the name, its terminator, and what the slot held before behind it |
| `BdfsBytes.RenameBytes` | fs/bdfs.c:141-141 | The same after renaming |
| `BdfsBytes.DeleteBytes` | fs/bdfs.c:128-128 | Deletion clears the first byte of the name and nothing else of the entry |
| `BdfsBytes.Dots` | fs/bdfs.c:177-185 | `.` changes nothing, `..` changes nothing in the root and moves to the parent elsewhere |
| `BdfsBytes.FirstTree` | fs/bdfs.c:58-76 | After the first bdfs_init slot 0 is the root, slots 1 to 6 are soul, cortex, vault, chrome, drift and ghost in it, slot 7 is cypher in vault, and all others are free |
| `PhysicalBlocks.AllocCorrect` | memory/pmm.c:84-97 | In every state with a right counter, block 0 marked or not: used_blocks stays equal to the number of set bits, the least free searched block is taken, and none exactly if there is none; while block 0 is marked it returns 0 exactly then |
| `PhysicalBlocks.FreeCorrect` | memory/pmm.c:99-105 | In every such state, freeing any managed address keeps used_blocks equal to the number of set bits and clears exactly one bit; once block 0 is freed, the next allocation takes it back and returns 0 |
| `PhysicalBlocks.CountIsSize` | memory/pmm.c:60-79 | The number of set bits is the size of the set of marked blocks |
| `PhysicalBlocks.TopAttained` | memory/pmm.c:46-52 | The top of memory is the end of some usable region, or 0 |
| `PhysicalBlocks.TotalIsLast` | memory/pmm.c:46-54 | total_blocks is the one number of whole blocks below the greatest end of a usable region |
| `PhysicalBlocks.VisitsAreSteps` | memory/pmm.c:64-69 | The blocks visited for a region are those that some step of 4096 bytes from its base on, within its length, lies in |
| `PhysicalBlocks.OccupiedMarkedWhen` | memory/pmm.c:74-81 | After pmm_init all blocks that kernel and bitmap reach into are marked if and only if the bitmap ends on a block boundary or its last block is not usable, because the reservation rounds down |
| `PhysicalBlocks.TailHandedOutFirst` | memory/pmm.c:75-97 | Otherwise the first block that the allocator hands out is the one that holds the end of the bitmap |
| `PhysicalBlocks.SharedBlock` | memory/pmm.c:63-71 | A memory map of two regions without a common byte for which a block is visited twice |
| `PhysicalBlocks.BlockBehindEnd` | memory/pmm.c:47-71 | A memory map of one region for which a block behind the managed ones is visited |
| `Pmm.InitialCorrect` | memory/pmm.c:42-82 | For every map, whatever the memory held: pmm_init marks exactly the reserved and the unusable blocks, but for stray ones, that is unusable blocks beyond the whole bytes of the bitmap that were clear; used_blocks counts the marked ones if and only if there are as many visits beyond one per usable block as stray blocks; without stray blocks, if and only if no block is visited twice and none behind the managed ones; `Pmm.InitialMeans` says the same of the flags in bytes |
| `Pmm.InitialMeans` | memory/pmm.c:42-82 | In bytes, for every map and content of the memory: a block is marked after pmm_init if and only if it lies wholly below the end of kernel and bitmap, or no step of the freeing loops reaches it and the memset covers its flag or the memory held it set |
| `Pmm.StrayBlock` | memory/pmm.c:54-60 | A map for which the counter is right if and only if the memory held the right two bits |
| `Pmm.BitsAfter` | memory/pmm.c:14-21 | Setting and clearing with word masks changes exactly one flag of the bitmap, and none if the bit lies behind the flags |
| `Pmm.BitsAfterByte` | memory/pmm.c:59-59 | Filling one byte of the bitmap sets exactly its eight flags |
| `Pmm.Manager.SetBlock` | memory/pmm.c:14-16 | Sets one flag |
| `Pmm.Manager.ClearBlock` | memory/pmm.c:19-21 | Clears one flag, or a bit behind the flags |
| `Pmm.Manager.TestBlock` | memory/pmm.c:24-26 | Reads one flag |
| `Pmm.Manager.FindFirstFree` | memory/pmm.c:29-40 | The word-skipping search returns what a plain bit-by-bit scan returns |
| `Pmm.Manager.FreeRegion` | memory/pmm.c:64-71 | Clears exactly the blocks that the loop visits and subtracts their number from the counter, modulo 2^32, clear already or not |
| `Pmm.Manager.Init` | memory/pmm.c:42-82 | total_blocks is the greatest end of a usable region divided by 4096, whatever other regions the map holds; flags and counter are those that `Pmm.InitialMeans` and `Pmm.InitialCorrect` are about, for every number of blocks and every content of the memory behind the kernel |
| `Pmm.Manager.AllocBlock` | memory/pmm.c:84-97 | Same state and address as the model |
| `Pmm.Manager.FreeBlock` | memory/pmm.c:99-105 | Same state as the model, for every address inside the managed memory |
| `PmmRuns.CounterOverRuns` | memory/pmm.c:42-105 | After pmm_init and any sequence of allocations and frees of managed addresses, block 0 and reserved blocks included, used_blocks equals the number of set bits if and only if it does right after pmm_init |
| `PmmRuns.NextBlock` | memory/pmm.c:84-97 | After every such sequence: the next allocation takes the least free searched block, and none exactly if there is none; while block 0 is marked it returns 0 exactly then, while block 0 is free it takes block 0 and returns 0 |
| `PmmRuns.BlockZeroStays` | memory/pmm.c:74-105 | Block 0 is marked after every such sequence that does not free it |
| `PmmRuns.FlagsOverRuns` | memory/pmm.c:84-105 | After every sequence of calls, whatever the counter: a block is marked if and only if the last call that took or freed it took it, or there was none and it was marked before |
| `PageTables.UnpackPack` | include/paging.h:16-24 | The bit fields of an entry are recovered from its 32-bit word |
| `PageTables.PackUnpack` | include/paging.h:16-24 | Every 32-bit word is the word of its fields |
| `PageTables.PackBits` | include/paging.h:16-39 | Present, rw and user are bits 0 to 2 of the word, the frame is bits 12 to 31 |
| `PageTables.WalkReads` | memory/paging.c:132-148 | The walk takes ten bits of directory index, ten of table index and twelve of offset |
| `PageTables.WindowWalk` | memory/paging.c:48-51 | Walking page i of the recursive window lands on the frame of table i, or faults if slot i is absent |
| `PageTables.GetPhysAddrIsWalk` | memory/paging.c:131-149 | get_phys_addr agrees with the 32-bit paging walk on every address, the window included, and returns 0 exactly for unmapped addresses and physical address 0 |
| `PageTables.SetPteMaps` | memory/paging.c:93-103 | Writing one page table entry changes the mapping of exactly one page and keeps the recursive structure |
| `PageTables.AddTableMaps` | memory/paging.c:82-90 | Adding a zeroed table in an unused frame maps nothing but its own window page |
| `VirtualMemory.FreshIsUnused` | memory/paging.c:73-86 | A block from the allocator is neither reserved nor the frame of any table |
| `VirtualMemory.MapSetsOneKey` | memory/paging.c:64-107 | map_page sets exactly one key of the abstract map, new table or not; a new table is the block that the allocator hands out and appears at its window page, and the bitmap changes only then |
| `VirtualMemory.MapLeavesReserved` | memory/paging.c:64-107 | It writes to no reserved frame but those of the directory and the first table |
| `VirtualMemory.MapFailsWhen` | memory/paging.c:73-80 | It halts if and only if a table is needed and no block is free |
| `VirtualMemory.UnmapRemovesOneKey` | memory/paging.c:109-129 | With the table identity-mapped, unmap_page removes exactly one key and keeps the recursive structure |
| `VirtualMemory.UnmapTouches` | memory/paging.c:109-129 | In memory unmap_page changes one word at most, to 0: that with the index of the page in the frame that the table address translates to |
| `VirtualMemory.UnmapWorksWhen` | memory/paging.c:109-129 | For every page: it removes exactly that key if and only if there is no table, or the frame number taken for the table's page translates to the table's frame or, for a page that is not mapped, to a frame in which the cleared word maps nothing; for a mapped page, if and only if the table's frame is identity-mapped |
| `VirtualMemory.UnmapCanFail` | memory/paging.c:109-129 | From every safe start with a free block, two map_page calls lead to a state in which unmap_page of a mapped page does not remove just that key |
| `VirtualMemory.UnmapFailsThere` | memory/paging.c:109-129 | A machine with 8 MB on which this happens, whatever its memory held |
| `VirtualMemory.InitStarts` | memory/pmm.c:42-82 | Without stray blocks and visits behind the managed ones, pmm_init leaves right flags and, if and only if no block is visited twice, a right counter with block 0 marked |
| `VirtualMemory.InitBoots` | memory/pmm.c:42-82 | On a machine that starts safely (map that fits and visits each block once, no stray block, safe bitmap tail) the state after pmm_init is one from which the run theorems hold |
| `VirtualMemory.SafeMachine` | memory/pmm.c:42-97 | A machine with 8 MB that starts safely, and the first block it hands out |
| `VirtualMemory.InstallMaps` | memory/paging.c:26-51 | After paging_install exactly the first 4 MB are identity-mapped, besides the window pages of the first table and the directory |
| `VirtualMemory.InstallTouches` | memory/paging.c:26-51 | paging_install writes frames 0x90 and 0x91 only; every word there is stated |
| `VirtualMemory.StepInv` | memory/paging.c:64-129 | Allocations, frees, mappings and unmappings keep the joint invariant of page tables and bitmap; `KernelMemory.StepSimulates` carries it over to the machine whose bitmap lies in memory |
| `VirtualMemory.StepMeans` | memory/paging.c:64-129 | What each operation changes: an allocation the least clear flag and no memory, a free one flag, map_page one key unless it needs a table and no block is free, unmap_page one key and no flag |
| `VirtualMemory.OutstandingAreHeld` | memory/pmm.c:84-105 | The outstanding blocks of a run are exactly those that some call of pmm_alloc_block handed out and no later pmm_free_block freed |
| `VirtualMemory.ReachableBlocks` | memory/pmm.c:42-105 | Over every run from pmm_init and paging_install on a machine that starts safely: right counter; outstanding blocks in use, behind kernel and bitmap, and no table; the next block handed out is the least free one, or 0 exactly if none is free, and none of those |
| `VirtualMemory.ReachableTables` | memory/paging.c:64-149 | Over the same runs: table frames distinct from each other, from 0x90000 and 0x91000 and behind kernel and bitmap; window and get_phys_addr right on every address |
| `KernelMemory.StoreBitStores` | memory/pmm.c:14-21 | With the bitmap as bits of memory words behind the kernel, setting or clearing one changes exactly one flag and no other frame |
| `KernelMemory.StoredBitIs` | memory/pmm.c:24-26 | The flag of block i is bit i % 32 of the 32-bit word at bitmap address + 4 * (i / 32) |
| `KernelMemory.SetBitIsMask` | memory/pmm.c:15-20 | Setting or clearing a bit of a memory word is what the masks do to its 32 bits |
| `KernelMemory.StoredBitsAreWords` | memory/pmm.c:55-55 | The flags in memory are those of the manager's array of words |
| `KernelMemory.KernelStarts` | memory/pmm.c:42-82 | pmm_init leaves in memory a right counter if and only if no block is visited twice, and then the right flags |
| `KernelMemory.StepSimulates` | memory/paging.c:64-129 | With the bitmap in memory among the frames that tables are taken from, every operation does what it does with the bitmap kept apart, as long as the invariant holds |
| `KernelMemory.SafeRuns` | memory/pmm.c:42-105 | With a safe tail and no block visited twice, every run of the one-memory machine from pmm_init and paging_install is a run of the other: same memory outside the bitmap, same flags, right counter, the bitmap reachable at its own address and the tables recursive |
| `KernelMemory.SafeTables` | memory/paging.c:64-149 | In every state of those runs: table frames distinct from each other, from 0x90000 and 0x91000 and behind kernel and bitmap; window and get_phys_addr right on every address |
| `KernelMemory.TailOverwritten` | memory/paging.c:73-103 | Without a safe tail, the first map_page of any page that needs a table places the table over the end of the bitmap and clears all flags there but those under the entry it writes |
| `KernelMemory.UnsafeRun` | memory/paging.c:64-107 | Without it, a single map_page from boot makes used_blocks differ from the number of set bits |
| `KernelMemory.UnsafeThere` | memory/paging.c:64-107 | A machine with 8 MB on which it does, whatever its memory held |
| `KernelMemory.CounterRightWhen` | memory/pmm.c:42-105 | used_blocks equals the number of set bits in every state of every run from pmm_init and paging_install if and only if no block is visited twice and the bitmap ends on a block boundary or its last block is not usable |
| `Paging.Mmu.Install` | memory/paging.c:26-51 | The setup loops leave exactly the boot directory and boot table |
| `Paging.Mmu.FillPde` | memory/paging.c:83-86 | Field by field through the directory's virtual address, exactly one directory entry changes |
| `Paging.Mmu.ClearTable` | memory/paging.c:89-90 | The memset through the window zeroes exactly the new table's frame |
| `Paging.Mmu.FillPte` | memory/paging.c:93-103 | Field by field through the window, exactly one page table entry changes; bits 3 to 11 stay |
| `Paging.Mmu.StoreFlag` | memory/pmm.c:14-21 | set_block and clear_block through the virtual address of the bitmap change exactly the stored flag |
| `Paging.Mmu.TestBlock` | memory/pmm.c:24-26 | Reads one stored flag |
| `Paging.Mmu.FindFirstFree` | memory/pmm.c:29-40 | The word-skipping search over the bitmap in memory returns what a plain bit-by-bit scan returns |
| `Paging.Mmu.AllocBlock` | memory/pmm.c:84-97 | Same memory, counter and address as the one-memory model |
| `Paging.Mmu.FreeBlock` | memory/pmm.c:99-105 | Same memory and counter as the one-memory model |
| `Paging.Mmu.MapPage` | memory/paging.c:64-107 | If it succeeds from a running state, the page is mapped to the frame if bit 0 of the flags is set, writable by bit 1 and for users by bit 2, and not mapped otherwise; same memory, bitmap in it included, and counter as the one-memory model, with every access through the walk of the moment, safe tail or not; only the directory, the bitmap and the page's table are written |
| `Paging.FlagsOfMask` | memory/paging.c:100-102 | Exactly the bits 1, 2 and 4 of the argument count, as PTE_PRESENT, PTE_RW and PTE_USER |
| `Paging.MapPageMaps` | memory/paging.c:64-103 | The mapping of the page afterwards in terms of the bits of the argument; the bits of the entries that map_page does not write are as they were, or zero in a new table |
| `Paging.Mmu.UnmapPage` | memory/paging.c:109-129 | Same memory as the model, page fault included |
| `Paging.Mmu.GetPhys` | memory/paging.c:131-149 | Returns the hardware's translation, or 0 |
| `Terminal.LayoutKeepsText` | libc/memcore.c:213-227 | The lines of the unbounded layout hold exactly the printed cells in order |
| `Terminal.LayoutBreaks` | libc/memcore.c:214-216 | A newline ends a line and starts another one: what is printed behind it is laid out below, as on an empty screen, for all text before and behind |
| `Terminal.LayoutWraps` | libc/memcore.c:217-227 | Text without newlines fills lines of exactly 80: cell k is in line k / 80, column k % 80 |
| `Terminal.PutShows` | libc/memcore.c:218-221 | Writing at the cursor shows the extended layout |
| `Terminal.NewLineShows` | libc/memcore.c:229-246 | A new line leaves the buffer alone, or scrolls it by one and blanks the last line in colour 7 |
| `Terminal.ShownCell` | libc/memcore.c:239-246 | A cell of a shown line holds the text, or behind it a blank in the colour of the last clear, or in colour 7 from line 100 on |
| `Terminal.Console.RefreshScreen` | libc/memcore.c:477-484 | The screen shows the 25 buffer rows from the view row on; screen rows behind the end of the buffer stay |
| `Terminal.Console.ClearScreen` | libc/memcore.c:100-113 | Buffer, cursor and screen show the empty layout in the given colour |
| `Terminal.Console.PrintChar` | libc/memcore.c:213-255 | The buffer keeps showing the last 100 lines of the unbounded layout of everything printed, and the screen the 25 rows that end at the cursor, or the first 25; the layout is what `Terminal.LayoutBreaks` and `Terminal.LayoutWraps` say |
| `Terminal.Console.PrintAfterClear` | libc/memcore.c:100-255 | The same for clear_screen and any run of print_char calls |
| `Terminal.Console.ScreenShows` | libc/memcore.c:248-255 | Row r of the screen shows line r of the layout or of its last 25 lines, and the cursor stands on it at the end of the layout |
| `Terminal.Console.BufferShows` | libc/memcore.c:229-246 | Row r of the scrollback buffer shows line r of the layout or of its last 100 lines |
| `Strtok.SpansAreRuns` | libc/memcore.c:350-372 | The spans cut are exactly the maximal non-empty delimiter-free runs |
| `Strtok.SpansInOrder` | libc/memcore.c:350-372 | They come in order and apart |
| `Strtok.WordIsSlice` | libc/memcore.c:374-374 | Word k is the text of span k |
| `Strtok.IsDelimiter` | libc/memcore.c:332-339 | Membership in the delimiter string |
| `Strtok.Tokenizer.Next` | libc/memcore.c:341-375 | Returns the next run, terminated in place, or NULL and then NULL for ever; no byte but that terminator changes, and it replaces a delimiter |
| `Strtok.Tokenizer.All` | libc/memcore.c:341-375 | Calling until NULL yields the texts of all runs in order |
| `Bytecode.InterpretAssembled` | exec/exec.c:8-37 | Interpreting an assembled program performs exactly its instructions in order and stops, whatever bytes the data contain and whatever follows |
| `Bytecode.PerformMeans` | exec/exec.c:13-28 | A program prints its texts one behind the other and makes its writes in order, and neither meddles with the other |
| `Bytecode.EncodedBytes` | app/utils/cable.c:13-20 | The bytes of an instruction: opcode 1 or 3, string and terminator, and for a write the length as a little-endian word and the data |
| `Bytecode.EndsWithExit` | app/utils/cable.c:21-21 | A program ends with the byte 4 |
| `Bytecode.Executor.InterpretBdx` | exec/exec.c:8-37 | The instruction-pointer loop performs the effects of the bytecode on disk and output, for all bytecode it does not run past |
| `Bytecode.Executor.AssembleWrite` | app/utils/cable.c:12-21 | The stores stay in the buffer if and only if name and data take at most 1017 bytes; then it holds the write instruction followed by exit |
| `Bytecode.Executor.SyscallWrite` | app/utils/cable.c:11-23 | Equals calling bdfs_write_file directly if name and data take at most 1017 bytes, and overflows its buffer otherwise |
| `Bytecode.CallsThroughWhen` | app/utils/cable.c:11-23 | The call is that one write if and only if name and data take at most 1017 bytes |
| `EditorText.LoadAfterSave` | app/utils/cable.c:33-48 | Loading what was saved yields the non-empty rows moved to the top in order |
| `EditorText.LoadAfterSaveIsIdempotent` | app/utils/cable.c:102-115 | Saving and loading once more changes nothing |
| `EditorText.SavedFits` | app/utils/cable.c:103-115 | The saved text never exceeds 1919 bytes |
| `EditorText.SavedIsJoined` | app/utils/cable.c:105-115 | The saved text is the non-empty rows, each with a newline, but for that of the very last row |
| `EditorText.FieldsAreLines` | app/utils/cable.c:36-40 | The lines of a text are free of newlines and joined by newlines give the text |
| `EditorText.LoadFileIs` | app/utils/cable.c:33-45 | Row y of a loaded file holds the first 79 bytes of line y, for every text; the cursor row is the last line, or 24 |
| `Editor.Cable.CollectRows` | app/utils/cable.c:103-115 | The save loop collects exactly the saved text and never overflows its buffer |
| `Editor.Cable.SaveFile` | app/utils/cable.c:102-119 | The disk afterwards is as if the saved text had been written directly, or the call's buffer overflows |
| `Editor.Cable.LoadText` | app/utils/cable.c:36-47 | The load loop fills the rows and the cursor as the model says, zeros behind each row |
| `Editor.Cable.InitEditor` | app/utils/cable.c:25-49 | The buffer holds the loaded file, or empty rows if it cannot be read; says when the file overruns the local buffer |
| `EditorText.SpoiledShowsWhen` | app/utils/cable.c:33-48 | A saved text with the bytes of a length field over its start loads as the saved sheet if and only if it has at most three bytes, the last of three being a newline, and its first two agree, a newline counting as a NUL |
| `EditorDisk.OpenShowsLines` | app/utils/cable.c:33-45 | Opening a file overruns the local buffer exactly for more than 1920 bytes; otherwise row y shows the first 79 bytes of line y up to a NUL |
| `EditorDisk.SavedSheetLoads` | app/utils/cable.c:102-119 | From the editor's rows through the write call to the disk and back, in terms of the state before: the sheet comes back as its non-empty rows moved to the top if and only if name and text fit the call's buffer, and the file is placed behind sector 0 or the text survives there, or the write is refused and the file shows the sheet already |
| `EditorDisk.TooLargeToSave` | app/utils/cable.c:11-23 | 13 full rows overflow the call's buffer, on every disk and for every name |
| `Editor.Cable.SaveAndReopen` | app/utils/cable.c:25-119 | editor_save_file followed by editor_init leaves the non-empty rows of before in the buffer if and only if that condition holds |

## Left out

- Boot code, interrupts, IDT, PIC, timer and inline assembly: hardware sequences.
- ATA, PCI, E1000 and keyboard drivers: they depend on devices.
- The shell, `bdfs_list_files`, colours, `kprintf` and `snprintf`: user interface.
- The kernel heap: a single moving pointer.
- Interactive editing keys and drawing: cursor limits are not kept consistently.
- Terminal runs with `set_cursor`, `print_backspace` or user scrolling; the two bytes of a screen cell are one value.
- `execute_bdx`: a read into a 1024-byte buffer followed by the interpreter, which is modelled.
- The TLB, CR0 and CR3, access rights and the page fault handler: a translation is the walk of the moment.
- The stack arrays and buffers of the calculator, the editor and the bytecode writer are local; what lies next to them in memory is not modelled.
- KernelMemory.SafeRuns: the bitmap has to lie in the first 4 MB, which are identity-mapped, and its pages are not remapped.
- KernelMemory.CounterRightWhen: for the one-memory machine `total_blocks` is a multiple of 32 and no region reaches behind the managed blocks; `PmmRuns.CounterOverRuns` is about every map.
- Pmm.Manager.Init: which bit behind the bitmap a region that ends inside a block clears is not stated.
- Pmm.Manager.AllocBlock: memory beyond 2 GB is excluded, where the address is an overflowing `int` product.
- Bdfs.Disk.InitDisk: storage that holds the magic number but a malformed table is excluded; no run of the operations produces one.
- Terminal.Console.RefreshScreen: a negative view row, which would read in front of the buffer, is excluded.
