# Backwalk: a verified model

Backwalk prints stack traces. This project models, in Dafny, the parts of it that compute something, and proves
what they compute:

- **The `.debug_line` decoder** (`src/dwarf_line.c`): cursor and LEB128 integers, string pool, attribute forms,
  path join, unit headers of versions 2 to 5, the line-number program, the sorted row table and its lookup.
  Modules `Bytes`, `Leb128`, `Cursors`, `LineTables`, `Forms`, `Paths`, `EntryTables`, `LinePrograms`, `Units`,
  `LineIndex`; theorems in `ProgramEncoding`, `Registers`, `NamedRows`, `NamedSections`, `EncodedTables`,
  `EncodedTables5`, `EncodedUnits`, `Refusals`, `Truncation`, `Locality`.
- **The PE symbol index and its one-module cache** (`src/win.c`): modules `PeImages`, `PeIndex`, `PeCache`; theorems
  about images as linkers write them in `EncodedPe`, `EncodedPeIndex`, `EncodedPeAnswers`.
- **ELF symbol selection** (`src/backwalk.c`): module `ElfSymbols`; theorems about files as producers write them in
  `EncodedElf`.
- **The frame-pointer walk**, collecting and replaying it (`src/context.c`, `src/backwalk.c`): module `Frames`.
- **The one-shot latch** (`src/common.c`), as interleaved steps of any number of threads: module `Ticket`.

`Sorting` holds the sort and the floor search the two indexes share, `Division` facts about quotients, `Wrappers` the
option type.

## How it is put together

Code that works by changing things is a class or a method with the same fields, buffers, loops and branches:
`Cursor`, `LineTable`, the readers, `bw_parse_unit`, the PE tables, `Context`, `Trace`. Each method is proved
against a function of what it was given: a reader against the bytes that remained at the cursor, a table operation
against the rows and the pool. The theorems are about those functions, so they hold of the methods.

The specification of a unit's program is the meaning of the instructions its bytes disassemble to. `RunProgram`
shows that the loop computes that meaning for *every* byte string, capped at the capacity of the table; the
encoding theorems show that disassembly recovers every program a producer can encode. `NamedSections` says what any
section means by name, clipped names and padded numbers included, and `NamedSections.ResolveName` that parsing, sort,
binary search and the read of the file pointer answer from that meaning. `EncodedUnits.EndToEnd` and
`EncodedUnits.Resolve` add the serialization: from abstract units (directories, files, instructions) to the file name
and line returned.

Answers are also stated without the decoder's own readers. Encoders with codes, widths and layouts of their own
(`ProgramEncoding`, `EncodedTables`, `EncodedTables5`, `EncodedUnits`, `EncodedElf`, `EncodedPe`) turn abstract
programs, tables, units, ELF files and PE images into bytes, and the methods are shown to answer from the abstract
side. What an instruction does to the registers is stated by sums over the program (`Registers.AddressOfProgram`,
`Registers.LineAndFileConserved`, `Registers.RowAfterPrefix`), the walk by the links between frame records
(`Frames.Links`), the join by what stands in front of the file (`Paths.RelativeBehind`), and `Refusals` says which
headers and instructions are not used at all.

Sorting is by any fixed function that returns a sorted permutation (`Sorting.IsSort`), so no result depends on the
order of rows with equal addresses. `Sorting.InsertionSortIsSort` shows that there are such functions.

### Assumptions

- A 64-bit little-endian host; offsets into a section are naturals (no pointer wraps around). Address and line
  registers are 64-bit words and wrap.
- `strlen` runs over section bytes. Where it would find no terminator before the end of its section the C program
  reads past the section; the model stops with `Unterminated` and says nothing about the C program from there on.
- A section that is absent and a section that is empty are the same thing.
- PE images are below 4 GiB. The files behind the modules do not change between queries.
- Memory does not change during a walk, and every word the walk reads can be read. Return-address authentication
  is taken as the identity.
- A callback decides from the frames reported to it so far; what it is told about a frame is a function of the
  frame's return address.

### Where the code does less than one might expect

- Bounds are those of the section, not of the unit (`src/dwarf_line.c:453-456`), so an operand cut off by the end of
  its unit is completed from the bytes behind it. `Truncation.LocalIff` says exactly when that can change the
  instructions executed: when one of them, or the one the loop stops at, is truncated. `Truncation.RowsLocalIff`
  says exactly when it can change the rows: when a `set_address` whose declared length ends inside the unit misses
  bytes of its address and an instruction behind it appends a row. `Locality.SectionsConcatenate` lifts that to
  sections; `Locality.TruncatedOperandReadsOn` is a section of 38 bytes whose rows change.
- One `pthread_cond_signal` wakes one waiter. `Ticket.EnoughSignalsWakeAll` and `Ticket.TooFewSignals` show that all
  waiters are awake once all signalers are done, in every run, exactly when there are at least as many signalers as
  waiters; with a single waiter one signaler is enough. Then every wait can return (`Ticket.EveryWaitCanReturn`), and
  every run that ends, ends there (`Ticket.StuckMeansReturned`).
- `context_step` rejects only a frame that links to itself. `Frames.EndlessIffRepeats` shows that the walk never ends
  exactly when a frame pointer comes up twice, as in the two-frame cycle of `Frames.CycleNeverEnds`;
  `Frames.StreamEndsIff` that `bw_backtrace` returns exactly when none does or the callback refuses a frame.
  Collecting always ends.
- A collection that finds no frame leaves the count of the previous one in place (`Frames.Collect`), so replaying
  reports the frames of the previous one (`Frames.CollectAgain`, at an input `Frames.StaleFrame`).
- Operations are lost where the addition of an advance to the operation index overflows (`Registers.OverflowLoses`);
  with one operation per instruction none does (`Registers.OneOperation`).

## Model

| member | source | states |
|---|---|---|
| Leb128.UlebMeaning | src/dwarf_line.c:93-109 | A ULEB is accepted iff it ends within ten bytes; its value is the sum of its 7-bit groups modulo 2^64; where the cursor is left in either case |
| Leb128.SlebMeaning | src/dwarf_line.c:111-128 | The same for SLEB, with the last group read as two's complement |
| Leb128.UlebRoundTrip | src/dwarf_line.c:93-109 | Decoding undoes encoding for every uint64 and leaves any suffix unread |
| Leb128.SlebRoundTrip | src/dwarf_line.c:111-128 | Decoding undoes encoding for every int64 and leaves any suffix unread |
| Leb128.PaddedUlebRoundTrip | src/dwarf_line.c:93-109 | An encoding padded with zero groups to at most ten bytes decodes to the same value |
| Cursors.Cursor.ReadUleb | src/dwarf_line.c:93-109 | The loop with its OR and shift meets the ULEB specification |
| Cursors.Cursor.ReadSleb | src/dwarf_line.c:111-128 | The loop with its sign extension meets the SLEB specification |
| Cursors.Cursor.Word | src/dwarf_line.c:66-91 | A bounded little-endian read; a short section is left untouched |
| Cursors.Cursor.SkipBytes | src/dwarf_line.c:130-136 | A bounded skip; a short section is left untouched |
| Bytes.LeOfEncoding | src/dwarf_line.c:66-91 | Reading a word undoes writing it |
| LineTables.LineTable.AddStr | src/dwarf_line.c:138-156 | The pool grows by the string up to its NUL, clipped to the room left, and a terminator; -1 iff full |
| LineTables.AddStringFacts | src/dwarf_line.c:138-156 | Interning keeps every string terminated inside the pool, only appends, and the offset returned names what was stored |
| LineTables.NameStable | src/dwarf_line.c:138-156 | No later addition changes a string of the pool |
| LineTables.LineTable.Emit | src/dwarf_line.c:357-365 | Appends the row unless address or line is zero, the line exceeds 32 bits, there is no file, or the table is full |
| Forms.SkipForm | src/dwarf_line.c:165-233 | Skips exactly the bytes of a form, for every form |
| Forms.ReadPath | src/dwarf_line.c:235-282 | Reads a path from the entry, with a scan of its own, or from a string section |
| Forms.ReadUdata | src/dwarf_line.c:284-313 | Reads a number in one of four forms |
| Forms.PathOccupiesSkippedBytes | src/dwarf_line.c:165-282 | The path reader succeeds iff the skipper does and ends at the same place, for every form; each of their two string scans is proved against the same form |
| Forms.UdataOccupiesSkippedBytes | src/dwarf_line.c:284-313 | The number reader agrees with the skipper on its four forms and refuses all others |
| EncodedTables5.ValueSkipped | src/dwarf_line.c:165-233 | An attribute value of any of the 21 forms, serialized with its form code from the standard, is skipped exactly, whatever follows |
| EncodedTables5.OtherFormRefused | src/dwarf_line.c:165-233 | Every other form code is refused |
| EntryTables.EntryOccupiesSkippedBytes | src/dwarf_line.c:533-582 | A version 5 entry occupies the same bytes whichever columns are interpreted |
| Paths.JoinPath | src/dwarf_line.c:315-343 | Writes the longest prefix of the ideal join that fits, NUL-terminated; nonzero iff it is not empty |
| Paths.AbsoluteAlone | src/dwarf_line.c:315-343 | A file that starts with a slash, a backslash or a drive letter and a colon is taken alone |
| Paths.RelativeBehind | src/dwarf_line.c:315-343 | Any other file stands behind its directory and one separator, a slash unless the directory ends in one |
| EntryTables.ReadTables4 | src/dwarf_line.c:594-633 | The version 2-4 tables: one interned name per entry, as specified by `Tables4` |
| EntryTables.ReadTables5 | src/dwarf_line.c:517-593 | The version 5 tables: one interned name per entry, as specified by `Tables5` |
| EntryTables.InternFile | src/dwarf_line.c:583-591 | A file is interned under its clipped join with its directory, or alone; an empty join refuses the unit |
| EncodedTables.Tables4RoundTrip | src/dwarf_line.c:594-633 | For all directories and files within the caps and with pool room, each file offset names the first 511 bytes of the ideal join |
| EncodedTables5.Tables5RoundTrip | src/dwarf_line.c:517-593 | The version 5 layout, for every format and every encoding of the cells, padded or unusual ones included |
| EncodedTables5.ListsRoundTrip | src/dwarf_line.c:517-593 | From lists of directories and files, in any format with paths in line or in either string section, indices of any width and other columns of any form around them: each file offset names the clipped ideal join of the file with the directory its index names |
| EncodedTables5.CellOfItem | src/dwarf_line.c:235-313 | A name or an index written in a form is read back as that name or index, in each of the three path forms and the four number forms |
| EncodedTables5.EntryEncoded | src/dwarf_line.c:537-582 | Every column of a version 5 entry is read from its own bytes, whatever the other columns and whatever follows |
| LinePrograms.StepOne | src/dwarf_line.c:642-738 | One turn of the loop executes the instruction its bytes decode to, or breaks where decoding stops |
| LinePrograms.Decode | src/dwarf_line.c:642-684 | Every instruction leaves strictly fewer bytes than it found, although set_address may read past its declared length and line 682 moves the cursor back |
| LinePrograms.RunProgram | src/dwarf_line.c:635-742 | For every byte string, the loop appends the rows of the disassembled program, in order, up to the table's capacity, and ends with the program's registers |
| ProgramEncoding.DecodeEncoded | src/dwarf_line.c:642-738 | Decoding undoes encoding for every instruction, whatever follows |
| ProgramEncoding.RunOfEncoded | src/dwarf_line.c:635-742 | The byte-level run of an encoded program ends with the registers and rows of the abstract program |
| ProgramEncoding.ReencodedProgramSameRun | src/dwarf_line.c:642-738 | Decoding any program whose operands are well formed, padded or not and wherever it breaks off, and encoding it canonically preserves registers and rows |
| ProgramEncoding.ExpandMeaning | src/dwarf_line.c:685-721 | Spelling out special opcodes and const_add_pc with plain opcodes preserves registers and rows |
| ProgramEncoding.ExpandedProgramSameRows | src/dwarf_line.c:685-721 | The same for any program with well-formed operands as it stands in a section |
| ProgramEncoding.SpecialOpcodeDecodes | src/dwarf_line.c:685-690 | The opcode built from a representable pair of line delta and operation advance decodes to that pair |
| ProgramEncoding.SpecialOpcodeOnto | src/dwarf_line.c:685-690 | Every special opcode is the one built from the pair it stands for |
| Registers.PointerConserved | src/dwarf_line.c:685-721 | Between repositionings, address and operation index are the start advanced by the sum of all operation advances, however large, unless one addition to the operation index overflows |
| Registers.AddressOfProgram | src/dwarf_line.c:685-728 | For every header and program without end_sequence and set_address: the address is the start plus the bytes advanced plus the plain sum of the fixed_advance_pc operands, modulo 2^64; the operation index restarts at zero after each fixed advance |
| Registers.AddressAfterSet | src/dwarf_line.c:664-683 | Whatever ran before, set_address starts the pointer afresh at its operand |
| Registers.AdvancedBytesMerge | src/dwarf_line.c:700-721 | Without fixed advances and overflow the bytes advanced are those of the sum of all operation advances |
| Registers.RowAfterPrefix | src/dwarf_line.c:685-699 | Special opcodes and copy append the row of the registers right after them; no other instruction appends one |
| Registers.SmallAdvances | src/dwarf_line.c:700-706 | None overflows when every advance leaves room for an operation index |
| Registers.OneOperation | src/dwarf_line.c:486-492 | None overflows with one operation per instruction, as in every unit up to version 3 |
| Registers.OverflowLoses | src/dwarf_line.c:704-706 | Where one overflows operations are lost: an input |
| Registers.AdvancesMerge | src/dwarf_line.c:700-706 | Advances merge and split freely as long as their sum with the operation index fits a word |
| Registers.OpIndexInvariant | src/dwarf_line.c:685-728 | The operation index stays below the operations per instruction |
| Registers.RowsAscend | src/dwarf_line.c:685-728 | When neither an addition to the operation index nor the address overflows, rows emitted between repositionings have non-decreasing addresses |
| Registers.LineAndFileConserved | src/dwarf_line.c:685-716 | Within a sequence the line register is the start plus all line changes modulo 2^64, and the file register the file selected last |
| Registers.SequencesAreIndependent | src/dwarf_line.c:658-663 | end_sequence emits nothing, and what follows it runs as from the initial registers |
| Units.ParsePrologue | src/dwarf_line.c:439-484 | Unit length, version and header length: where tables, program and next unit start, or why the unit is refused or skipped |
| Units.ParseParameters | src/dwarf_line.c:486-515 | The parameters of the program, with their refusals |
| Units.ParseUnitOf | src/dwarf_line.c:401-744 | A unit's status, the names it adds, the rows it adds up to capacity, and where it leaves the cursor, for every input |
| Units.AcceptedEndsAtDeclaredLength | src/dwarf_line.c:453-456 | An accepted unit leaves the cursor at its declared end and occupied at least six bytes |
| Refusals.LengthRefused | src/dwarf_line.c:439-455 | A unit length below two or past the end of the section ends the section |
| Refusals.SegmentsSkipped | src/dwarf_line.c:460-468 | A version 5 unit with segment selectors is skipped, whatever else it holds |
| Refusals.HeaderLengthRefused | src/dwarf_line.c:469-484 | A header length past the end of the unit ends the section |
| Refusals.ParametersRefused | src/dwarf_line.c:486-515 | A unit without minimum instruction length or operations per instruction is skipped; a line range or opcode base of zero, or too few operand counts, end the section |
| Refusals.OperandStops | src/dwarf_line.c:696-738 | A malformed operand of a known opcode ends the program, and nothing else does |
| Refusals.IgnoredOperands | src/dwarf_line.c:729-738 | A malformed operand of an ignored opcode leaves the cursor up to ten bytes into it, and the program goes on there |
| Refusals.ExtendedOpcode | src/dwarf_line.c:647-684 | An extended opcode of any declared length: what it does, where the program goes on, and when it ends it |
| NamedRows.RowsOfProgram | src/dwarf_line.c:685-699 | The emitted rows are those of the program's matrix, in order; file names influence nothing else |
| NamedRows.SectionSound | src/dwarf_line.c:746-764 | Over a whole parse the pool stays closed and within its size, and every row's offset starts a string that no later addition changes |
| NamedSections.TablesNamed | src/dwarf_line.c:517-633 | For every accepted table, however full the pool: a file has no offset when the pool was full when its turn came, and else its offset names its clipped join with its directory as far as there was room |
| NamedSections.SectionNamed | src/dwarf_line.c:746-764 | For every section: the rows of a parse, by name, are those its bytes state |
| NamedSections.ResolveName | src/dwarf_line.c:367-399 | For every section: reset, parse, look up and follow the file pointer gives name and line of a stated row with the greatest address not above the query, and nothing iff there is none |
| NamedSections.KeptWhole | src/dwarf_line.c:138-156 | With room for all of them, names are kept whole |
| EncodedUnits.FrameRoundTrip | src/dwarf_line.c:401-744 | A serialized header and tables around any program bytes are accepted, in every version, and yield the named rows of the instructions those bytes disassemble to where they stand |
| EncodedUnits.UnitRoundTrip | src/dwarf_line.c:401-744 | A serialized unit of any version is accepted and yields exactly the named rows of the abstract unit, whatever follows it |
| EncodedUnits.SectionRoundTrip | src/dwarf_line.c:746-764 | On a concatenation of serialized units the rows are the concatenation of each unit's rows |
| EncodedUnits.EndToEnd | src/dwarf_line.c:372-399 | A lookup after parsing returns file and line of a row of the abstract units with the greatest address not above the query, and fails iff there is none |
| EncodedUnits.Resolve | src/dwarf_line.c:746-770 | The same through the methods: reset, parse, look up, follow the file pointer |
| Truncation.LocalIff | src/dwarf_line.c:642-738 | No bytes behind the section change the instructions executed iff none of them, nor the one the loop stops at, is truncated by the end of the section |
| Truncation.RowsLocalIff | src/dwarf_line.c:664-683 | No bytes behind the section change the rows iff no set_address overruns the section with its declared length inside the unit and a row to follow |
| Locality.UnitProgramLocalIff | src/dwarf_line.c:453-456 | Bytes behind an accepted unit leave its instructions alone iff none of them is truncated |
| Locality.UnitLocalIff | src/dwarf_line.c:453-456 | Bytes behind an accepted unit leave its rows alone iff it does not leak |
| Locality.SectionsConcatenate | src/dwarf_line.c:760-764 | Parsing a section of accepted units followed by anything is parsing the one and then the other iff no unit leaks |
| Locality.UnitExtends | src/dwarf_line.c:54-56 | Whatever follows an accepted unit, it stays accepted, adds the same names, and the same rows or more behind them |
| Locality.TruncatedOperandReadsOn | src/dwarf_line.c:664-682 | A section that alone yields no row yields one when bytes that yield none either follow it |
| Locality.PrefixRefused | src/dwarf_line.c:453-455 | The first bytes of an accepted section can be refused for want of the others |
| LineIndex.WalkUnits | src/dwarf_line.c:757-764 | The loop over the units ends on every section and appends the rows of every accepted unit up to capacity |
| LineIndex.Parse | src/dwarf_line.c:746-770 | The table ends up with the rows of all units up to capacity, sorted, whatever order the sort gives ties |
| LineIndex.Lookup | src/dwarf_line.c:372-399 | Found iff some row is at or below the address; the result belongs to a row with the greatest such address |
| LineIndex.ParseAndLookup | src/dwarf_line.c:367-399 | Reset, parse and look up agree with a linear scan over the emitted rows, for any section |
| Sorting.FloorIndex | src/dwarf_line.c:379-391 | The binary search finds the last position not above the probe, iff there is one |
| Sorting.FloorOfPermutation | src/dwarf_line.c:345-355 | Any permutation has the same greatest elements not above a probe |
| PeImages.AuxiliariesAreSkipped | src/win.c:297-319 | No auxiliary record is ever taken for a symbol |
| PeImages.PrimariesCover | src/win.c:297-319 | Every record up to where the scan ends is primary or announced by a primary record |
| PeImages.ScanSound | src/win.c:297-352 | The symbols are, in file order, those of the first interpreted primary records, each at its record's address and under its record's name as clipped; of all of them unless the table or the pool filled up |
| PeImages.ScanShifts | src/win.c:328-351 | Loading the image higher moves every symbol by that much and changes nothing else |
| PeCache.AppendName | src/win.c:162-186 | The name pool grows by the clipped name and a terminator, or not at all |
| PeCache.Index.ScanRecords | src/win.c:295-353 | The record loop interprets exactly the primary records, up to its stopping conditions |
| PeCache.Index.FindSections | src/win.c:369-390 | Each debug section is that of the greatest index with its name and with data, and missing iff there is none |
| PeIndex.FindDebugMeaning | src/win.c:369-390 | The same of the sections a module is loaded with |
| PeCache.Index.LoadModule | src/win.c:188-403 | Loading overwrites all tables with what the module's image yields, also when it fails |
| PeCache.Index.Find | src/win.c:405-434 | The answer is that of loading the module afresh; the cache stays coherent |
| PeCache.Index.FindLine | src/win.c:436-464 | The answer is that of loading the module afresh; the cache stays coherent |
| PeCache.LoadedSound | src/win.c:405-464 | Every name and file offset in the tables of a loaded module starts a string that ends inside its pool |
| PeCache.Index.AnswerAll | src/win.c:405-464 | Over any sequence of queries the strings and lines read from the live tables are those of loading the module afresh for every query, after failed loads and module switches too |
| PeIndex.NameAnswerIsFloor | src/win.c:420-433 | A name query picks a recorded symbol with the greatest address not above ip, and fails iff there is none |
| PeIndex.NameAnswerShifts | src/win.c:420-433 | The image offset picked is unchanged when module and ip move by the same amount |
| PeIndex.LineAnswerIsFloor | src/win.c:452-457 | A line query picks an emitted row with the greatest address not above the linked address, and fails iff there is none |
| PeIndex.LineAnswerShifts | src/win.c:452-454 | With an image base the row picked is unchanged when module and probe move by the same amount |
| EncodedPe.HeadersRead | src/win.c:238-282 | From the serialized image the decoder reads section count, section and symbol table offsets, record count and image base |
| EncodedPeIndex.FunctionsScanned | src/win.c:284-353 | The scan of a serialized image records its functions in order: each at module base plus section address plus value modulo 2^64, under its name, clipped and dropped as room runs out |
| EncodedPeIndex.RecordedWhole | src/win.c:162-186 | With room for all names the functions are recorded whole |
| EncodedPeIndex.SectionNameRead | src/win.c:81-108 | Section names of up to eight bytes and those in the string table are read back, clipped to 63 bytes |
| EncodedPeIndex.DebugFound | src/win.c:369-390 | Each debug section found holds the data of the last section of its name that has any |
| EncodedPeAnswers.NameAnswer | src/win.c:405-434 | A name query answers with the name of the function of the serialized image that starts last at or below ip, and fails iff there is none |
| EncodedPeAnswers.LineAnswer | src/win.c:436-464 | A line query answers with name and line of a row stated by the `.debug_line` data of the serialized image, the last at or below image base plus offset, and fails iff there is none |
| EncodedPeAnswers.CompiledLines | src/win.c:391-396 | Where that data are serialized units, the rows are those of the abstract units |
| EncodedPeAnswers.AnswerImages | src/win.c:405-464 | Through the tables and their cache: any sequence of queries is answered as the images of the modules say; without a module or a PE file there is nothing |
| EncodedPeAnswers.InsideMain | src/win.c:329-433 | An image with one function, and the answer at an address inside it |
| ElfSymbols.ChooseSymbol | src/backwalk.c:79-111 | The last candidate in scan order with the greatest start is chosen; none iff there is no candidate |
| ElfSymbols.SymbolName | src/backwalk.c:33-132 | From the bytes of the file to the clipped name of the chosen symbol |
| ElfSymbols.CandidatesAreCovering | src/backwalk.c:95-110 | The candidates are, in table order, exactly the eligible records covering the address |
| ElfSymbols.CoversIsInterval | src/backwalk.c:102-105 | Without overflow the range test is plain interval membership |
| ElfSymbols.SymbolForAddress | src/backwalk.c:79-111 | With one symbol table and no overflow: nothing is found iff no eligible record contains the address; else of the records that do, the one that starts last, and the last of those, is chosen |
| ElfSymbols.OneTable | src/backwalk.c:79-93 | With one scanned symbol table the candidates and the string table are its own |
| ElfSymbols.ChoiceUnique | src/backwalk.c:107-109 | That description determines the symbol |
| EncodedElf.FunctionName | src/backwalk.c:33-132 | On a serialized file, writes the clipped name of the function whose interval contains the address and that starts last, the last one on ties; fails iff there is none or its name is empty |
| EncodedElf.InnermostIsChosen | src/backwalk.c:95-111 | The symbol chosen is that function, and there is none iff no function is around the address |
| EncodedElf.AroundIsInterval | src/backwalk.c:102-105 | Without overflow a function is around exactly the addresses from its start to before its end |
| EncodedElf.InsideFoo | src/backwalk.c:95-111 | A file with two functions, and the one around an address |
| Frames.Step | src/context.c:36-92 | One step moves to the caller's frame, or leaves the context alone when it refuses |
| Frames.WalkOfChain | src/context.c:36-92 | In every memory the walk recovers exactly the return addresses of the chain of frame records that link one to the next, innermost first |
| Frames.ChainOfWalk | src/context.c:36-92 | Every walk that ends is that of such a chain |
| Frames.EndlessIffRepeats | src/context.c:36-92 | The walk has as many frames as one asks for iff a frame pointer comes up twice; if none does it ends within 2^64 frames |
| Frames.CycleNeverEnds | src/context.c:59-62 | A walk on two frames that link to each other never ends |
| Frames.AscendingWalkEnds | src/context.c:36-92 | A walk whose frames link to higher addresses ends |
| Frames.WalkPlausible | src/context.c:64-85 | Every return address of a walk is a plausible user-space address |
| Frames.Collect | src/backwalk.c:261-288 | Stores exactly the first depth return addresses, all plausible, says whether that was all, and ends within depth + 1 steps, for every memory |
| Frames.Process | src/backwalk.c:290-298 | Replays the stored frames in order, stopping at the first refusal |
| Frames.CollectAgain | src/backwalk.c:261-298 | After a second collection that finds no frame, replaying reports the frames of the first |
| Frames.StaleFrame | src/backwalk.c:261-298 | The same at an input |
| Frames.StreamEndsIff | src/backwalk.c:212-217 | Streaming is over at some point iff no frame pointer comes up twice or the callback refuses a frame |
| Frames.Backtrace | src/backwalk.c:201-223 | Whenever streaming ends it has reported the frames of the whole walk in order, up to and including the first one refused |
| Frames.CollectAndProcess | src/backwalk.c:261-298 | Collecting and replaying makes the calls of the streaming walk cut to the depth, and those of the whole stream when collecting says it was whole |
| Frames.ReplayIsStream | src/backwalk.c:201-223 | Once the stream is over no larger number of frames changes what is reported |
| Frames.ReplayMeaning | src/backwalk.c:194-198 | What is reported is a prefix of the frames up to and including the first refused one |
| Ticket.WaitReturnsAfterSignal | src/common.c:21-27 | In every run, a wait that has returned was preceded by a signal setting the flag |
| Ticket.FlagStable | src/common.c:16-19 | Once set the flag stays set |
| Ticket.NoLostWakeup | src/common.c:16-27 | With one waiter, whenever the flag is set and it sleeps, a signaler still owes it a condition signal |
| Ticket.EnoughSignalsWakeAll | src/common.c:16-27 | With at least as many signalers as waiters, nobody sleeps once all signalers are done |
| Ticket.TooFewSignals | src/common.c:18 | With fewer signalers there is a run that leaves a waiter asleep under a set flag |
| Ticket.Progress | src/common.c:14-27 | Whenever a signaler is not through, or the flag is set and a waiter neither sleeps nor has returned, some thread can take a step that is not a spurious wakeup |
| Ticket.MeasureDecreases | src/common.c:14-27 | A measure decreases on every step other than a spurious wakeup |
| Ticket.StuckMeansReturned | src/common.c:21-27 | With at least as many signalers as waiters, a run that nothing but a spurious wakeup can continue has ended with every wait returned |
| Ticket.EveryWaitCanReturn | src/common.c:21-27 | With at least as many signalers as waiters, every run extends to one in which every wait has returned |
| Ticket.EndlessIsSpurious | src/common.c:24 | A run goes on for ever only with a spurious wakeup after every point |
| Ticket.RunLength | src/common.c:14-27 | The length of a run is bounded by its start and the number of its spurious wakeups |

## Left out

- Opening, mapping and closing files, module enumeration, `dladdr`, DbgHelp, `CaptureStackBackTrace` and the critical section around them: foreign calls; file contents, modules and memory are inputs.
- The assembly entry stubs, sanitizer macros and debug printing: nothing to prove.
- The Windows branches of collecting and streaming, which hand the walk to the system, and allocation failures of `mkbw_context`.
- The 32-bit ARM frame layout: one more offset, no upper address bound.
- `is_stmt`, columns, discriminators and `define_file`: the decoder reads past them, and so does the model.
- What happens after a `strlen` that runs out of its section: the model stops there.
- Termination of `bw_backtrace` on arbitrary memory: false; `Frames.StreamEndsIff` is its exact condition, which `Frames.Backtrace` requires.
- Locality.SectionsConcatenate: is about sections whose units are all accepted. Parsing stops at a refused unit, and whether a unit is refused for want of bytes depends on what follows it (`Locality.PrefixRefused`).
- Frames.Backtrace: resolving a frame's module, symbol and line before the callback is left to the callback's decision.
- ElfSymbols.SymbolName: with several symbol tables the name is looked up in the string table of the last one scanned, as the code does; it is the right one when there is one table.
- EncodedPe.HeadersRead: is about images whose section data, symbols and string table follow the headers in this order. Other layouts are covered by the theorems about any image (`PeImages.ScanSound`, `PeIndex.FindDebugMeaning`).
- EncodedElf.FunctionName: is about files with one symbol table; any other sections may stand around it.
- PeIndex.SectionName: a section name that is not terminated within the image ends at the end of the image.
- The fixed-size local arrays of directory and file offsets in `bw_parse_unit` are sequences; their caps are those of the code.
- Copying the found name into the caller's buffer (`bw_copy_cstr`) and the choice between DbgHelp and the PE index in `bw_win_resolve`.
