# A model of dwarfdump and the libdwarf parts it leans on

This project models how dwarfdump and dwarfdump2 decode DWARF 3 sections and walk them, and proves what these
programs promise about the result. Bytes are numbers below 256, the integers of C are cut to their width where
the code's arithmetic depends on it, output is a sequence of records, and loops and objects keep the form they
have in the source: each is proved against a specification function, and the properties are proved of that.

- `Bits`, `Leb128`, `LebGroups`: words and the bitwise operators; the two families of LEB128 decoders and the
  producers.
- `CfaInstructions`, `CfaOpcodes`, `CfaDisassembler`: call-frame instructions, what each opcode byte lists, and the
  loop that lists them.
- `DieTree`, `DieNavigation`, `DieHandles`: entries as a tree and as the flat list in .debug_info, the search for
  children and siblings, and the handles onto entries.
- `DieListing`, `DieStack`, `DieWalk`, `DieWalkC`, `DieFacts`: what a walk should print, the stack of ancestors with
  its marks, dwarfdump2's walk with holders, dwarfdump's with a fixed stack, libdwarf's address finder, and what the
  walks check and come to, entry by entry.
- `ProcNames`, `ProcFacts`, `ProcSearch`, `ProcNameMap`, `ProcOrder`, `ProcRestart`: function names by low pc,
  searched or kept in a map.
- `ArangeSets`, `ArangeFacts`, `ArangeReader`, `ArangeSizes`: .debug_aranges, which bytes are accepted, its two
  sweeps and the lookup.
- `Abbreviations`, `AbbrevFacts`: .debug_abbrev and its listing.
- `TagTables`, `TagFacts`: the packed tables of legal combinations, their builder, its complaints, and the checks.
- `HolderRuns`, `HolderCounts`, `Holders`: shared ownership by counting.
- `RegisterTable`, `ConfLines`, `ConfNumbers`, `ConfParser`, `ConfRoundTrip`, `ConfFile`, `ConfErrors`:
  dwarfdump.conf, its lines, numbers, blocks and errors.

Where the code and what is said of it differ, the model follows the code. For each difference a member says exactly
when it shows, and, where that is not plain from it, another gives an input:

- dwarfdump's own unsigned LEB128 decoder shifts an `int`, so values from 2^31 on come out wrong
  (`Leb128.LocalULebRoundTrip`).
- the second operand of `DW_CFA_val_offset` is unsigned in the standard and decoded as signed
  (`CfaOpcodes.ListsUnsignedSigned`, `Leb128.ULebReadAsSLeb`, `CfaOpcodes.ValOffsetMisread`).
- 0x2f prints twice because its case falls through (`CfaDisassembler.ShowInstruction`).
- two functions with one low pc: dwarfdump's search names the first, dwarfdump2's map the last
  (`ProcNames.SearchIsMap`, `ProcNames.DuplicatePcsDiffer`), and the map's answer can depend on the queries before
  (`ProcOrder.OrderShows`, `ProcOrder.OrderShowsInRuns`, `ProcNameMap.DuplicatePcsShowOrder`).
- dwarfdump's search misses functions of units it has passed, and a second unit without an entry ends it
  (`ProcRestart.FoundIffAhead`, `ProcRestart.AnswersLikeMap`, `ProcRestart.MissesBehind`).
- the lookup of an address never finds a range that ends at 2^64 (`ArangeSets.TestIsCovers`,
  `ArangeSizes.TopRangeNotFound`).
- of the two sweeps over .debug_aranges the second refuses trailing bytes, and reads lengths in the size of offsets
  where the first reads them in the size of addresses (`ArangeSizes.NativeSweepsAgree`,
  `ArangeSizes.TrailingByteDiffers`, `ArangeSizes.WideSetDiffers`).
- `dwarf_get_abbrev_entry` at the index one past the last attribute delivers the closing zeros, and an error
  where the section ends (`Abbreviations.EncodedEntries`, `Abbreviations.LastDeclarationErrs`); a declaration
  without attributes is listed as a null entry (`Abbreviations.ListingOfEncoding`), and a null entry of two bytes
  as two (`AbbrevFacts.FoundIs`, `AbbrevFacts.TwoByteNull`).
- an extension row that is not full makes child or attribute zero legal (`TagTables.JudgedIsLegal`,
  `TagTables.ShortRowMakesZeroLegal`).
- before the first `reg:` line dwarfdump prints the default register names and dwarfdump2 none
  (`RegisterTable.PrintBoth`).
- a `#` right behind a command's name does not begin a comment: what follows it are operands
  (`ConfErrors.OperandsParsed`, `ConfErrors.CommentRead`).

## Model

| member | source | states |
|---|---|---|
| CfaDisassembler.PrintFrameInstBytes | dwarfdump/print_frames.c:955-1480 | for any bytes, length and address size the opcode loop ends and lists exactly their disassembly, with the number of bytes it got through; the cursor, the remaining length and the 32-bit offset counter stay in step at every loop head, before an unknown opcode too |
| CfaDisassembler.ShowInstruction | dwarfdump/print_frames.c:972-1475 | one pass through the switch prints what stands at the cursor and leaves the cursor one byte back; 0x2f falls through to the argument-size case, an unknown opcode stops the loop |
| CfaDisassembler.TakeOperands | dwarfdump/print_frames.c:978-1475 | the operands of every handled opcode are read from successive places, with the cursor on the last byte read |
| CfaDisassembler.Cursor.Advance | dwarfdump/print_frames.c:1476-1478 | moving on changes the three counters together |
| CfaDisassembler.Cursor.Take | dwarfdump/print_frames.c:1042-1083 | one operand of each storage class: ULEB, SLEB, fixed width, address of size 4 or 8, counted block |
| CfaInstructions.SelectsOne | dwarfdump/print_frames.c:972-980 | every byte selects at most one opcode, the primary ones by their top two bits |
| CfaInstructions.ReadEncodedEntry | dwarfdump/print_frames.c:971-1479 | an encoded instruction is read back whole, from any place in memory |
| CfaInstructions.RoundTrip | dwarfdump/print_frames.c:955-1480 | disassembling the encoding of any list of instructions lists exactly that list, each with its true byte offset modulo 2^32 |
| CfaInstructions.ListingAt | dwarfdump/print_frames.c:971-1479 | the k-th line carries the k-th instruction and the offset where it is encoded |
| CfaInstructions.Continue | dwarfdump/print_frames.c:971-1479 | for any bytes, a disassembly that ends at n bytes and met no unknown opcode continues there as if it had begun there |
| CfaInstructions.Rebase | dwarfdump/print_frames.c:971-1479 | for any bytes, starting the offset counter earlier only shifts the printed offsets |
| CfaInstructions.Concatenation | dwarfdump/print_frames.c:971-1479 | disassembling a concatenation lists the first part, then the second with its offsets shifted |
| CfaOpcodes.ListsUnsignedSigned | dwarfdump/print_frames.c:1260-1387 | for any bytes behind them, the opcode bytes 0x11, 0x12, 0x14 and 0x15 list an unsigned number and then a signed one, val_offset included, or nothing when one of the two cannot be read |
| CfaOpcodes.ListsTwoUnsigned | dwarfdump/print_frames.c:1084-1169 | 0x05, 0x09 and 0x0c list two unsigned numbers |
| CfaOpcodes.ListsUnsigned | dwarfdump/print_frames.c:1106-1468 | 0x06, 0x07, 0x08, 0x0d, 0x0e and 0x2e list one unsigned number |
| CfaOpcodes.ListsSigned | dwarfdump/print_frames.c:1311-1330 | 0x13 lists one signed number |
| CfaOpcodes.ListsFixed | dwarfdump/print_frames.c:1048-1083 | 0x02, 0x03, 0x04 and 0x1d list a number of 1, 2, 4 and 8 bytes |
| CfaOpcodes.ListsAddress | dwarfdump/print_frames.c:1017-1047 | 0x01 lists an address of four or eight bytes; any other address size brings a complaint and an address of zero, and that many bytes are passed |
| CfaOpcodes.ListsBlock | dwarfdump/print_frames.c:1192-1221 | 0x0f lists a counted block |
| CfaOpcodes.ListsUnsignedBlock | dwarfdump/print_frames.c:1222-1429 | 0x10 and 0x16 list an unsigned number and a counted block |
| CfaOpcodes.ListsNoOperand | dwarfdump/print_frames.c:1149-1438 | 0x00, 0x0a, 0x0b and 0x2d list no operand |
| CfaOpcodes.ListsPrimary | dwarfdump/print_frames.c:978-1013 | bytes from 0x40 on list their low six bits, those from 0x80 below 0xc0 an unsigned number too |
| CfaOpcodes.ListsFallThrough | dwarfdump/print_frames.c:1439-1468 | 0x2f lists its own line and then the argument-size line with the unsigned number behind it |
| CfaOpcodes.ListsUnexpected | dwarfdump/print_frames.c:1469-1474 | every other byte is unexpected and ends the listing |
| CfaOpcodes.UnexpectedIsLast | dwarfdump/print_frames.c:971-1479 | for any bytes an unexpected opcode is the last line and nothing behind it is read; without one all of the given length is disassembled |
| CfaOpcodes.ValOffsetMisread | dwarfdump/print_frames.c:1331-1345 | the bytes 0x14, 1, 64 list val_offset with register 1 and offset -64 |
| Leb128.LocalDecodeULeb | dwarfdump/print_sections.c:128-151 | for any bytes the loop of shifts and ORs delivers the weighted sum of the groups, cut to an int and sign-extended, and the byte count |
| Leb128.DecodeULeb | libdwarf/dwarf_leb.c:46-110 | the four unrolled cases and the loop behind them deliver the same: the weighted sum modulo 2^64 |
| Leb128.DecodeLong | libdwarf/dwarf_leb.c:92-110 | the loop alone meets that specification for every encoding, short ones included |
| Leb128.DecodeSLeb | libdwarf/dwarf_leb.c:117-149 | ORed groups and the sign mask are the two's complement reading of the groups, in 64 bits |
| LebGroups.ByteIsGroup | libdwarf/dwarf_leb.c:92-110 | for any encoding, longer ones than necessary included, byte i holds the i-th group of seven bits of the number read, which has no more groups than bytes |
| LebGroups.LengthIsFirstEnd | libdwarf/dwarf_leb.c:92-110 | an encoding lasts up to the first byte without the continuation bit |
| LebGroups.SignIsLastBit | libdwarf/dwarf_leb.c:117-149 | the signed number is the sum of the groups, less the weight of all of them when bit 6 of the last byte is set |
| Leb128.ExtendSign | libdwarf/dwarf_leb.c:142-144 | ORing the mask subtracts the sign weight, and when the groups fill all 64 bits no mask is needed |
| Leb128.LocalULebRoundTrip | dwarfdump/print_sections.c:128-151 | dwarfdump's decoder recovers an encoded value exactly when it is below 2^31; up to 2^32 it shows the sign-extended value |
| Leb128.ULebRoundTrip | libdwarf/dwarf_leb.c:46-110 | libdwarf's decoder recovers exactly the values below 2^64 |
| Leb128.SLebRoundTrip | dwarfdump/print_sections.c:153-187 | both signed decoders recover exactly the signed 64-bit values |
| Leb128.ULebReadAsSLeb | dwarfdump/print_frames.c:1331-1345 | the operand of val_offset, unsigned by the standard and decoded as signed, is right exactly when it is below 2^63 and its last group leaves the sign bit clear; below 2^63 it is otherwise too small by 128^n, n being the bytes it takes, and from 2^63 on by 2^64 |
| Leb128.SixtyFourReadAsNegative | dwarfdump/print_frames.c:1331-1345 | the offset 64 is read as -64 |
| Leb128.ProEncodeULeb | libdwarf/pro_encode_nm.c:58-82 | writes the shortest encoding, or fails exactly when it does not fit the space |
| Leb128.ProEncodeSLeb | libdwarf/pro_encode_nm.c:90-123 | the same for signed values |
| Leb128.NextSignedByte | libdwarf/pro_encode_nm.c:101-120 | the stopping test holds exactly when the last group already shows the sign |
| Leb128.EncodeULebLength | libdwarf/pro_encode_nm.c:58-82 | an encoding takes at most n bytes exactly when the value is below 128^n |
| Leb128.EncodeSLebLength | libdwarf/pro_encode_nm.c:90-123 | the same for signed values |
| DieNavigation.DwarfSiblingOf | libdwarf/dwarf_die_deliv.c:528-664 | the loop that counts child lists computes the recursive search, on any entry list |
| DieNavigation.DwarfChild | libdwarf/dwarf_die_deliv.c:667-736 | the first child is the next entry, if the entry is flagged and its list is not empty |
| DieNavigation.SiblingOfChain | libdwarf/dwarf_die_deliv.c:574-631 | on the layout of any tree the search goes to the next sibling past any depth of descendants, with or without DW_AT_sibling, and says no entry exactly at the end of the chain |
| DieNavigation.ChildOfChain | libdwarf/dwarf_die_deliv.c:684-735 | on the layout of any tree dwarf_child goes to the first child, also when an entry is flagged and owns none |
| DieWalk.Walker.PrintOneDie | dwarfdump2/print_die.cc:339-375 | a marked holder prints nothing; otherwise the line and the mark when printing, or the match when searching |
| DieWalk.Walker.PrintDieStack | dwarfdump2/print_die.cc:206-217 | prints what the stack still owes, outermost first, and marks every slot |
| DieWalk.Walker.CheckTags | dwarfdump2/print_die.cc:238-289 | the root's tag, or the tags of the entry and of the one below it on the stack |
| DieWalk.Walker.Announce | dwarfdump2/print_die.cc:236-297 | pushing, checking and printing an entry before the descent |
| DieWalk.Walker.VisitDie | dwarfdump2/print_die.cc:236-327 | one turn of the sibling loop: stack and output afterwards, for any stack before |
| DieWalk.Walker.PrintDieAndChildren | dwarfdump2/print_die.cc:221-337 | on any chain of siblings and for any stack: what is printed and checked, the path on the stack at each entry, the marks left on it, and level and height as on entry |
| DieWalk.PrintUnit | dwarfdump2/print_die.cc:193-204 | a unit prints exactly its listing, makes one tag check per entry, in preorder, of parent and child, and has the path down to the entry on the stack whenever it checks and prints one |
| DieFacts.UnitChecks | dwarfdump2/print_die.cc:238-289 | the tag checks of a unit: as many as entries; the first is of the unit entry's own tag; each other one is of the tag of the one entry that stands on its path just before it, as the parent, and of its own tag, as the child |
| DieFacts.OneNodePerPlace | dwarfdump2/print_die.cc:222-337 | no two entries of a tree stand at one place in the section |
| DieFacts.NodesAreEntries | libdwarf/dwarf_die_deliv.c:574-631 | every entry of a tree stands at its place in the section, with its attributes and its flag |
| DieStack.Turn | dwarfdump2/print_die.cc:234-335 | one turn of the loop composes: the entry, its descendants, then the siblings behind it, with the marks threaded through |
| DieStack.OutputOfUnit | dwarfdump2/print_die.cc:193-204 | started with an empty stack, the walk's output is the listing of the unit |
| DieStack.UnitListingIsExact | dwarfdump2/print_die.cc:206-337 | for every tree and every match test the lines are exactly the entries that match or have a match among their descendants, each once, in preorder, at its depth; when printing all, every entry |
| DieStack.LeftBySearch | dwarfdump2/print_die.cc:292-327 | the ancestors are left marked exactly when something in the subtree matched |
| DieListing.ClosureIsAncestorClosure | dwarfdump2/print_die.cc:206-337 | the recursive closure is the set of ancestors-or-self of matches, in section order without repetition |
| DieListing.EverythingIsPreorder | dwarfdump2/print_die.cc:222-337 | listing everything lists every entry once, in preorder, at its depth |
| DieListing.PathsAreAncestors | dwarfdump2/print_die.cc:234-335 | the path recorded for the k-th visited entry is its ancestors and itself, outermost first, one for each level |
| DieListing.NodesWithin | dwarfdump2/print_die.cc:222-337 | an entry's descendants are exactly the entries in the stretch of the section it takes |
| DieHandles.Debug.Child | libdwarf/dwarf_die_deliv.c:667-736 | a fresh handle onto the first child, or none |
| DieHandles.Debug.Sibling | libdwarf/dwarf_die_deliv.c:528-664 | a fresh handle onto the next sibling, or none |
| DieHandles.ReleasedOnce | dwarfdump/print_die.c:299-347 | a handle that was given out and is not live was released exactly once |
| DieWalkC.AddressFinder.DoThisDieAndDealloc | libdwarf/dwarf_addr_finder.c:497-577 | processes every entry of the chain in preorder, and releases every handle it obtained and its argument |
| DieFacts.PlacesArePreorder | libdwarf/dwarf_addr_finder.c:497-577 | the places the finder comes to are those of all entries, in preorder |
| DieWalkC.Printer.PrintOneDie | dwarfdump/print_die.c:354-396 | the same as with holders, the mark kept in the stack entry of the level |
| DieWalkC.Printer.PrintDieStack | dwarfdump/print_die.c:205-216 | prints what the stack owes up to the current level and marks it |
| DieWalkC.Printer.SetEntry | dwarfdump/print_die.c:92-97 | the entry is set on top of the stack, unmarked |
| DieWalkC.Printer.CheckTags | dwarfdump/print_die.c:233-286 | the root's tag, or the tags of the entry below it on the stack and of the entry itself |
| DieWalkC.Printer.PrintArrived | dwarfdump/print_die.c:289-297 | printing or matching the entry, which is on the stack already |
| DieWalkC.Printer.Announce | dwarfdump/print_die.c:231-297 | setting the stack entry, checking and printing: the checks, the path on the stack, the output |
| DieWalkC.Printer.Descend | dwarfdump/print_die.c:299-317 | the child's handle is used for the descent and released after it |
| DieWalkC.Printer.MoveOn | dwarfdump/print_die.c:319-346 | the sibling's handle is obtained, the stack entry emptied, the current handle released unless it is the caller's |
| DieWalkC.Printer.VisitDie | dwarfdump/print_die.c:231-317 | one turn of the loop, with its output, checks and paths, and the live handles as before |
| DieWalkC.Printer.PrintDieAndChildren | dwarfdump/print_die.c:219-349 | for any chain no deeper than the stack has room: output, tag checks, the path on the stack at each entry, marks and level as with holders; the argument stays live and every other handle is released |
| DieWalkC.PrintUnit | dwarfdump/print_die.c:219-349 | a whole unit prints the same listing and makes the same checks, with the same paths on the stack, as in dwarfdump2, and every handle is released exactly once |
| ProcNames.ScanFinds | dwarfdump/print_frames.c:142-244 | the attribute scan finds a function exactly when name and low pc both appear, in either order |
| ProcFacts.ProcIs | dwarfdump/print_frames.c:142-244 | what is found, by the places of the attributes: of the fewest that hold a low pc and a name, the last low pc, and the last DW_AT_name or, when none stands there, the name of the first origin that leads to one; nothing exactly when they never hold both |
| ProcFacts.ProcsAreCollected | dwarfdump/print_frames.c:256-380 | the functions of a chain are, in preorder, those of the entries that name one and are subprograms below subprograms only |
| ProcFacts.UnitProcsAre | dwarfdump2/print_frames.cc:361-386 | the functions of a unit are so collected from below its entry, whatever that entry's own tag |
| ProcNames.SamePcs | dwarfdump2/print_frames.cc:240-312 | map and search know the same low pcs, whatever the functions |
| ProcNames.MapRefinesSearch | dwarfdump2/print_frames.cc:240-312 | with distinct low pcs the map answers as the search does, before names are cut |
| ProcNames.MapKeepsLast | dwarfdump2/print_frames.cc:240-312 | in general the map holds the last function of a low pc |
| ProcNames.SearchIsMap | dwarfdump2/print_frames.cc:240-312 | search and map agree on a pc exactly when the first and the last function listed at it have one name |
| ProcNames.DuplicatePcsDiffer | dwarfdump2/print_frames.cc:240-312 | an example with two functions at one low pc: the search names the first, the map the last |
| ProcSearch.GetProcName | dwarfdump/print_frames.c:142-244 | the function this entry names, if it names one at the wanted pc; the name cut to the buffer |
| ProcSearch.SearchOneDie | dwarfdump/print_frames.c:279-325 | the loop's work on one entry: its own name, or the first among its children if it is a subprogram |
| ProcSearch.GetNestedProcName | dwarfdump/print_frames.c:256-380 | the first function of the chain, in preorder, at the pc; on every way out the obtained handles are released and the argument is not |
| ProcNameMap.GetProc | dwarfdump2/print_frames.cc:138-230 | the function this entry names, with its low pc |
| ProcNameMap.LoadOneDie | dwarfdump2/print_frames.cc:251-284 | a subprogram is recorded, then the functions among its children |
| ProcNameMap.LoadNestedProcNames | dwarfdump2/print_frames.cc:240-312 | the map is extended by exactly the functions of the chain, in preorder, later ones overwriting; the obtained handles are released and the argument is not |
| ProcNameMap.SearchAndMap | dwarfdump/print_frames.c:256-380 | run from one entry, search and map find a name for the same pcs; with distinct low pcs the search's name is the map's, cut to its buffer; and in general they agree exactly when the last function's name is the first one's, cut |
| ProcNameMap.NameFinder.NextCuHeader | libdwarf/dwarf_die_deliv.c:262-347 | the next unit, and after the last one none and then the first again |
| ProcNameMap.NameFinder.LoadUnit | dwarfdump2/print_frames.cc:361-386 | one unit's functions go into the map |
| ProcNameMap.NameFinder.GetFdeProcName | dwarfdump2/print_frames.cc:328-394 | the answer and the number of units loaded are those of the lazy query; each unit is loaded once, in order, and the map is always the fold of the units loaded so far |
| ProcNameMap.QueryIsEager | dwarfdump2/print_frames.cc:328-394 | with distinct low pcs a query answers like a map filled with all units, whatever was loaded before |
| ProcNameMap.PrefixAnswers | dwarfdump2/print_frames.cc:328-394 | with distinct low pcs an answer never changes when more units are loaded |
| ProcNameMap.AnswerAll | dwarfdump2/print_frames.cc:328-394 | any sequence of queries is answered like the eager map, in any order |
| ProcNameMap.DuplicatePcsShowOrder | dwarfdump2/print_frames.cc:328-394 | an example without distinct low pcs: the same query gets two answers, before and after another one |
| ProcOrder.OrderShows | dwarfdump2/print_frames.cc:328-394 | whatever number of units is loaded, a query answers like the eager map exactly when all units that have its pc end with one name for it |
| ProcOrder.QueryAnswer | dwarfdump2/print_frames.cc:342-392 | a query answers from the units that are loaded, if one has the pc; otherwise it loads up to the first other unit that has it and gives the name of that unit's last function there; if there is none it loads all |
| ProcOrder.StopsAreStates | dwarfdump2/print_frames.cc:342-392 | the numbers of loaded units that queries lead to are exactly zero, all, and those behind a unit that brings a new pc |
| ProcOrder.OrderShowsInRuns | dwarfdump2/print_frames.cc:328-394 | over all sequences of queries the answers for a pc are those of the eager map exactly when at each of these numbers the last loaded unit that has the pc names it as the last of all units does |
| ProcRestart.FoundIffAhead | dwarfdump/print_frames.c:393-516 | dwarfdump's query finds a name exactly when the unit that answered last has it, or one at or behind the position among the units with at most one unit without an entry between; a second such unit ends the program |
| ProcRestart.AskLeaves | dwarfdump/print_frames.c:393-516 | the unit that answers is the current one if it has the pc and else the first that has it from the position on; it is current afterwards and the position is behind it; a miss leaves the last unit and resets the position |
| ProcRestart.AskAgain | dwarfdump/print_frames.c:393-516 | a miss resets the position, so asking again finds the name if any unit has it, when at most one unit has no entry |
| ProcRestart.AnswersLikeMap | dwarfdump/print_frames.c:393-516 | with distinct low pcs dwarfdump's answer is that of dwarfdump2's full map exactly when no unit has the pc or the one that has it is still looked at |
| ProcRestart.MissesBehind | dwarfdump/print_frames.c:393-516 | a function of a unit already passed is missed, though the map finds it |
| ProcRestart.Finder.SearchUnit | dwarfdump/print_frames.c:489-512 | the search through one unit, from its entry's first child |
| ProcRestart.Finder.GetFdeProcName | dwarfdump/print_frames.c:393-516 | the answer, cut to the buffer, and the new state are those of the query, for units with and without an entry |
| ArangeReader.Chain.Append | libdwarf/dwarf_arange.c:227-233 | a link is put at the end of the chain |
| ArangeReader.Chain.ToSeq | libdwarf/dwarf_arange.c:264-270 | following the chain copies its items in order |
| ArangeReader.ReadSetHeader | libdwarf/dwarf_arange.c:134-192 | a set's header or its first error, and the length still to come, modulo 2^64 |
| ArangeFacts.TuplesAreAligned | libdwarf/dwarf_arange.c:186-192 | for any bytes the tuples of a set start at the first place behind its header that lies a multiple of twice the address size from its start; nothing is skipped when the header ends there |
| ArangeFacts.HeaderErrors | libdwarf/dwarf_arange.c:134-192 | for any version, offset, address size and segment size in a header: the first wrong field makes its error, and without one the header is read |
| ArangeFacts.TuplesByPlace | libdwarf/dwarf_arange.c:194-246 | tuples of any two widths are those stored one behind the other up to the first zeros, each with its place; they can be read exactly when there are such zeros |
| ArangeReader.ChainTuples | libdwarf/dwarf_arange.c:194-235 | the tuples up to the pair of zeros go onto the chain, each with the set's info offset |
| ArangeReader.DwarfGetAranges | libdwarf/dwarf_arange.c:65-275 | for any bytes: all ranges of the section in order, or the first error |
| ArangeFacts.SweepIsDecoding | libdwarf/dwarf_arange.c:65-275 | the sweep accepts exactly the sections that are encodings of non-empty lists of well-formed sets, and gives all their ranges in order |
| ArangeFacts.SetIsEncoding | libdwarf/dwarf_arange.c:124-275 | bytes that are read as a set are the encoding of that set, trailing bytes included |
| ArangeFacts.AlignedSet | libdwarf/dwarf_arange.c:186-192 | a set whose header needs no padding, in either byte order: its one range is listed |
| ArangeReader.ChainPlaces | libdwarf/dwarf_arange.c:415-458 | the second sweep's inner loop, with pointer-size addresses, offset-size lengths and the byte count carried modulo 2^64 |
| ArangeReader.CopyPlaces | libdwarf/dwarf_arange.c:487-497 | the chain is copied into the two arrays |
| ArangeReader.DwarfGetArangesAddrOffsets | libdwarf/dwarf_arange.c:288-502 | for any bytes: the addresses of all ranges and the places where they are stored, or the first error |
| ArangeReader.DwarfGetArange | libdwarf/dwarf_arange.c:514-538 | the first range that covers the address, of those that end below 2^64; NO_ENTRY exactly when there is none |
| ArangeSets.TestIsCovers | libdwarf/dwarf_arange.c:529-531 | the lookup's test finds exactly the covered addresses, except that a range reaching 2^64 wraps and covers nothing |
| ArangeSets.SweepRoundTrip | libdwarf/dwarf_arange.c:65-275 | sweeping the encoding of any non-empty list of sets, in any formats, address sizes and with any trailing bytes, gives all their ranges in order with their info offsets |
| ArangeSets.ReadSetWritten | libdwarf/pro_arange.c:140-336 | one encoded set is read back and the sweep stands behind it |
| ArangeSets.ReadHeaderWritten | libdwarf/pro_arange.c:180-258 | an encoded header is read back, alignment padding included |
| ArangeFacts.RangesAreAligned | libdwarf/pro_arange.c:180-258 | in the encoding of every well-formed set the ranges start at a multiple of their size from its start, with less than one range of padding before them |
| ArangeSets.ReadAreaWritten | libdwarf/dwarf_util.h:217-243 | each form of the length field is read back |
| ArangeSets.SetsAgree | libdwarf/dwarf_arange.c:124-275 | for any bytes, with one size for addresses, pointers and offsets: the second sweep accepts a set exactly when the first does and its tuples fill it |
| ArangeSets.SweepsAgree | libdwarf/dwarf_arange.c:277-502 | for any bytes, with one size for addresses, pointers and offsets: the second sweep succeeds exactly when the first does and no set has bytes behind its tuples; then both list the same ranges, and each offset is where that tuple is stored |
| ArangeSizes.SizesDiffer | libdwarf/dwarf_arange.c:194-246 | for any bytes, in a set with pointer-size addresses that both sweeps accept: with smaller offsets the second lists more ranges, with larger ones and nothing behind the tuples fewer |
| ArangeSizes.NativeSweepsAgree | libdwarf/dwarf_arange.c:415-463 | for any bytes the first sweep accepts, with pointer-size addresses and offsets no larger: the second lists as many ranges, and then the same, exactly when all offsets have the pointer's size and no set has bytes behind its tuples |
| ArangeSizes.SecondSweepOfWritten | libdwarf/dwarf_arange.c:288-502 | over the encoding of any sets of the pointer's size the second sweep succeeds exactly when none has trailing bytes, and then lists all their ranges with the place of each |
| ArangeSizes.WideSetDiffers | libdwarf/dwarf_arange.c:415-458 | an encoded set with 8-byte addresses and 4-byte offsets: both sweeps accept it, the first lists its two ranges, the second three |
| ArangeSizes.TrailingByteDiffers | libdwarf/dwarf_arange.c:460-463 | an encoded set with one trailing byte: the first sweep accepts it, the second refuses it |
| ArangeSizes.TopRangeNotFound | libdwarf/dwarf_arange.c:529-531 | an encoded range that reaches 2^64 is listed, covers an address, and is not found for it |
| Abbreviations.DwarfGetAbbrev | libdwarf/dwarf_abbrev.c:50-148 | for any bytes: the declaration at an offset, its length and the count of its attributes, or no entry, or an error; a declaration found never reaches past the section |
| AbbrevFacts.FoundIs | libdwarf/dwarf_abbrev.c:50-148 | for any bytes, what is found: code, tag and child flag as they stand there, the number of pairs that have an attribute, the exact length; for a zero code the length is one, however long its encoding is |
| AbbrevFacts.PairsAre | libdwarf/dwarf_abbrev.c:122-134 | for any bytes the pairs stand one behind the other, each two unsigned numbers of which the low 16 bits are kept; the walk goes on exactly behind a pair that is not zero and ends before the section does |
| AbbrevFacts.CountIsNumber | libdwarf/dwarf_abbrev.c:130-131 | the count is the number of pairs with a nonzero attribute |
| AbbrevFacts.TwoByteNull | libdwarf/dwarf_abbrev.c:97-115 | a null entry whose zero takes two bytes is listed twice |
| Abbreviations.DwarfGetAbbrevEntry | libdwarf/dwarf_abbrev.c:195-259 | for any bytes and index, the re-walk delivers the pair that the first walk met at that index, the closing zeros included; at the section's end an error instead |
| Abbreviations.DecodePair | libdwarf/dwarf_abbrev.c:125-128 | an attribute and its form, each cut to 16 bits |
| Abbreviations.CountedEntries | libdwarf/dwarf_abbrev.c:122-147 | for any bytes, all indices below the reported count name attributes exactly when the declaration's attributes come first and zeros close it |
| Abbreviations.CountedMeans | libdwarf/dwarf_abbrev.c:130-131 | the count against the places of the attributes |
| Abbreviations.OpenAtEnd | libdwarf/dwarf_abbrev.c:133-134 | a walk that does not end on zeros ends at the section's end or behind it |
| Abbreviations.ReadEncodedItem | libdwarf/pro_section.c:1867-1935 | an encoded declaration is read back: code, tag, child flag, count, the places of its attributes, and its exact length |
| Abbreviations.EncodedEntries | libdwarf/dwarf_abbrev.c:225-258 | for any encoded declaration and any index: below the count the attribute where it is encoded, at the count the zeros, above it no entry; but an error from the count on when the declaration ends the section |
| Abbreviations.LastDeclarationErrs | libdwarf/dwarf_abbrev.c:243-246 | a declaration that ends the section and the same one with a byte behind it, asked for the index at the count |
| Abbreviations.ListingOfEncoding | dwarfdump/print_abbrevs.c:74-172 | the listing steps exactly through the encoding of any items and shows each at its place with its attributes at theirs; an item without attributes shows as a null entry |
| Abbreviations.PrintAbbrevs | dwarfdump/print_abbrevs.c:74-172 | for any bytes the loop ends, and prints that listing up to the section's end or the first error |
| AbbrevFacts.ListingSteps | dwarfdump/print_abbrevs.c:74-172 | for any bytes each line shows the entry at the end of the one before, numbered from one; the listing is whole exactly when it ends at the section's end and all counted attributes are shown, and otherwise ends as the entry that cannot be read says |
| AbbrevFacts.AttributesAreEntries | dwarfdump/print_abbrevs.c:143-167 | the attributes listed are the entries at the indices below the count, all of them exactly when there is an entry at each |
| Abbreviations.PrintAttributes | dwarfdump/print_abbrevs.c:143-167 | one entry for each counted attribute; the last is an error when zeros do not close the list, and the ones before it are printed |
| TagTables.Build | dwarfdump/tag_tree.c:179-237 | for any list of numbers: the table holds exactly the list's groups, or the first complaint is made |
| TagTables.OpenGroup | dwarfdump/tag_tree.c:196-205 | a new group, which opens a row of the extension table |
| TagTables.AddValue | dwarfdump/tag_attr.c:212-229 | a value sets its bit and no other, or takes the next cell of the row |
| TagTables.LegalCombination | dwarfdump/print_die.c:1705-1782 | on tables packed with any groups, the scan decides what the groups say, a not-full extension row also answering for zero |
| TagTables.JudgedIsLegal | dwarfdump/print_die.c:1743-1782 | for every nonzero child or attribute a pair is legal exactly when a group lists it; for zero exactly under the stated condition on unfinished extension rows |
| TagTables.ShortRowMakesZeroLegal | dwarfdump/print_die.c:1767-1780 | an accepted extension list with a row that is not full: child 0 is legal though no group lists it |
| TagTables.MaskTests | dwarfdump/print_die.c:1712-1719 | masking a word with one bit tests exactly that combination |
| TagTables.BuildAndCheck | dwarfdump/tag_tree.c:179-237 | from the lists to the verdict, for every pair of lists the builders accept and every value, zero included |
| TagTables.ReadWritten | dwarfdump/tag_attr.c:180-236 | groups that fit are read back from their list |
| TagFacts.AcceptedAreWritten | dwarfdump/tag_tree.c:179-237 | a list is accepted exactly when it is written from groups that fit the table and hold no magic number, and these groups are read |
| TagFacts.Complaints | dwarfdump/tag_tree.c:179-237 | behind any groups that fit: a tag or row without room, a group that does not end, a value without room, each with its complaint; an empty list, and one that does not begin with the magic number |
| Holders.Program.New | dwarfdump2/dieholder.h:41-41 | an empty holder with its own counter; like every operation here it changes holders, marks and frees exactly as the specification says and keeps the counters right |
| Holders.Program.Wrap | dwarfdump2/dieholder.h:42-43 | a holder of a payload not wrapped before |
| Holders.Program.Copy | dwarfdump2/dieholder.h:51-54 | a copy shares counter and payload and has its own mark |
| Holders.Program.Assign | dwarfdump2/dieholder.h:55-69 | the target's payload is freed exactly when no other holder has it, the source's is then shared; self-assignment and assignment between sharers change nothing that is held or freed |
| Holders.Program.Destroy | dwarfdump2/dieholder.h:44-50 | the payload is freed exactly when no other holder has it |
| Holders.Program.MarkDiePrinted | dwarfdump2/dieholder.h:73-73 | only the holder's own mark is set, not those of its copies |
| Holders.Program.Free | dwarfdump2/srcfilesholder.h:78-83 | each name is freed and then the list, or the DIE |
| Holders.DeallocsOf | dwarfdump2/srcfilesholder.h:78-83 | the calls for the k-th payload freed stand behind those for the payloads before it; for source files each name in order and the list behind all of them |
| HolderCounts.EveryRun | dwarfdump2/dieholder.h:41-69 | over every run a counter is the number of its holders, no live holder's payload is freed, and a payload without holders was freed exactly once |
| HolderCounts.CounterTells | dwarfdump2/dieholder.h:44-50 | a counter of one means exactly that no other holder has the payload |
| HolderCounts.AssignIsAssign | dwarfdump2/dieholder.h:55-69 | assignment does what the specification says and keeps the counters right |
| HolderCounts.DestructIsDestroy | dwarfdump2/dieholder.h:44-50 | so does destruction |
| HolderCounts.CopyIsCopy | dwarfdump2/dieholder.h:51-54 | so does copying |
| HolderRuns.RunsAreSound | dwarfdump2/dieholder.h:41-73 | every run keeps: a wrapped payload is held and not freed, or freed once and not held |
| HolderRuns.RunShows | dwarfdump2/dieholder.h:41-73 | what a holder shows after any run, payload and mark, is found by following back the copies and assignments it was made by; a copy takes its source's mark along |
| HolderRuns.StepShows | dwarfdump2/dieholder.h:41-73 | an operation changes what its own holder shows and no other |
| HolderRuns.NothingLeaks | dwarfdump2/srcfilesholder.h:44-83 | when no holder is left, exactly the wrapped payloads have been freed, each once |
| RegisterTable.ReallocTable.Add | dwarfdump/dwconf.c:546-576 | the last name written to a register is kept, the others unchanged; the first write drops the static table |
| RegisterTable.ReallocTable.Grow | dwarfdump/dwconf.c:556-573 | reallocation keeps every name |
| RegisterTable.ReallocTable.Print | dwarfdump/dwconf.c:1216-1248 | a register prints as a rule, by its name, or by its number |
| RegisterTable.VectorTable.Add | dwarfdump2/dwconf.cc:481-492 | the vector keeps the last name too |
| RegisterTable.VectorTable.Print | dwarfdump2/dwconf.cc:1115-1145 | the same printing from the vector |
| RegisterTable.PrintBoth | dwarfdump2/dwconf.cc:1115-1145 | after any sequence of at least one write every register prints the same through either table; before any, the C table prints the default names |
| RegisterTable.WrittenIsLast | dwarfdump/dwconf.c:546-576 | the map both tables represent holds the last write to each register |
| RegisterTable.PrintsAs | dwarfdump/dwconf.c:1216-1248 | after any writes the frame address column prints cfa, else the undefined column u, else the same-value column s, else the last name written, else r and the number |
| ConfLines.Skip | dwarfdump/dwconf.c:354-363 | leading blanks are skipped |
| ConfLines.FindTokenLen | dwarfdump/dwconf.c:333-348 | a token ends at a blank or a comment |
| ConfLines.GetToken | dwarfdump/dwconf.c:449-466 | the next token and the rest of the line |
| ConfLines.NumberRoundTrip | dwarfdump/dwconf.c:581-608 | a decimal number is read back, a too large one becomes 2^64-1 |
| ConfNumbers.NumbersMean | dwarfdump/dwconf.c:581-608 | hexadecimal numbers behind 0x or 0X in small or capital letters, octal ones behind 0 and decimal ones, with and without a sign, have the value they should; a negative one is its complement in 64 bits, and one too large is 2^64-1 with any sign |
| ConfNumbers.NumbersAre | dwarfdump/dwconf.c:581-608 | a token is a number exactly when all of it is one of these forms |
| ConfNumbers.IntIs | dwarfdump/dwconf.c:662-887 | a setting is cut to the signed 32-bit value with the same low bits |
| ConfNumbers.SkipsBlanks | dwarfdump/dwconf.c:354-363 | what is skipped is blank, up to the first character that is not |
| ConfNumbers.LineEndIs | dwarfdump/dwconf.c:389-426 | a read ends behind the first newline, or when the buffer is full or the text ends |
| ConfParser.FindAbiStart | dwarfdump/dwconf.c:389-426 | the first line that begins the ABI's block, as a 100-byte buffer cuts the text |
| ConfParser.WhichCommand | dwarfdump/dwconf.c:487-510 | the type of a line |
| ConfParser.Parser.ParseBeginAbiLine | dwarfdump/dwconf.c:515-540 | state after the command, errors counted |
| ConfParser.Parser.ParseRegLine | dwarfdump/dwconf.c:613-656 | state after the command; the register table shows the names written so far |
| ConfParser.Parser.ParseScalarLine | dwarfdump/dwconf.c:662-887 | state after a setting, errors counted, interface numbers other than 2 and 3 refused |
| ConfParser.Parser.ParseEndAbiLine | dwarfdump/dwconf.c:893-916 | state at the end of a block, the count of registers checked |
| ConfParser.Parser.Parse | dwarfdump/dwconf.c:934-1102 | for any text the line loop ends with the configuration, the names and the error count that the lines add up to |
| ConfParser.ReadConfiguration | dwarfdump/dwconf.c:119-161 | the block is found and parsed, or two errors are counted |
| ConfRoundTrip.LineParsed | dwarfdump/dwconf.c:964-1099 | one written line, with any blanks and comment, is parsed to what it says |
| ConfRoundTrip.CommandIsNamed | dwarfdump/dwconf.c:70-90 | no command's name hides another's |
| ConfRoundTrip.FoundBehind | dwarfdump/dwconf.c:389-426 | the block is found behind any lines that fit the buffer and do not begin it |
| ConfRoundTrip.BlockRead | dwarfdump/dwconf.c:119-161 | a written block is found and parsed, whatever precedes and follows it: its names in their order, and each setting with the last value a line gives it or else the default |
| ConfRoundTrip.BlockErrors | dwarfdump/dwconf.c:934-1102 | it is read without errors exactly when no setting comes twice and it names no more registers than the table size its lines ask for, 66 if they ask for none |
| ConfFile.FileRead | dwarfdump/dwconf.c:119-161 | a file of any written blocks for other ABIs, blank and comment lines, then the block of this one, all in lines that fit the 100-byte buffer, and anything behind it: the block is parsed to its names and settings, without errors exactly under the stated condition |
| ConfFile.NotInFile | dwarfdump/dwconf.c:389-426 | in a file of such blocks for other ABIs only, none is found, and two errors are counted |
| ConfFile.BeginsItsOwn | dwarfdump/dwconf.c:410-421 | a written first line begins the block of the ABI it names and no other |
| ConfFile.Defaults | dwarfdump/dwconf.c:1145-1165 | a block without settings leaves interface 2, table size 66, initial value and same-value column 1035, frame address column 0 and undefined column 1034 |
| ConfErrors.RegisterLine | dwarfdump/dwconf.c:613-656 | whatever words stand on a register line: what is written and how many errors are counted |
| ConfErrors.SettingLine | dwarfdump/dwconf.c:662-887 | whatever words stand on a setting's line: the one setting that changes, and the errors, one for a missing number, two for a bad one, one for another interface, one for words behind it, one for a second line of its kind |
| ConfErrors.BeginLine | dwarfdump/dwconf.c:515-540 | a first line inside a block: an error unless it holds just the ABI's name, and one if it is the second |
| ConfErrors.EndLine | dwarfdump/dwconf.c:893-916 | a last line: an error unless it holds just the ABI's name, and one for more register lines than the table size |
| ConfErrors.CommandParsed | dwarfdump/dwconf.c:964-1099 | a command's line with any words behind it is parsed as that command with these words |
| ConfErrors.UnknownParsed | dwarfdump/dwconf.c:964-1099 | a line that begins with any other word is one error and nothing else |
| ConfErrors.CommentRead | dwarfdump/dwconf.c:613-627 | a comment right behind a command's name is read as its operands: an example names a register |
| ConfRoundTrip.SettingsMeant | dwarfdump/dwconf.c:964-1099 | after any lines each setting has the value of the last line of its kind, or what it had before |
| ConfRoundTrip.LastSettingIs | dwarfdump/dwconf.c:964-1099 | the last line of a kind, by its place among the lines |
| ConfRoundTrip.ErrorsMeant | dwarfdump/dwconf.c:1003-1073 | lines add no errors exactly when no setting comes twice or was seen before |

## Left out

- printing: printf and iostream formatting, `-d` (dense) output, symbolic names and the factored values some
  call-frame lines print; lines carry the decoded operands.
- CfaDisassembler.PrintFrameInstBytes: fixed-width operands are read in little-endian order, the host's on the
  machines dwarfdump is mostly run on; a big-endian host reads them the other way round.
- Leb128.LocalDecodeULeb: encodings longer than five bytes, whose shifts C leaves undefined, are reported as
  undefined and not modelled further; likewise ten bytes for the 64-bit decoders, and reads past the end of memory.
- DieNavigation.DwarfSiblingOf: an entry takes one place in the list, whatever bytes its attributes take; the
  sizes of attribute forms (`_dwarf_next_die_info_ptr`) are abstracted.
- DieWalk.Walker.PrintDieAndChildren: the local-symbol marks that dwarfdump2 prints at level 0 are not part of
  this model, and a failing `dwarf_child` or `dwarf_siblingof`, which ends the program, is not either.
- DieWalkC.Printer.PrintDieAndChildren: a tree deeper than the 300 entries of the stack, which ends the program
  with an error, is excluded.
- ProcRestart.Finder.GetFdeProcName: the handle of the unit entry that the code keeps between queries is taken
  anew for each search, so its lifetime is not modelled.
- ProcNameMap.NameFinder.GetFdeProcName: errors in a unit, which the code skips or ends on, are not modelled.
- ArangeReader.DwarfGetAranges: lengths so large that the end pointer wraps are not modelled, and an address size
  above 8, which makes C copy more bytes than the target holds, counts as out of section; so does address size 0.
- ArangeSizes.NativeSweepsAgree: sets whose addresses do not have the pointer's size, or whose offsets are larger
  than it; there the second sweep reads other words than the first, and whether they make the same list depends on
  the data, bytes behind the tuples included.
- ArangeSets.ReadSetWritten: the producer writes one set with relocations; the model's encoder also writes what
  readers allow beyond that: several sets, nonzero info offsets and trailing bytes.
- TagTables.Build: reading numbers from text lines (`read_value`, `trim_newline`, `is_skippable_line`).
- Holders.Program.Wrap: wrapping one raw handle twice is excluded, as the classes require of their users; an
  allocator that hands out an address still in use is too.
- RegisterTable.ReallocTable.Add: register numbers whose table size in bytes does not fit 64 bits.
- ConfParser.Parser.Parse: NUL characters in the file; a command name that ends the text without a newline, behind
  which the code reads on, is reported as such and not modelled further.
- RegisterTable.VectorTable.Print: `unsigned` settings above 2^31, which the two programs widen differently.
- the search for the configuration file (`find_a_file`, `canonical_append`), option parsing and file access.
- the extensible string buffer (esb.c) and `is_strstrnocase`: they would only add easy members.
- allocation: it always succeeds, and handles and counters are fresh.
- location expressions, range lists, line tables, pubnames, relocations and frame tables beyond instructions.
