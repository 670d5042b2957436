# Four parts of GHDL, modelled and proved

GHDL is a VHDL compiler and simulator. This project models four of its parts in Dafny and proves
what they promise, for all inputs. `dafny verify dfyconfig.toml` checks everything.

**The arithmetic of `numeric_std` and `numeric_bit`** (`libraries/openieee/build_numeric.py`). The
Python program prints the bodies of the VHDL packages; the model is of the subprograms it prints,
once for both vector types (`VecType`). Vectors are sequences of bits, element 0 being the least
significant; the loops work on arrays in place. `UVal` and `SVal` in `Vectors.dfy` read a vector as
an unsigned or two's complement number, and each operator is proved equal to integer arithmetic at
every width: ripple-carry addition and subtraction, shift-and-add multiplication, restoring
division, `/`, `rem`, `mod`, comparison, `resize`, shifts, rotations, and the forms with an integer
on one side. `NumericStd.dfy` keeps the nine values of `std_ulogic` for `+` and `-`.

**The GHW wave-file reader** (`ghw/libghw.c`). A stream is a byte sequence with a position
(`GhwStream.dfy`). A C function ends with a value, with -1, by leaving the program, or outside what
the C language defines (`Read`). For each section there are functions that say what the bytes
mean, methods that read them as the C code does and are proved to agree with those functions, and
an encoder with a round trip: the front-coded string table (`GhwStrings.dfy`), the type table
(`GhwTypes.dfy`, `GhwTypeReader.dfy`, `GhwTypeFormat.dfy`, `GhwTypeBounds.dfy`, `GhwTypeDefs.dfy`),
values and the ids of signals (`GhwValues.dfy`, `GhwSignals.dfy`), the hierarchy
(`GhwHierarchy.dfy`, `GhwHieReader.dfy`, `GhwHieFormat.dfy`), and the values over time
(`GhwCache.dfy`, `GhwWaves.dfy`, `GhwWaveReader.dfy`, `GhwWaveFormat.dfy`, `GhwDumpFormat.dfy`), for
which the reader that works section by section is proved to do what the reader of whole files does.

**Invalidation in the language server** (`pyGHDL/lsp/workspace.py`, `Invalidation.dfy`). The
inverse dependency map and the marking recursion over a possibly cyclic graph: exactly the units
that depend on a document go back to their source.

**Verilog literals as VHDL strings** (`src/verilog/exporters.rs`, `VerilogLiteral.dfy`). Four-state
extension and truncation with a cached 32-bit word.

Where the code does not do what one would expect, the model follows the code, the exact condition is
proved, and a lemma shows an input that fails:

- SIGNED against INTEGER compares the integer modulo the vector's range when the signs agree:
  `NumericCompare.SignedIntExact` says for which integers that is right for every vector,
  `SignedIntRight` for which vector and integer it is; `CompareExample`.
- SIGNED `mod` INTEGER loses the result when it does not fit the vector (`NumericSigned.VecIntSDiv`,
  `ModFits`, `ModExample`).
- The sign bit that extends a SIGNED is not normalised: a weak `'L'` or `'H'` is out of the range of
  the variable it is assigned to (`NumericStd.WeakSign`, `WeakSignExample`).
- A vector with an 'X' and a negative integer give a truncation warning that is not due
  (`NumericStd.Warns`, `VecIntBinary`, `WarningExample`). The test for a negative length in that
  template is never true.
- `ghw_get_i64` replaces the high half when the low half is negative (`GhwStream.I64RoundTrip`,
  `I64Example`).
- The area for strings is sized in 32 bits (`GhwStrings.SectionRoundTrip`, `EnoughRoom`,
  `AllocExample`).
- Bounds for an unbounded record subtype read past the end of its structure: a type whose bounds are
  missing can be given bounds if and only if it is `GhwTypeBounds.Boundable` (`BoundsCanBeRead`,
  `UnreadableExample`).
- The index cache is read without a check, and the fast path wraps around (`GhwCache.SelectIsWalk`,
  `WrapExample`).

## Model

| member | source | states |
|---|---|---|
| Vectors.ColumnSum | libraries/openieee/numeric_bit-body.proto:32-42 | The tables compute_sum and compute_carry are a full adder: sum and doubled carry are worth the three input bits. |
| NumericAdd.VecVecBinary | libraries/openieee/build_numeric.py:117-183 | For two-valued vectors of any two lengths the result has the longer length and is l + r or l - r modulo 2 to that length, operands read as UNSIGNED or SIGNED; null if an operand is null. |
| NumericStd.VecVecBinary | libraries/openieee/build_numeric.py:117-183 | On std_ulogic: all 'X' when some operand bit is a metavalue, otherwise two-valued and the exact sum or difference modulo the range; a range error if and only if a weak sign bit is extended before any 'X'. |
| NumericStd.VecIntBinary | libraries/openieee/build_numeric.py:203-307 | Vector and integer in either order: exact modulo 2**n without an 'X', all 'X' otherwise. The truncation warning comes exactly when, without an 'X', the NATURAL is at least 2**n or the INTEGER outside [-2**n, 2**n), and, with one, the integer is negative. |
| NumericStd.WarningExample | libraries/openieee/build_numeric.py:262-307 | -1 fits every vector and gives a warning with an 'X' only. |
| NumericStd.WeakSignExample | libraries/openieee/build_numeric.py:117-183 | A weak sign bit without any metavalue that is out of range. |
| NumericConvert.ExtractLsb | libraries/openieee/build_numeric.py:203-221 | The digit and the rest are remainder and quotient of flooring division by 2, for negative integers too, although the division used truncates. |
| NumericConvert.ToUnsigned | libraries/openieee/numeric_bit-body.proto:113-133 | The bits are the NATURAL modulo 2**size; the warning comes exactly when it does not fit. |
| NumericConvert.ToSigned | libraries/openieee/numeric_bit-body.proto:135-174 | The vector denotes the INTEGER whenever that fits; the warning comes exactly when it does not. |
| NumericConvert.SizeUnsigned | libraries/openieee/build_numeric.py:853-869 | The least width, at least 1, that holds the number. |
| NumericConvert.SizeSigned | libraries/openieee/build_numeric.py:871-889 | The least width whose two's complement range holds the number. |
| NumericConvert.Resize | libraries/openieee/build_numeric.py:545-578 | Reduction keeps the low bits, and for SIGNED the sign; expansion repeats '0' or the sign; a null vector becomes zeros. |
| NumericConvert.ResizeUnsigned | libraries/openieee/build_numeric.py:545-578 | UNSIGNED resize is reduction modulo 2**n. |
| NumericConvert.ResizeSigned | libraries/openieee/build_numeric.py:545-578 | SIGNED resize keeps the sign and the value modulo 2**(n-1), and keeps the value if and only if it fits n bits. |
| NumericMul.AddRow | libraries/openieee/build_numeric.py:705-731 | One row adds l * 2**i to the whole result modulo its range. |
| NumericMul.Propagate | libraries/openieee/build_numeric.py:714-731 | Stopping at the first carry '0' gives the same bits as rippling to the end; SIGNED rows are sign extended. |
| NumericMul.SubTop | libraries/openieee/build_numeric.py:741-756 | The last step of SIGNED subtracts l * 2**(R-1) from the whole result modulo its range. |
| NumericMul.VecVecMul | libraries/openieee/build_numeric.py:679-760 | The product is exact for UNSIGNED and SIGNED of all widths, in L + R bits. |
| NumericMul.VecIntMul | libraries/openieee/build_numeric.py:763-788 | A vector times an integer is exact if and only if the integer fits the width of the vector or the vector is zero. |
| NumericDiv.DivisionLaws | libraries/openieee/build_numeric.py:1020-1106 | The meanings used for / rem mod are those of section 9.2.7 of IEEE 1076-2008: a = (a/b)*b + (a rem b), a rem b has the sign of a, a mod b that of b and differs from a by a multiple of b, both are smaller than b. |
| NumericDiv.CompareByCarry | libraries/openieee/build_numeric.py:912-925 | The carry of the extra bit is '1' exactly when REG is at least DEM, and then SUB is their difference: one extra bit is enough. |
| NumericDiv.Restore | libraries/openieee/build_numeric.py:908-931 | One round shifts a bit in and subtracts DEM exactly when it fits; the extra bit is '0' again afterwards. |
| NumericDiv.DivMod | libraries/openieee/build_numeric.py:892-935 | For DEM > 0 num = quot * dem + remain with remain < dem, at all widths; for DEM = 0 QUOT is all ones and REMAIN is num modulo 2 to the width of dem. |
| NumericSigned.Neg | libraries/openieee/build_numeric.py:791-830 | Unary minus is the opposite number, except that the most negative value stays. |
| NumericSigned.AbsVec | libraries/openieee/build_numeric.py:791-830 | The absolute value, except that the most negative value stays. |
| NumericSigned.Has0x | libraries/openieee/build_numeric.py:833-850 | Tells whether the vector is not zero. |
| NumericSigned.UDiv | libraries/openieee/build_numeric.py:938-979 | UNSIGNED / rem mod are the integer results at all widths; what is returned after the error for a zero divisor. |
| NumericSigned.SDiv | libraries/openieee/build_numeric.py:1020-1106 | SIGNED / rem mod are the integer results for operands of any widths, most-negative ones included; only most-negative / -1 wraps; what is returned after the error for a zero divisor. |
| NumericSigned.VecIntUDiv | libraries/openieee/build_numeric.py:982-1000 | UNSIGNED by NATURAL / rem mod are exact: resizing the remainder loses nothing. |
| NumericSigned.IntVecUDiv | libraries/openieee/build_numeric.py:1002-1017 | NATURAL by UNSIGNED: rem and mod are exact, / is exact modulo the range of the vector. |
| NumericSigned.VecIntSDiv | libraries/openieee/build_numeric.py:1109-1126 | SIGNED by INTEGER: rem is exact and / is but for most-negative / -1; mod is exact if and only if it fits the n bits of the vector, and otherwise keeps its sign and its value modulo 2**(n-1). |
| NumericSigned.ModFits | libraries/openieee/build_numeric.py:1109-1126 | For an INTEGER wider than the vector, mod fits if and only if the dividend is 0, the signs agree, or the sum of both is 0 or fits. |
| NumericSigned.ModExample | libraries/openieee/build_numeric.py:1109-1126 | -1 mod 100 is 99, which four bits do not hold. |
| NumericSigned.IntVecSDiv | libraries/openieee/build_numeric.py:1128-1144 | INTEGER by SIGNED: rem and mod are exact; / is exact if and only if it fits the n bits of the vector, and otherwise keeps its sign and its value modulo 2**(n-1), except that a most negative value by -1 wraps before it is cut. |
| NumericCompare.GCompare | libraries/openieee/build_numeric.py:429-485 | Letting the last difference win from the low end is the order of the integers, for vectors of any two lengths, UNSIGNED and SIGNED. |
| NumericCompare.Compare | libraries/openieee/build_numeric.py:488-522 | Each of the six operators is that of the integers, one by one, and false when an operand is null. |
| NumericCompare.GCompareInt | libraries/openieee/build_numeric.py:310-373 | UNSIGNED against every NATURAL is the order of the integers; SIGNED compares the integer modulo 2**n once the signs agree. |
| NumericCompare.SignedIntInRange | libraries/openieee/build_numeric.py:349-368 | SIGNED against an INTEGER in [-2**n, 2**n) is the order of the integers. |
| NumericCompare.SignedIntExact | libraries/openieee/build_numeric.py:349-368 | An INTEGER compares rightly with every SIGNED of n bits if and only if it is in [-2**n, 2**n) or the top bit of its low n bits is not its sign. |
| NumericCompare.SignedIntRight | libraries/openieee/build_numeric.py:349-368 | For one vector and an INTEGER of its sign outside [-2**n, 2**n) the comparison is right if and only if the vector, as UNSIGNED, is below the low n bits of the integer (above, for negative ones). |
| NumericCompare.CompareExample | libraries/openieee/build_numeric.py:349-368 | SIGNED "00" is taken to equal 4. |
| NumericCompare.CompareInt | libraries/openieee/build_numeric.py:376-426 | The six operators with the integer on either side: right for every NATURAL and for every INTEGER that compares rightly; what they answer for the others. |
| NumericShift.Shift | libraries/openieee/build_numeric.py:617-639 | shift_left multiplies by 2**count modulo the range, shift_right divides by 2**count rounding down, for UNSIGNED and SIGNED, at all widths and counts. |
| NumericShift.ShiftOp | libraries/openieee/build_numeric.py:594-614 | sll multiplies by 2**count modulo the range and srl divides; a negative count turns one into the other. |
| NumericShift.Rotate | libraries/openieee/build_numeric.py:642-676 | Bit i goes to i + count for the left and to i - count for the right rotations, modulo the length, for every integer count. |
| NumericShift.ShiftLeftValue | libraries/openieee/build_numeric.py:617-639 | shift_left is multiplication by 2**count modulo the range. |
| NumericShift.ShiftRightValue | libraries/openieee/build_numeric.py:617-639 | shift_right is division by 2**count rounding down, for UNSIGNED and SIGNED. |
| NumericShift.RotateCompose | libraries/openieee/build_numeric.py:642-676 | Rotating twice is rotating by the sum of the counts. |
| NumericShift.RotateUndo | libraries/openieee/build_numeric.py:642-676 | ror by k undoes rol by k, for every integer k. |
| VerilogLiteral.NumberToVec | src/verilog/exporters.rs:130-181 | Exactly the requested number of characters, most significant bit first. Below the effective length, which is the number of bits present or a smaller declared size, bit i of the two planes gives '0', '1', 'Z' or 'X'; beyond it comes the X or Z of the top bit, or '0'. The cached word is always the word of the bit. |
| VerilogLiteral.WordBit | src/verilog/exporters.rs:102-128 | Bit i of the number that the words spell is bit i mod 32 of word i / 32. |
| VerilogLiteral.LiteralValue | src/verilog/exporters.rs:135-181 | The string of a literal without X and Z denotes its value, cut to the effective length and modulo 2 to the length of the string. |
| Invalidation.Workspace.ComputeAntiDependences | pyGHDL/lsp/workspace.py:491-526 | The map is the exact inverse of the dependence lists of all analysed units; it fails if and only if one of them breaks one of the three assertions. |
| Invalidation.Workspace.RecordUnit | pyGHDL/lsp/workspace.py:500-522 | One unit is entered exactly under the units it lists. |
| Invalidation.Workspace.ObsoleteDependentUnits | pyGHDL/lsp/workspace.py:289-314 | The recursion ends on cyclic graphs too; it changes only dependents of the unit, to Disk, keeps everything below a marked unit on disk, and leaves the unit finished, also with the marks of earlier calls. |
| Invalidation.Workspace.ObsoleteDoc | pyGHDL/lsp/workspace.py:316-332 | A unit goes to Disk if and only if it depends, directly or through other analysed units, on a unit of the document, and no other state changes; the dependence lists of exactly these units are dropped, unless they were on disk already; nothing happens for the document linted last; when an assertion fails. |
| Invalidation.ChainObsolete | pyGHDL/lsp/workspace.py:289-314 | Along every chain of dependences from a finished unit all units are on disk and finished. |
| Invalidation.InverseDepends | pyGHDL/lsp/workspace.py:491-526 | Reachability in the map is dependence in the lists, both ways. |
| Invalidation.NothingStale | pyGHDL/lsp/workspace.py:316-332 | Afterwards no analysed unit lists a unit of the document or one that was invalidated with it. |
| GhwStream.ReadUleb128 | ghw/libghw.c:223-241 | The loop reads what the recursive definition of unsigned LEB128 in 32 bits says, and leaves the stream behind it. |
| GhwStream.ReadSleb128 | ghw/libghw.c:243-290 | The same for signed LEB128 in 32 and 64 bits. |
| GhwStream.UlebRoundTrip | ghw/libghw.c:223-241 | Every 32-bit unsigned number is read back from its encoding, anywhere in a stream, and nothing else is consumed. |
| GhwStream.SlebRoundTrip | ghw/libghw.c:243-290 | The same for every 32-bit and 64-bit signed number, with the sign extension skipped at the width boundary. |
| GhwStream.I32RoundTrip | ghw/libghw.c:175-182 | Every 32-bit number is read back in both byte orders. |
| GhwStream.I64RoundTrip | ghw/libghw.c:193-209 | A 64-bit number is read back if and only if bit 31 is clear or it is a negative number of 32 bits. |
| GhwStream.I64Example | ghw/libghw.c:193-209 | 2**31 is not read back. |
| GhwStrings.StringTable.ReadEntries | ghw/libghw.c:475-519 | The loops over prefix, suffix and prefix length fill memory and table as the recursive definition says; no write passes the end of the area. |
| GhwStrings.StringTable.ReadStr | ghw/libghw.c:440-531 | The whole section: header, entries and end mark, with every way to fail. |
| GhwStrings.TableRoundTrip | ghw/libghw.c:475-519 | From the front-coded form of any strings, anywhere in a stream, exactly these strings are stored, or the program exits for lack of room. |
| GhwStrings.SectionRoundTrip | ghw/libghw.c:440-531 | Exactly the encoded strings with their NULs and offsets are stored if and only if they fit the area that is allocated; otherwise the program exits. |
| GhwStrings.EnoughRoom | ghw/libghw.c:463-466 | They fit when str_size covers the sum of the lengths and the 32-bit sum for the area does not wrap. |
| GhwStrings.AllocExample | ghw/libghw.c:463-466 | A section with one string whose declared size makes the 32-bit sum wrap: one byte is allocated for two, and the program exits. |
| GhwStrings.ImageAt | ghw/libghw.c:475-519 | Entry i + 1 points to string i and its NUL, and the strings do not overlap. |
| GhwTypes.LengthIsCount | ghw/libghw.c:593-622 | The length of a range, in either direction and null or not, is the number of its indexes. |
| GhwTypes.ExtentIsCount | ghw/libghw.c:652-658 | The product of the lengths is the number of tuples with one index for each dimension. |
| GhwTypes.AddGood | ghw/libghw.c:326-336 | A table whose types refer to earlier ones only, and whose counts are right, stays so with every type that is right itself. |
| GhwTypes.AddArray | ghw/libghw.c:635-672 | Length product times element count is the number of leaves of an array, which are those of the element once for each index tuple. |
| GhwTypes.AddRecord | ghw/libghw.c:674-719 | The sum of the field counts is the number of leaves of a record, and -1 if and only if a field lacks bounds. |
| GhwTypeReader.CountsRead | ghw/libghw.c:561-591 | In a table read from any bytes get_nbr_elements of every entry is the number of its leaves, and -1 exactly for entries that lack bounds somewhere inside. |
| GhwTypeReader.ArraySubtypeAt | ghw/libghw.c:635-672 | What is read keeps the table good; the new type is an array subtype with all its bounds. |
| GhwTypeReader.RecordSubtypeAt | ghw/libghw.c:674-719 | What is read keeps the table good; the new type is a record subtype with all its bounds. |
| GhwTypeReader.EntriesAt | ghw/libghw.c:760-1003 | Every table that is read is well-founded with right counts, whatever the bytes are. |
| GhwTypeReader.TypeTable.ReadRange | ghw/libghw.c:349-438 | The reader agrees with the definition: kind, direction and both limits in order, and exits on everything else. |
| GhwTypeReader.TypeTable.ReadArraySubtype | ghw/libghw.c:635-672 | The reader, its product of lengths and its recursion agree with the definition on every stream. |
| GhwTypeReader.TypeTable.ReadBoundFields | ghw/libghw.c:690-717 | The loop over the fields and its running sum agree with the definition. |
| GhwTypeReader.TypeTable.ReadTypeBounds | ghw/libghw.c:723-741 | The reader for bounds agrees with the definition, by the kind of the type. |
| GhwTypeReader.TypeTable.ReadFields | ghw/libghw.c:938-953 | The fields of a record type are read in order and their running count is that of the fields. |
| GhwTypeReader.TypeTable.ReadEntry | ghw/libghw.c:769-1002 | One entry of any kind is read as the definition says. |
| GhwTypeReader.TypeTable.ReadType | ghw/libghw.c:743-1007 | The whole section is read as the definition says, and the table stays good even when reading fails. |
| GhwTypeFormat.RangeIs | ghw/libghw.c:349-438 | Every range of bytes, integers or doubles is read back from its encoding. |
| GhwTypeFormat.ElementIs | ghw/libghw.c:635-741 | Nested bounds of any shape are read back: the type that is built has exactly this shape. |
| GhwTypeBounds.BoundsCanBeRead | ghw/libghw.c:635-741 | Some stream holds bounds for a type if and only if what lacks bounds in it, at any depth, is an array, a record type or an unbounded subtype of an array. |
| GhwTypeBounds.UnreadableExample | ghw/libghw.c:723-741 | A good table with an array type over an unbounded record subtype: no stream holds bounds for it, and after a range the reader is outside its structure. |
| GhwTypeDefs.BoundedIs | ghw/libghw.c:561-591 | Which types have a count is determined by the definitions alone. |
| GhwTypeDefs.EntryIs | ghw/libghw.c:769-1002 | From the encoding of a valid definition of any kind the type that it defines is built. |
| GhwTypeDefs.TypesRoundTrip | ghw/libghw.c:743-1007 | From the encoding of any list of valid definitions, in any version of the format and anywhere in a stream, exactly the types they define are built, and exactly the encoding is consumed. |
| GhwSignals.Signals.ReadSignal | ghw/libghw.c:1051-1122 | The recursion over any bounded type ends, reads one id for each leaf in stream order and stores them at consecutive places, nothing else; types of signals are set when first met. |
| GhwSignals.Signals.ReadElements | ghw/libghw.c:1072-1085 | The loop over an array reads the leaves of all elements; a stride of 0 comes with length 0. |
| GhwSignals.Signals.ReadFields | ghw/libghw.c:1086-1117 | The loop over a record reads the leaves of all fields, each at its offset. |
| GhwSignals.ReadConcat | ghw/libghw.c:1051-1122 | Reading the leaves in two parts is reading them all. |
| GhwHierarchy.Attach | ghw/libghw.c:1251-1258 | Linking an element into the slot behind `last` keeps all pointers right: that slot was the null tail of the current scope's children. |
| GhwHierarchy.LastOf | ghw/libghw.c:1234-1249 | After an end of scope `last` is again the null tail of the children of the scope around. |
| GhwHierarchy.Walk | ghw/libghw.c:1449-1537 | The walk without a stack ends, visits every element once in stream order, and its indentation is the depth; it aborts at the first element of a kind it does not display, such as a generic, and only there. |
| GhwHierarchy.Climb | ghw/libghw.c:1527-1534 | Climbing ends at the next element in stream order, at its depth, or past the root after the last one. |
| GhwHieReader.ReadInfo | ghw/libghw.c:1260-1333 | Name, iterator or signal of one element are read as the definition says, with the end for each way to fail; the array of a signal holds its ids and a final 0. |
| GhwHieReader.ReadElements | ghw/libghw.c:1206-1334 | On every byte stream the elements are those of the definition, where only an element of kind 3 to 7 or 14 has others inside it, and parent, child and brother pointers of all that were linked are those of their nesting; when it fails or exits. |
| GhwHieReader.ReadHie | ghw/libghw.c:1181-1351 | The whole section: header, elements, and whether every basic signal has a type. |
| GhwHieReader.HieTyped | ghw/libghw.c:1051-1334 | Whatever the bytes are, every signal names one basic signal for each leaf of its type, and a basic signal has the base type of the first leaf that names it, or none. |
| GhwHieFormat.InfoIs | ghw/libghw.c:1260-1333 | Every name, iterator value and list of ids is read back from its encoding. |
| GhwHieFormat.HieIs | ghw/libghw.c:1181-1334 | From the encoding of any forest whose scopes are of kinds 3 to 7 and 14 and whose leaves are of kinds 13 and 16 to 21, anywhere in a stream, exactly its elements are read in preorder, and exactly the encoding is consumed. |
| GhwHieFormat.ItemsInjective | ghw/libghw.c:1206-1334 | The elements with their depths determine the forest. |
| GhwHieFormat.RoundTrip | ghw/libghw.c:1181-1537 | Any such forest, written as bytes, read and walked, gives its elements in preorder with their depths, each in a node of its own, unless it holds a generic, kind 14. |
| GhwCache.HasNoNulls | ghw/libghw.c:1336-1349 | The flag says exactly whether every signal but 0 has a type. |
| GhwCache.BuildCache | ghw/libghw.c:1670-1681 | Entry p of the cache is the p-th signal with a type, and 0 beyond the last. |
| GhwCache.CacheIsWalk | ghw/libghw.c:1683-1685 | Entry p + d is where walking d signals with a type leads from entry p. |
| GhwCache.SelectIsWalk | ghw/libghw.c:1659-1689 | A step of either path selects the signal that the walk finds, or rejects the delta with it, if and only if the index does not wrap past 0 or run out of the cache. |
| GhwCache.WrapExample | ghw/libghw.c:1660-1666 | A delta that wraps and selects an earlier signal, where the walk finds none. |
| GhwValues.ReadValue | ghw/libghw.c:1124-1179 | A value is read by the kind of its base type as the definition says; other kinds exit. |
| GhwValues.ValueIs | ghw/libghw.c:1124-1179 | Every value of every kind is read back from its encoding. |
| GhwWaves.CacheRefinesWalk | ghw/libghw.c:1637-1706 | A whole cycle read through the fast path or the cache is the cycle that walks, when all its deltas are in reach. |
| GhwWaves.WalkOrdered | ghw/libghw.c:1637-1706 | Such a cycle changes signals with types only, in strictly increasing order. |
| GhwWaves.Sm | ghw/libghw.c:1981-2031 | On every stream a positive result is 1 and the next call starts at a section, or 2 and the next call goes on in the cycles; no other positive code is returned. |
| GhwWaves.StepsDump | ghw/libghw.c:1931-2104 | On every byte stream and from every state, calling ghw_read_sm until it returns no positive result makes the same updates of signals and times in the same order, consumes the same bytes and ends the same way as ghw_read_dump, end of file being -2 for one and 0 for the other. |
| GhwWaveFormat.ChangesAre | ghw/libghw.c:1637-1706 | From the encoding of any changes in increasing order exactly these signals get exactly these values, with or without signals that lack a type. |
| GhwWaveFormat.TicksAre | ghw/libghw.c:2033-2060 | From the encoding of any further cycles exactly their times and changes are played back, and exactly the encoding is consumed. |
| GhwDumpFormat.SnapshotIs | ghw/libghw.c:1587-1621 | From the encoding of a snapshot its time is set and every signal with a type gets its value. |
| GhwDumpFormat.DirectoryIs | ghw/libghw.c:1880-1913 | A directory of any size is skipped and changes nothing. |
| GhwDumpFormat.DumpIs | ghw/libghw.c:2062-2104 | From the encoding of any snapshots, cycles, directories and tailers up to the end of the file, exactly their times and values are played back in order, and it succeeds. |
| GhwDumpFormat.StepsAre | ghw/libghw.c:1931-2031 | So does calling ghw_read_sm until it returns no positive result. |
| GhwDumpFormat.PartsCalled | ghw/libghw.c:1931-2031 | The successive calls return 1 once for each snapshot and 2 once for a first cycle and for each tick, each having done exactly the events of that snapshot or cycle, and then -2. |
| GhwWaveReader.Waves.ReadSignalValue | ghw/libghw.c:1124-1179 | The value is read by the kind of the signal's base type and stored for this signal only. |
| GhwWaveReader.ReplayLast | ghw/libghw.c:1580-1585 | Every signal holds the value of its last update, or its first value. |
| GhwWaveReader.Waves.ReadSnapshot | ghw/libghw.c:1587-1621 | A snapshot sets the time and then every signal with a type, in order. |
| GhwWaveReader.Waves.FindSignal | ghw/libghw.c:1659-1689 | The signal is that of the definition, whether the cache exists already or is built now. |
| GhwWaveReader.Waves.ReadCycleCont | ghw/libghw.c:1637-1706 | The loop over the deltas of a cycle agrees with the definition on every stream. |
| GhwWaveReader.Waves.ReadDirectory | ghw/libghw.c:1880-1913 | The directory is skipped by its own count and must be ended by its mark. |
| GhwWaveReader.Waves.ReadSmHdr | ghw/libghw.c:1931-1979 | One section, by its mark, with the code for each way to end. |
| GhwWaveReader.Waves.ReadSm | ghw/libghw.c:1981-2031 | One call of the state machine: new state, code and mode are those of the definition; 1 leaves it at a section and 2 in a cycle. |
| GhwWaveReader.Waves.ReadCycle | ghw/libghw.c:2033-2060 | The loop over the cycles of a section agrees with the definition. |
| GhwWaveReader.Waves.ReadDump | ghw/libghw.c:2062-2104 | The loop over all sections agrees with the definition. |

## Left out

- The Python generator itself: text emission, files and the switches for versions of the standard.
- Metavalues in multiplication, division, comparison and `resize`: only `+` and `-` are modelled on nine values.
- Index ranges of VHDL vectors other than `N downto 0`; the subprograms normalise them with aliases.
- Logical operators, `std_match`, `TO_INTEGER` and `TO_01`: finite tables or simple loops.
- VerilogLiteral.NumberToVec: asks for an effective length of at least 1 when there is something to extend; the source underflows otherwise.
- The allocation of `String8` elements and the choice of base 16 for hexadecimal literals.
- Invalidation.Workspace.ObsoleteDoc: source positions of invalidated units, the freeing of units and `Purge_Design_File` are not modelled; libraries, files and units are lists of numbers.
- Pointers between GHW types are positions in the order of completion, and strings are ids, not addresses.
- C integer overflow in counts, range lengths and accumulated times: they are mathematical integers. Shifts by the width or more are outside the model's defined results, as in C.
- GhwStream.ReadUleb128: the group at bit 28 is shifted as a C int, which is undefined when it is 8 or more; the model drops the bits above 31.
- GhwStream.ReadSleb128: likewise for the group at bit 28 in 32 bits and the one at bit 63 in 64 bits, when it reaches the sign bit.
- GhwTypeReader.TypeTable.ReadType: well-known types (`ghw_read_wk_types`) are not modelled.
- GhwTypeDefs.TypesRoundTrip: a definition is not valid when it asks for bounds that no stream holds, which `GhwTypeBounds.BoundsCanBeRead` delimits.
- GhwHieReader.ReadElements: an element is linked once it has been read, while the source links it first, so a node that is only partly filled when reading fails is not there.
- GhwHieFormat.HieIs: a type that is entered more than once is written by its first id.
- In the value sections the type of a basic signal is the kind of its base type; in the hierarchy it is the base type.
- GhwWaves.StepsDump: read errors of the operating system are not modelled; a short read is the end of the file. The optional list of changed signals and the verbose output are left out.
- Floating-point values are kept as eight bytes.
- The handler structure is split into one class for each section.
- Opening, decompressing and displaying wave files, and the headers before the sections.
