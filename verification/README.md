# Verified models of five LLVM subprojects

These files model the most intricate data structures and algorithms of the repository
in Dafny and prove what they promise. `dafny verify dfyconfig.toml` checks everything.

- **Constant reinterpretation** (dragonegg). `Bits`, `Ranges`, `BitSlices`: integers
  placed over bit ranges in either byte order. `StructLayouts`, `DataLayouts`,
  `Constants`: types, their layout, and the memory image of a constant.
  `ConstantConversion` views a constant as bits, `Interpretation` reads it back as
  another type and shows that this is storing and loading; it also has the register
  round trip. `Joining` pastes pieces of constants together, `FieldContents` restricts
  a constant to a range, `RecordConstants` assembles an initializer, and
  `RecordInitializers` puts them together with the interval list.
- **Record layout** (dragonegg). `IntervalLists` keeps overlapping fields apart;
  `ElementPlacement` places elements and padding; `RecordTypes` converts a record.
- **Type conversion** (dragonegg). `Graphs`, `TypeGraphs`, `TypeConversion`: a cyclic
  type graph is converted component by component, with cycles cut at pointers;
  `RecordBodies` is about the structs that records become.
- **Alias tags** (dragonegg). `AliasSpec` specifies how leaves are learnt query by
  query; `Aliasing` is the code with its cache, list of leaves and tagged instructions.
- **Iterator debug database** (libcxx). `DebugTables` is a chained hash table with
  hand-made links; `DebugNodes` and `DebugGraphs` are nodes that point at each other;
  `DebugSpec` is the state as two maps; `DebugDb` proves the heap structure against it.
- **Next prime** (libcxx). `Primes` and `NextPrimes`: the wheel modulo 210.
- **Futures** (libcxx), sections 30.6.4, 30.6.5 and 30.6.7 of ISO/IEC 14882:2011.
  `SharedSpec` is what one locked step does to a shared state, `SharedStates` the
  objects that do it, `FutureProtocol` all interleavings of such steps.
- **Delta debugging** (clang). `TokenDelta`.
- **clang-tidy**. `GlobLists` and `TidyOptions`: filters of checks, merging, and the
  cache of configurations. `DiagnosticSpec` and `Diagnostics`: the stream of
  diagnostics against what it comes to as a whole, which `DiagnosticLaws` spells out.

Objects that the programs update in place are classes here, whose methods are proved
against functions on values; the properties are lemmas about these functions. Lists
that stand for C++ vectors are sequences held in fields. Machine integers are unbounded
except where stated; clocks, files, regular expressions and memory exhaustion are left
out or are parameters.

Where code and comments disagree the model follows the code, and says exactly when the
comment holds:

- the shortcut of InterpretAsType for equal types ignores its offset, which
  `ShiftedDisagrees` shows to matter and `InBoundsUnshifted` to be harmless within bounds;
- for the same reason extractContents may misplace bits: `ExtractionExact` has the
  condition, `ShortIntegersDisplaced` what it means for bit-fields, and
  `ShiftedByteIsNotMoved` an input; from end to end, `AloneArrives` and `AloneIsLost`
  say which values of fields arrive in the initializer, with the input in
  `ShiftedByteIsLost`;
- the assertion that ends RepresentAsMemory fails for an undefined register narrower than
  its mode: `RegisterRoundTrip`, with the input in `UndefinedBooleanIsZero`;
- joining pieces of constants may lose bits, as a comment suspects of big-endian machines:
  `JoinExact` has the condition, `JoinedOnBigEndian` an input;
- an array type may end up with another size than it should: `ArraySizeExact`;
- the comment at the end of ConvertType holds only if all types that need converting can
  be reached by way of such types: `ConvertType`, with the input in `CompletedLater`;
- a null exception leaves a future ready without an outcome: `NextInv`, with the inputs in
  `NullException` and `NullExceptionAtExit`.

## Model

| member | source | states |
|---|---|---|
| BitSlices.ExtendRange | dragonegg/src/ConstantConversion.cpp:164-194 | the wider slice has the bit of the old slice at every position, and zeros elsewhere, for both byte orders |
| BitSlices.ReduceRange | dragonegg/src/ConstantConversion.cpp:239-267 | the narrower slice has the bit of the old slice at every position that remains, and nothing outside |
| BitSlices.GetBits | dragonegg/src/ConstantConversion.cpp:196-213 | the integer returned has the width asked for, the slice's bit at every position the two ranges share, and zeros elsewhere; an empty slice gives an undefined value |
| BitSlices.Merge | dragonegg/src/ConstantConversion.cpp:215-237 | for disjoint slices, the union of their bits over the hull of their ranges |
| ConstantConversion.ViewAsBits | dragonegg/src/ConstantConversion.cpp:269-370 | whatever the type, every defined bit of the constant's memory image that lies in the range is at its place in the slice, every one in the slice is in the image, and the slice stays within the constant |
| ConstantConversion.ArrayWindow | dragonegg/src/ConstantConversion.cpp:315-340 | the element indices computed by division are exactly those of the elements that overlap the range |
| ConstantConversion.StructWindow | dragonegg/src/ConstantConversion.cpp:342-370 | no field outside the computed window overlaps the range |
| StructLayouts.ElementContainingOffset | llvm/lib/IR/DataLayout.cpp:72-90 | the field found starts at or before the offset and the next one starts after it |
| StructLayouts.OffsetsOrdered | llvm/lib/IR/DataLayout.cpp:40-70 | fields laid out in a struct do not overlap, and all lie within its size |
| Constants.ImageOfElement | dragonegg/src/ConstantConversion.cpp:402-406 | the memory image of an aggregate is that of its elements at their offsets: the store half of store-then-load |
| Interpretation.InterpretAsType | dragonegg/src/ConstantConversion.cpp:402-499 | for any constant, type and position: if no component of the requested type is the constant's own type at a shifted position, the result agrees on all defined bits with loading the requested type from the stored constant |
| Interpretation.InterpretedLoads | dragonegg/src/ConstantConversion.cpp:402-499 | joint induction over both types: reinterpretation agrees with whatever part of the stored constant is known, unless the shortcut for equal types is taken at an offset at which the constant lies over known bits |
| Interpretation.InBoundsUnshifted | dragonegg/src/ConstantConversion.cpp:402-411 | a load that lies within the constant never takes the shortcut at a wrong offset |
| Interpretation.ShiftedDisagrees | dragonegg/src/ConstantConversion.cpp:410-411 | conversely, whenever the shortcut applies at an offset at which the type overlaps itself, there is a constant for which the result differs from what a load would give |
| Interpretation.RegisterRoundTrip | dragonegg/src/ConstantConversion.cpp:594-674 | for any register constant, defined or not, any precision up to the mode size, signed or unsigned and either byte order, extracting a register from the memory representation, even from a byte array, gives the constant back iff it is defined or fills its mode; else it gives zero |
| Interpretation.ExtractRegisterFromConstant | dragonegg/src/ConstantConversion.cpp:507-529 | integral registers: the result has the register's type and is the mode-sized integer found at the byte offset, truncated to the precision |
| Interpretation.RegisterRead | dragonegg/src/ConstantConversion.cpp:507-529 | bit for bit: the register has the bits that memory has from the given byte on, at their places in a mode-sized integer of either byte order, wherever the shortcut is not taken at a shifted position |
| Interpretation.RepresentAsMemory | dragonegg/src/ConstantConversion.cpp:594-674 | the mode-sized integer found in memory afterwards has the value's bits below the precision, and above it zeros if the type is unsigned, the sign bit if it is signed; the assertion at the end of the function holds iff the register constant is defined or fills its mode |
| Interpretation.StoredWidened | dragonegg/src/ConstantConversion.cpp:594-674 | so bit by bit for whatever constant the memory type is given, bytes included: an unsigned true is stored as one, a negative number of five bits with its sign |
| Interpretation.ExtendedBits | dragonegg/src/ConstantConversion.cpp:606-619 | which way the register is widened: zeros above an unsigned value, copies of the highest bit above a signed one |
| Interpretation.UndefinedBooleanIsZero | dragonegg/src/ConstantConversion.cpp:614-618 | an input for which the assertion fails: an undefined boolean held in a byte is extended to zero, as constant folding does, and comes back as zero |
| Interpretation.BytesDense | dragonegg/src/ConstantConversion.cpp:664-674 | an array of bytes has a data bit everywhere, so that it may stand for an integer in memory |
| FieldContents.FieldContents.ExtractContents | dragonegg/src/ConstantConversion.cpp:1063-1095 | the branches taken; what is returned is safe to use and no wider than its range, and holds every defined bit of the range if the constant, rounded to bytes, has nowhere the type of the bytes asked for while lying shifted over its own bits |
| FieldContents.ExtractionExact | dragonegg/src/ConstantConversion.cpp:1058-1095 | for each type, start and range: every defined bit in the range is returned for all constants of the type iff no byte of the range, nor the range as a whole, has the type of the rounded constant at a shift other than zero at which known bits are overlaid |
| FieldContents.ExtractionFails | dragonegg/src/ConstantConversion.cpp:1073-1092 | the failing constant: a single set bit that is found elsewhere |
| FieldContents.ShortIntegersDisplaced | dragonegg/src/ConstantConversion.cpp:1073-1092 | on little-endian machines an integer within the range is misplaced, for some value, iff it has at most eight bits and does not begin on a byte boundary |
| FieldContents.InBoundsUndisplaced | dragonegg/src/ConstantConversion.cpp:1088-1092 | a range within a constant of whole bytes is never misplaced |
| FieldContents.ShiftedByteIsNotMoved | dragonegg/src/ConstantConversion.cpp:1089-1095 | the exception on the object itself, for either byte order: a byte that starts three bits into the range is handed back unmoved, with a zero where its first bit should be |
| FieldContents.FieldContents.GetAsBits | dragonegg/src/ConstantConversion.cpp:1001-1006 | the range's bits as an integer of exactly its width, or nothing for an empty range |
| FieldContents.FieldContents.JoinWith | dragonegg/src/ConstantConversion.cpp:1108-1123 | the hull of the ranges, holding the integer Joining.JoinedWith, given bit by bit by what is read of each piece; an empty piece changes nothing |
| Joining.MergedIsJoined | dragonegg/src/ConstantConversion.cpp:1115-1121 | pasting the pieces' bits together computes exactly that integer, in both byte orders |
| Joining.AsBitsReads | dragonegg/src/ConstantConversion.cpp:1001-1006 | where the bits of a piece are really read: off by the unused bits of its bytes on big-endian machines, and by the distance from its start if the constant is an integer of the range's own width already |
| Joining.JoinExact | dragonegg/src/ConstantConversion.cpp:1105-1123 | in both byte orders, for any two types, starts and disjoint ranges: joining keeps every defined bit of both pieces, for all constants of the types, iff wherever the types have a bit in their range the two displacements (of reading the piece, and of the integer over the hull) cancel without leaving the range |
| Joining.RestoredLittleEndian | dragonegg/src/ConstantConversion.cpp:1105-1123 | on little-endian machines that condition means: no integer of exactly its range's width starts elsewhere, unless it has no bit in the range |
| Joining.RestoredBigEndian | dragonegg/src/ConstantConversion.cpp:1105-1127 | on big-endian machines whole bytes are safe with the same proviso |
| FieldContents.JoinedOnBigEndian | dragonegg/src/ConstantConversion.cpp:1126-1127 | an input that fails the condition, on the objects: three bits joined with five lose the bit that is set, as the comment in the code suspects |
| FieldContents.DataUndisplaced | dragonegg/src/ConstantConversion.cpp:1058-1095 | a range in which every bit is one of the constant's is extracted without loss |
| FieldContents.MisreadBits | dragonegg/src/ConstantConversion.cpp:1088-1092 | what extraction returns for a constant that starts within a byte and is taken for the bytes: the constant's own bits, counted from the start of the range or of each byte |
| RecordInitializers.AddInits | dragonegg/src/ConstantConversion.cpp:1195-1225 | after all values were added, every bit belongs to the last value that has it, and a value that is not overwritten is an interval of its own |
| RecordInitializers.LastDecides | dragonegg/src/ConstantConversion.cpp:1195-1225 | a bit that several fields have is decided by the last of their values, and one that no field has by none |
| RecordInitializers.LayOut | dragonegg/src/ConstantConversion.cpp:1125-1229 | pieces on byte boundaries that cover exactly the bytes in which some value has a bit; a value alone in its bytes is a piece of its own; on little-endian machines every bit that a value defines and no later one overwrites is still there |
| RecordInitializers.ConvertRecordConstructor | dragonegg/src/ConstantConversion.cpp:1125-1322 | end to end from the list of values: if they define all bits of all bytes that they touch, every bit arrives (little-endian); a value alone in its bytes arrives (both byte orders) unless it starts within a byte and its type, rounded to bytes, is a byte or exactly the bytes of its field; padding is zero or undefined as asked; size and alignment are right |
| RecordInitializers.AllArrive | dragonegg/src/ConstantConversion.cpp:1125-1322 | where every touched byte is defined throughout, nothing is lost, whatever is joined |
| RecordInitializers.AloneArrives | dragonegg/src/ConstantConversion.cpp:1125-1322 | both byte orders: a value alone in its bytes arrives, all of it, unless it is misread |
| RecordInitializers.AloneIsLost | dragonegg/src/ConstantConversion.cpp:1125-1322 | conversely: if it is misread and its type has any bit in the field, there is a value of the type that no conversion delivers |
| RecordInitializers.ShiftedByteIsLost | dragonegg/src/ConstantConversion.cpp:1125-1322 | the failing input run end to end: a byte with one set bit as the value of a field of five bits at bit 3 comes out as zero there |
| RecordConstants.BuildInitializer | dragonegg/src/ConstantConversion.cpp:1231-1322 | the initializer stores every defined bit of every field at the field's position and no other ones, its padding is zero if that is asked for and else undefined, it is at least as big as the type, and is not over-aligned |
| IntervalLists.IntervalList.AddInterval | dragonegg/include/dragonegg/ADT/IntervalList.h:90-157 | the new interval owns its positions, all other positions keep their owner, and the list stays sorted and disjoint |
| IntervalLists.IntervalList.AlignBoundaries | dragonegg/include/dragonegg/ADT/IntervalList.h:159-213 | afterwards all boundaries are aligned, exactly the units that some interval touched are covered, what was said about a covered position is kept as far as joining keeps it, intervals that were aligned survive, and an interval alone in its units is just extended to their boundaries |
| ElementPlacement.NeedsPacking | dragonegg/src/TypeConversion.cpp:1163-1179 | a packed struct is used iff some element is more aligned than allowed or would be moved by its alignment |
| ElementPlacement.PlaceElements | dragonegg/src/TypeConversion.cpp:1181-1217 | each element is put exactly at its offset, with padding only where alignment does not already make the gap |
| ElementPlacement.BuildStruct | dragonegg/src/TypeConversion.cpp:1163-1226 | offsets and size are exact and the struct is never over-aligned, packed or not |
| ElementPlacement.SizeExact | dragonegg/src/TypeConversion.cpp:1219-1226 | a size that is a multiple of the alignment is not changed by the rounding that struct layout applies |
| ElementPlacement.AlignmentBounded | dragonegg/src/TypeConversion.cpp:1163-1179 | the alignment of the emitted struct is a power of two within the bound |
| RecordTypes.ExtractContents | dragonegg/src/TypeConversion.cpp:1028-1066 | the extracted type is never wider than its range, and covers every bit of the range that the contents define |
| RecordTypes.ExtractedAs | dragonegg/src/TypeConversion.cpp:1028-1066 | which type that is: the contents' own where it has whole bytes, starts with the range and fits; an integer rounded up to whole bytes where that does; else the bytes of the range |
| RecordTypes.LayOutFields | dragonegg/src/TypeConversion.cpp:1096-1161 | from arbitrary, overlapping fields: the layout covers exactly the bytes in which some field has bits, goes on defining every bit that the field it belongs to defines, has contents from fields or joined integers, and keeps an aligned field on its own |
| RecordTypes.FirstDecides | dragonegg/src/TypeConversion.cpp:1109-1150 | of overlapping fields the first declared decides about a bit, and no field beyond the end of the type |
| RecordTypes.ConvertRecord | dragonegg/src/TypeConversion.cpp:1089-1232 | the emitted struct realizes that layout at exactly its offsets, with exactly the size of the record and no more alignment |
| RecordTypes.FieldAtItsOffset | dragonegg/src/TypeConversion.cpp:1089-1232 | a byte-aligned field that overlaps no other is an element of its own type at its own offset |
| RecordTypes.ElementsAreFields | dragonegg/src/TypeConversion.cpp:1181-1217 | conversely every element is a single integer, or bytes, or the type of some field at the field's own offset |
| RecordTypes.DefinedBitsCovered | dragonegg/src/TypeConversion.cpp:1028-1032 | every bit that the field it belongs to defines lies within an element of the struct that is not padding |
| DebugTables.Table.Find | libcxx/src/debug.cpp:540-558 | looking a key up in the chained table is looking it up in the map that the table stands for |
| DebugTables.Table.Insert | libcxx/src/debug.cpp:144-190 | the table stands for the map with the entry added; chains stay acyclic, duplicate-free and in the right buckets, and entries never outnumber buckets |
| DebugTables.Table.Remove | libcxx/src/debug.cpp:309-344 | the table stands for the map with the entry removed, and the count with it |
| DebugTables.Table.Grow | libcxx/src/debug.cpp:150-175 | rehashing keeps the map and makes room |
| DebugTables.Table.MoveOne | libcxx/src/debug.cpp:162-169 | moving one link to its new bucket keeps both the links still to be moved and the new chains intact |
| DebugTables.RemovedRepresents | libcxx/src/debug.cpp:323-328 | taking one link out of its chain removes exactly its key, once |
| DebugTables.PushedRepresents | libcxx/src/debug.cpp:175-188 | pushing a link on the chain of its hash adds exactly its key |
| DebugNodes.CNode.Add | libcxx/src/debug.cpp:467-491 | appends to the list of iterators, growing the array by doubling |
| DebugNodes.CNode.Remove | libcxx/src/debug.cpp:560-568 | takes the first occurrence out and keeps the order of the others |
| DebugGraphs.Changed | libcxx/src/debug.cpp:121-491 | one step of linking: if the touched nodes represent the new state and all others the old one where they agree, the whole structure represents the new state |
| DebugGraphs.Part | libcxx/src/debug.cpp:208-222 | unlinking an iterator does what the specification says to both directions of the link |
| DebugGraphs.Exchange | libcxx/src/debug.cpp:427-456 | exchanging the lists of two containers, possibly the same, redirects exactly the iterators listed in them |
| DebugSpec.StepStillTwoWay | libcxx/src/debug.cpp:121-491 | every operation keeps the two-way link: a container lists an iterator, once, iff the iterator points to it, and pointers are to registered containers |
| DebugSpec.StepRefines | libcxx/src/debug.cpp:121-491 | forgetting the lists, every operation is the obvious one on pointers alone: the lists are exactly an index |
| DebugSpec.RunRefines | libcxx/src/debug.cpp:121-491 | both hold over every run of operations |
| DebugSpec.NoDanglingPointers | libcxx/src/debug.cpp:121-491 | after any run from the empty database an iterator points to nothing or to a registered container that lists it exactly once |
| DebugSpec.SwapTwice | libcxx/src/debug.cpp:427-456 | swapping twice restores the whole state |
| DebugSpec.InsertThenErase | libcxx/src/debug.cpp:121-223 | erasing an iterator just inserted restores the whole state |
| DebugSpec.CopyComparable | libcxx/src/debug.cpp:346-425 | a copied iterator can be compared with its original iff the original has a container |
| DebugSpec.ComparableMeans | libcxx/src/debug.cpp:414-425 | having the same owner is being listed by a common container |
| DebugDb.Db.FindCFromI | libcxx/src/debug.cpp:110-119 | the container of a registered iterator, if it has one |
| DebugDb.Db.InsertIC | libcxx/src/debug.cpp:121-142 | the heap structure goes to the specified state; nothing happens if the container is not registered |
| DebugDb.Db.InsertC | libcxx/src/debug.cpp:144-190 | likewise for registering a container |
| DebugDb.Db.EraseI | libcxx/src/debug.cpp:192-223 | likewise for erasing an iterator |
| DebugDb.Db.InvalidateAll | libcxx/src/debug.cpp:225-249 | likewise for detaching all iterators of a container |
| DebugDb.Db.EraseC | libcxx/src/debug.cpp:309-344 | likewise for erasing a container |
| DebugDb.Db.IteratorCopy | libcxx/src/debug.cpp:346-372 | likewise for copying, in all combinations of registered and unregistered, attached and detached |
| DebugDb.Db.LessThanComparable | libcxx/src/debug.cpp:414-425 | true iff some container lists both iterators, found by comparing node pointers |
| DebugDb.Db.Swap | libcxx/src/debug.cpp:427-456 | likewise for swapping, including a container with itself |
| Primes.TrialDivision | libcxx/src/hash.cpp:199-225 | a number without a divisor up to its square root is prime |
| Primes.PrimeAbove | libcxx/src/hash.cpp:178-190 | there is always a next prime, which bounds the search |
| NextPrimes.WheelStepMeans | libcxx/src/hash.cpp:76-129 | neighbouring table entries are neighbouring numbers coprime to 210, and the unrolled increments lead from one to the next |
| NextPrimes.NextOnWheel | libcxx/src/hash.cpp:558-566 | stepping the index, with wrap-around, visits exactly the next number coprime to 210 |
| NextPrimes.OffWheelNotPrime | libcxx/src/hash.cpp:178-215 | the numbers the wheel skips are composite |
| NextPrimes.TryWheel | libcxx/src/hash.cpp:213-557 | the unrolled division loop decides primality exactly, and never tries beyond the candidate |
| NextPrimes.NextPrime | libcxx/src/hash.cpp:133-568 | zero for zero, else the least prime at or after the argument; refused exactly above the limit; the search terminates |
| NextPrimes.WithinLimit | libcxx/src/hash.cpp:153-176 | if the limit is prime the result does not exceed it, so that nothing wraps around |
| Graphs.BottomUpExists | dragonegg/src/TypeConversion.cpp:1594-1608 | every finite graph has its components in bottom-up order, as the conversion requires of the search |
| Graphs.RankFalls | dragonegg/src/TypeConversion.cpp:1640-1644 | when all cycles pass through pointers, the number of types below falls along every other edge |
| TypeConversion.BothInComponent | dragonegg/src/TypeConversion.cpp:912-926 | the comment in the code, from the order of components alone: a pointer and its pointee are both in the component iff it has several types or the pointer points to itself |
| TypeConversion.OnlyPart | dragonegg/src/TypeConversion.cpp:917-925 | in a larger component a type that contains a single type has it in the component |
| TypeConversion.ComponentReady | dragonegg/src/TypeConversion.cpp:1575-1655 | when its turn comes, whatever a component contains and needs care is in the component: recursion never leaves it |
| TypeConversion.Converter.PlaceholderFor | dragonegg/src/TypeConversion.cpp:931-959 | drilling through arrays stays in the component; the result is the registered struct of the record they ultimately contain, or else the empty struct |
| TypeGraphs.PointerToRecord | dragonegg/src/TypeConversion.cpp:931-959 | a pointer to a record goes to that record's own struct, wherever it stands and whenever it was made |
| TypeConversion.Converter.ConvertPointerTypeRecursive | dragonegg/src/TypeConversion.cpp:912-962 | a pointee outside the component is converted, and void becomes a byte; for one inside, the pointer goes to its placeholder |
| TypeConversion.Converter.ConvertFunctionType | dragonegg/src/TypeConversion.cpp:834-850 | the return type and all arguments in order, or no arguments iff one of them is an incomplete record passed by value |
| TypeConversion.Converter.ConvertTypeRecursive | dragonegg/src/TypeConversion.cpp:1325-1375 | terminates; is entered only for members of the component in progress; afterwards the type needs no more care and its LLVM type has the shape of the GCC type |
| TypeConversion.Converter.ConvertArrayTypeRecursive | dragonegg/src/TypeConversion.cpp:504-534 | an array of the converted elements, without elements if its length is variable; in a packed struct if it is less aligned than its elements, and followed by the bytes that are missing |
| TypeGraphs.ArraySizeExact | dragonegg/src/TypeConversion.cpp:518-531 | the result has the size of the array iff the elements take up no more than that and it is a multiple of their alignment; the subtraction wraps around |
| TypeGraphs.ArrayAlignment | dragonegg/src/TypeConversion.cpp:504-534 | an array is aligned like its elements, or not at all if it was less aligned than they are |
| TypeConversion.Converter.ConvertRecordTypeRecursive | dragonegg/src/TypeConversion.cpp:1089-1232 | converts the fields last to first within the component, lays them out by offset, and gives the placeholder, which is still opaque, its body |
| TypeConversion.Converter.BodyOf | dragonegg/src/TypeConversion.cpp:1110-1232 | the body is a struct for the record as record layout makes it, with the conversions of the fields' types for its elements |
| RecordBodies.BodySize | dragonegg/src/TypeConversion.cpp:1219-1226 | a body in the registry has exactly the record's size and no more than its alignment |
| RecordBodies.ElementsRepresent | dragonegg/src/TypeConversion.cpp:1181-1217 | every element of a body is a single integer, or bytes, or represents the type of some field and is at the field's offset |
| RecordBodies.FieldRepresented | dragonegg/src/TypeConversion.cpp:1126-1217 | a byte-aligned field that overlaps no other, and whose LLVM type fits it, has such an element |
| RecordBodies.AggregateRepresented | dragonegg/src/TypeConversion.cpp:1126-1217 | for a field that was converted to a struct, an array or a pair it is enough that it fits |
| TypeConversion.Converter.ConvertTypeNonRecursive | dragonegg/src/TypeConversion.cpp:1379-1503 | converts every type that needs no care (no other kind can reach the default case): the obvious LLVM type (for integers, the integer of that size) if its size is right and its alignment not too large, else bytes, so that the size is always right; a byte for an incomplete enumeration, an opaque struct for an incomplete record; nothing else registered changes |
| TypeConversion.Converter.IntegerConverted | dragonegg/src/TypeConversion.cpp:1405-1485 | a registered integer type is the LLVM integer of its size if that has this size and is no more aligned, and bytes otherwise |
| TypeConversion.Converter.ComplexConverted | dragonegg/src/TypeConversion.cpp:1423-1427 | a registered complex type is the pair of what its element became if twice that has its size and the alignment is not too large, and bytes otherwise |
| TypeConversion.Converter.VectorConvertedRight | dragonegg/src/TypeConversion.cpp:1469-1485 | likewise a vector of what its element became |
| TypeGraphs.PairSlot | dragonegg/src/TypeConversion.cpp:1423-1427 | a pair takes up twice its element, equally aligned |
| TypeConversion.Converter.ReplacePointers | dragonegg/src/TypeConversion.cpp:1648-1670 | afterwards every pointer of the component, to pointers included, points to what its pointee is now registered as, or to a byte for void; nothing else registered changes |
| TypeConversion.Converter.ConvertComponent | dragonegg/src/TypeConversion.cpp:1608-1670 | exactly the members of the component stop needing care |
| TypeConversion.Converter.ConvertType | dragonegg/src/TypeConversion.cpp:1575-1677 | exactly the types a search visits are converted; all pointers among them, pointers to pointers included, are precise; no reachable type needs care afterwards iff every one that did could be reached by way of such types, which is so for a settled registry, and that stays settled |
| TypeConversion.AllReachable | dragonegg/src/TypeConversion.cpp:1672-1677 | the comment in the code, for a registry in which no finished type contains an unfinished one |
| TypeConversion.CompletionSettled | dragonegg/src/TypeConversion.cpp:1296-1316 | completing a record keeps the registry settled iff whatever contains the record is still to be converted |
| TypeConversion.CompletedLater | dragonegg/src/TypeConversion.cpp:1248-1254 | replayed: a pointer is converted while its record is incomplete, the record is completed, the pointer is converted again, and the record, which the pointer reaches, still needs converting |
| TypeConversion.NothingConverted | dragonegg/src/TypeConversion.cpp:1255-1319 | before anything is converted the registry is settled |
| TypeConversion.Converter.CompleteRecord | dragonegg/src/TypeConversion.cpp:1296-1312 | a record that is completed later needs care again, whatever was registered for it, and nothing registered becomes wrong |
| TypeConversion.OrderExists | dragonegg/src/TypeConversion.cpp:1594-1608 | the order of components that the conversion asks for always exists |
| AliasSpec.NotRoot | dragonegg/src/Aliasing.cpp:129 | the assertion that a set which is not discarded does not reach the root |
| AliasSpec.QueryValid | dragonegg/src/Aliasing.cpp:80-157 | a query keeps the leaves an antichain, every other known set above a leaf, and the tags of all instructions right; what it does to tags is in TagHistory |
| AliasSpec.Soundness | dragonegg/src/Aliasing.cpp:80-157 | after any run, instructions with different nodes of their own access sets neither of which reaches the other |
| AliasSpec.FinalLeaves | dragonegg/src/Aliasing.cpp:106-156 | after any run the leaves are exactly the minimal queried sets, and of those that reach each other the first queried |
| AliasSpec.OrderIndependence | dragonegg/src/Aliasing.cpp:106-156 | the final leaves do not depend on the order of queries iff no two minimal sets reach each other |
| AliasSpec.LeavesAreMinimal | dragonegg/src/Aliasing.cpp:106-156 | with an antisymmetric relation the final leaves are the minimal sets |
| AliasSpec.TagHistory | dragonegg/src/Aliasing.cpp:131-156 | after any run the tag of an access is its set's node if the set is a leaf still, exactly the root if it was one at the time of the access, and none if it never was: tags are rewritten, not lost or added |
| AliasSpec.FinalTags | dragonegg/src/Aliasing.cpp:80-157 | from the graph alone: an access is tagged iff its set was a first minimal one among those queried up to then, with its own node iff it is so among all |
| Aliasing.AliasTags.DescribeAliasSet | dragonegg/src/Aliasing.cpp:80-157 | the loops over the leaves and the cache do what one query is specified to do |
| Aliasing.AliasTags.EvictLeaves | dragonegg/src/Aliasing.cpp:131-143 | erasing leaves backwards keeps the others in order, and replaces the evicted nodes by the root in every instruction |
| Aliasing.AliasTags.AnnotateAccess | dragonegg/src/Aliasing.cpp:80-157 | a query whose answer is attached to an instruction |
| TokenDelta.WithoutMiddle | clang/utils/token-delta.py:82-93 | a list without one of its pieces, and the piece, are sublists in the original order |
| TokenDelta.MinimalWhenExhausted | clang/utils/token-delta.py:63-80 | when all pieces are single elements and every piece and every complement fails, nothing can be removed |
| TokenDelta.MinimalMeans | clang/utils/token-delta.py:63-80 | 1-minimal means that no sublist with one element less passes |
| TokenDelta.DeltaAlgorithm.GetTestResult | clang/utils/token-delta.py:20-31 | with the cache the answer is still exactly the outcome of the test |
| TokenDelta.DeltaAlgorithm.Split | clang/utils/token-delta.py:48-61 | a partition into two halves, the first rounded down, or one piece if there is nothing to divide |
| TokenDelta.DeltaAlgorithm.Delta | clang/utils/token-delta.py:63-80 | terminates, and returns a 1-minimal sublist that passes unless nothing was removed |
| TokenDelta.DeltaAlgorithm.Search | clang/utils/token-delta.py:82-93 | finds a smaller 1-minimal passing sublist, or shows that every piece and every complement fails |
| TokenDelta.DeltaAlgorithm.Run | clang/utils/token-delta.py:33-46 | refused iff unforced and the test fails; otherwise a 1-minimal sublist that passes, or all changes if forced and they fail |
| SharedStates.AssocSubState.SetValue | libcxx/src/future.cpp:91-102 | the flag bits: refused iff there is a value, else constructed and ready |
| SharedStates.AssocSubState.SetException | libcxx/src/future.cpp:117-129 | refused iff there is a value, which changes nothing; else the exception stored is the one given, and the state is ready |
| SharedStates.AssocSubState.SetValueAtThreadExit | libcxx/src/future.cpp:104-115 | constructed but not ready; the thread takes a reference |
| SharedStates.AssocSubState.SetExceptionAtThreadExit | libcxx/src/future.cpp:131-142 | refused likewise; else the exception stored is the one given, the state is not ready, and the thread takes a reference |
| SharedStates.AssocSubState.ReleaseShared | libcxx/src/memory.cpp:58-67 | frees the state exactly when the count falls to -1 |
| SharedStates.Promise.GetFuture | libcxx/src/future.cpp:194-203 | no state and already retrieved are errors that change nothing; otherwise one reference more, marked as attached |
| SharedStates.Promise.Destroy | libcxx/src/future.cpp:225-235 | stores a broken promise iff there is no value and somebody else holds the state, then releases |
| SharedStates.Future.Get | libcxx/src/future.cpp:211-218 | throws the stored exception, if there is one; the reference is given up whatever the outcome |
| SharedStates.SharedFuture.Assign | libcxx/src/future.cpp:293-302 | moves one reference; assigning from the same state, in particular to itself, changes nothing |
| FutureProtocol.NextInv | libcxx/src/future.cpp:91-302 | any step of any thread keeps the invariant (counts equal handles, ready implies exactly one outcome, at most one promise, no sleeper without a wake-up to come) iff it does not store a null exception in a state without an outcome, at once or at thread exit |
| FutureProtocol.StaysBroken | libcxx/src/future.cpp:91-302 | no later step makes up for a null exception |
| FutureProtocol.RunInv | libcxx/src/future.cpp:91-302 | so over every interleaving the invariant holds in the end iff no step stored a null exception |
| FutureProtocol.SetOnce | libcxx/src/future.cpp:91-142 | over every interleaving at most one attempt to set a state succeeds |
| FutureProtocol.RunLasting | libcxx/src/future.cpp:91-151 | an outcome never changes and ready is never cleared |
| FutureProtocol.ResultsAgree | libcxx/src/future.cpp:153-184 | all that waiting for one state ever gives is the same outcome, and the state is ready |
| FutureProtocol.ResultIsWhatWasSet | libcxx/src/future.cpp:91-184 | over every interleaving, each result got from a state is what the successful attempt stored: a value, or the very exception given, at once or for thread exit, or a broken promise |
| FutureProtocol.ResultWasSet | libcxx/src/future.cpp:91-184 | and there was such an attempt |
| FutureProtocol.ReadyOnlyBy | libcxx/src/future.cpp:91-151 | a state becomes ready only by setting it at once, by breaking its promise, or at the exit of the thread |
| FutureProtocol.SingleFromStart | libcxx/src/future.cpp:104-203 | over every interleaving a state gets at most one future from its promise, and what was set for thread exit is not ready before that |
| FutureProtocol.NeverForgotten | libcxx/src/future.cpp:225-235 | when a promise is gone and a future remains there is an outcome, ready or to be made ready by a thread |
| FutureProtocol.NoLostWakeup | libcxx/src/future.cpp:117-184 | whoever sleeps on a ready state is yet to be notified by somebody who still holds a reference |
| FutureProtocol.Ownership | libcxx/src/future.cpp:194-302 | the count is the number of handles; a state is freed once, when the last one goes, and no handle has a freed state |
| FutureProtocol.BreakSucceeds | libcxx/src/future.cpp:225-233 | the exception stored by the destructor of a promise is never refused, whatever happened since the check |
| FutureProtocol.AssignSame | libcxx/src/future.cpp:293-302 | assignment between handles of one state changes nothing |
| FutureProtocol.NullException | libcxx/src/future.cpp:117-129 | with a null exception a state is ready without an outcome and can be set a second time |
| FutureProtocol.NullExceptionAtExit | libcxx/src/future.cpp:131-142 | so it can with a null exception that is stored for the exit of the thread |
| GlobLists.GlobList.constructor | clang-tools-extra/clang-tidy/ClangTidyDiagnosticConsumer.cpp:124-152 | consuming the text glob by glob builds the list that it denotes |
| GlobLists.ParsedIsWritten | clang-tools-extra/clang-tidy/ClangTidyDiagnosticConsumer.cpp:122-152 | writing down the globs that are read, signs and commas included, gives the list back, but for a comma at its end |
| GlobLists.WrittenParses | clang-tools-extra/clang-tidy/ClangTidyDiagnosticConsumer.cpp:122-152 | reading a list that was written gives its globs |
| GlobLists.MatchesInParts | clang-tools-extra/clang-tidy/ClangTidyDiagnosticConsumer.cpp:131-146 | what a pattern matches is what its parts match one after the other |
| GlobLists.MatchesOne | clang-tools-extra/clang-tidy/ClangTidyDiagnosticConsumer.cpp:131-146 | a star matches every name, any other character itself |
| GlobLists.GlobList.Contains | clang-tools-extra/clang-tidy/ClangTidyDiagnosticConsumer.cpp:154-161 | the recursion over the list decides as specified |
| GlobLists.LastMatchWins | clang-tools-extra/clang-tidy/ClangTidyDiagnosticConsumer.cpp:154-161 | the last glob that matches decides |
| GlobLists.JoinedDecides | clang-tools-extra/clang-tidy/ClangTidyOptions.cpp:118-122 | for every non-empty name the merged list decides as the second list seeded with the answer of the first, whatever empty parts and trailing commas there are |
| TidyOptions.MergedEnables | clang-tools-extra/clang-tidy/ClangTidyOptions.cpp:114-137 | merging options composes their filters of checks |
| TidyOptions.MergedFields | clang-tools-extra/clang-tidy/ClangTidyOptions.cpp:114-137 | field by field: a value that the other options have wins, one that they lack stays; check options win key by key; lists of checks are joined |
| TidyOptions.MergeAssociative | clang-tools-extra/clang-tidy/ClangTidyOptions.cpp:114-137 | merging is associative, but for the spelling of the list of checks |
| TidyOptions.MergeCongruent | clang-tools-extra/clang-tidy/ClangTidyOptions.cpp:114-137 | and cannot tell such spellings apart |
| TidyOptions.MergeAssociatesExactly | clang-tools-extra/clang-tidy/ClangTidyOptions.cpp:114-137 | the two orders of merging give the very same options iff no empty list of checks comes between a non-empty one and another |
| TidyOptions.SpellingsDiffer | clang-tools-extra/clang-tidy/ClangTidyOptions.cpp:118-122 | where the spellings differ, a check with an empty name would be decided differently |
| TidyOptions.FileOptionsProvider.TryReadConfigFile | clang-tools-extra/clang-tidy/ClangTidyOptions.cpp:201-249 | the first usable file of a directory, merged between defaults and overrides |
| TidyOptions.OwnOptionsMean | clang-tools-extra/clang-tidy/ClangTidyOptions.cpp:201-249 | a directory has options of its own iff it is one and has a usable file, and there every overriding value beats the first usable file, which beats the defaults |
| TidyOptions.NoneDecides | clang-tools-extra/clang-tidy/ClangTidyOptions.cpp:162-198 | where no directory on the way up has options, overrides beat defaults |
| TidyOptions.FileOptionsProvider.GetOptions | clang-tools-extra/clang-tidy/ClangTidyOptions.cpp:162-199 | after any queries the cached lookup equals the uncached one, and the walk ends |
| TidyOptions.NearestDecides | clang-tools-extra/clang-tidy/ClangTidyOptions.cpp:176-198 | the uncached lookup takes the nearest directory with options of its own |
| DiagnosticSpec.GroupsPartition | clang-tools-extra/clang-tidy/ClangTidyDiagnosticConsumer.cpp:278-325 | grouping loses nothing, and every group is a diagnostic with the notes that follow |
| DiagnosticSpec.CountsAddUp | clang-tools-extra/clang-tidy/ClangTidyDiagnosticConsumer.cpp:257-276 | the four counts add up to the number of groups, and what is displayed is what is kept |
| DiagnosticSpec.SortedOnce | clang-tools-extra/clang-tidy/ClangTidyDiagnosticConsumer.cpp:402-425 | order and absence of repetitions determine the list of stored errors |
| DiagnosticSpec.NameRemoved | clang-tools-extra/clang-tidy/ClangTidyDiagnosticConsumer.cpp:43-49 | the name of the check, appended when the diagnostic was made, is removed from its text |
| DiagnosticLaws.OtherTextKept | clang-tools-extra/clang-tidy/ClangTidyDiagnosticConsumer.cpp:39-63 | a text that does not end with the name is left alone, and the place of the diagnostic is kept |
| DiagnosticLaws.NamedAfter | clang-tools-extra/clang-tidy/ClangTidyDiagnosticConsumer.cpp:288-313 | the check's name: the warning option first, then the registered name, then the level |
| DiagnosticLaws.UserCodeMeans | clang-tools-extra/clang-tidy/ClangTidyDiagnosticConsumer.cpp:364-395 | outside unwanted system headers, the main file, a wanted header or having no file is enough, and one of them is needed |
| DiagnosticLaws.WantedLineMeans | clang-tools-extra/clang-tidy/ClangTidyDiagnosticConsumer.cpp:346-400 | likewise a line that the first fitting filter admits, having no filters, or no file |
| DiagnosticLaws.FirstFittingDecides | clang-tools-extra/clang-tidy/ClangTidyDiagnosticConsumer.cpp:346-362 | a line passes iff some filter fits the file and the first that does has no ranges or one with the line |
| DiagnosticLaws.DisplayedMeans | clang-tools-extra/clang-tidy/ClangTidyDiagnosticConsumer.cpp:257-325 | errors are displayed whatever the filters say; a warning with its notes iff its check is enabled, some location in it is wanted and some line is |
| DiagnosticLaws.ErrorMeans | clang-tools-extra/clang-tidy/ClangTidyDiagnosticConsumer.cpp:33-86 | the error has the name, severity and message of the first diagnostic, its notes in order, and the fixes of all |
| DiagnosticLaws.DisplayedExactly | clang-tools-extra/clang-tidy/ClangTidyDiagnosticConsumer.cpp:257-276 | which errors are displayed |
| DiagnosticLaws.CountedUnder | clang-tools-extra/clang-tidy/ClangTidyDiagnosticConsumer.cpp:257-276 | each of the four counts grows by the number of groups with that reason, the first that applies |
| DiagnosticLaws.LessMeans | clang-tools-extra/clang-tidy/ClangTidyDiagnosticConsumer.cpp:402-412 | the order of errors: by file, then by offset, then by text, strings character by character |
| DiagnosticLaws.StoredOnce | clang-tools-extra/clang-tidy/ClangTidyDiagnosticConsumer.cpp:414-425 | every error has its message in what is stored, once, and the first error with that message stands for it |
| Diagnostics.Consumer.FinalizeLastError | clang-tools-extra/clang-tidy/ClangTidyDiagnosticConsumer.cpp:257-276 | the decision about the last error is the one specified for its group |
| Diagnostics.Consumer.HandleDiagnostic | clang-tools-extra/clang-tidy/ClangTidyDiagnosticConsumer.cpp:278-336 | one diagnostic at a time: errors, flags and counts are those of the groups seen so far |
| Diagnostics.Consumer.CheckFilters | clang-tools-extra/clang-tidy/ClangTidyDiagnosticConsumer.cpp:364-400 | what one location contributes to both flags, with all early returns |
| Diagnostics.Consumer.PassesLine | clang-tools-extra/clang-tidy/ClangTidyDiagnosticConsumer.cpp:346-362 | the first filter whose name fits the file decides |
| Diagnostics.Consumer.Finish | clang-tools-extra/clang-tidy/ClangTidyDiagnosticConsumer.cpp:414-425 | what is stored is exactly the displayed errors of the batch, in order, the first of each key; the counts add up |

## Left out

- Interpretation.InterpretAsType: equals store-then-load only where the shortcut for equal types is not taken at a shifted position; the code ignores the position there although its comment promises a load, see ShiftedDisagrees.
- FieldContents.FieldContents.ExtractContents: its promise about the bits has the same exception, see ExtractionExact and ShiftedByteIsNotMoved.
- Interpretation.RepresentAsMemory: its closing assertion fails for an undefined register that is narrower than its mode, see UndefinedBooleanIsZero.
- RecordInitializers.ConvertRecordConstructor: nothing is promised for values that are joined on big-endian machines, see JoinedOnBigEndian; a field of integer type is no wider than its value, which the size of converted initializers guarantees; values for default initialization are values like any other; the final attempt to use the record's own LLVM type is left out.
- TypeConversion.Converter.ConvertType: the comment that every reachable type has been converted fails after an incomplete record was converted and later completed, see CompletedLater.
- TypeConversion.Converter.ConvertTypeNonRecursive: what the target says about the size and alignment of floating point types, vectors, pointers and named structs is a parameter.
- TypeGraphs.ArraySizeExact: for arrays whose elements take up less than the whole address space.
- TypeConversion.Converter.ConvertFunctionType: calling conventions, attributes, arguments passed by invisible reference and the splitting of arguments are left out; an argument that is an opaque struct empties the argument list, as it does for the C calling convention.
- FutureProtocol.NextInv: get_future is one step, since nothing else writes what it checks; each handle is used by one thread at a time.
- AliasSpec.QueryValid: reachability is transitive and the root reaches everything, which is what the code relies on.
- TokenDelta.DeltaAlgorithm.Run: the test is deterministic and no change is listed twice.
- GlobLists.GlobList.Contains: regular expressions are replaced by matching with stars.
- NextPrimes.NextPrime: the limits of 32 and 64 bit words are a parameter, and a limit is taken to be prime rather than shown to be.
- DebugDb.Db.InsertC: keys are not registered when they are inserted, as the callers guarantee; memory does not run out; a full table always finds a next prime.
- DebugTables.Table.Insert: a link and its node are two objects here and one allocation in the program.
- DebugNodes.CNode.Add: a null array is an array of length zero.
- BitSlices.Merge: bits between the two ranges are zero, as the code makes them, where its comment allows them to be undefined.
- Vector types, floating point, pointers and complex numbers in ConstantConversion.cpp: opaque casts, or a mixture of bit and byte units.
- The search that finds strongly connected components: the conversion asks for its result, which is shown to exist.
- Locks of the debug database, the iteration over its containers, and the virtual checks of container nodes.
- Deferred functions, timed waits and the moves of promises and futures; futures of values differ only in what is stored.
- Rendering of diagnostics beyond the message, notes and fixes; macro expansion notes; the NOLINT count.
- Reading and parsing of configuration files, absolute paths, and tokenizing and running programs for delta debugging: fixed functions.
