# DotNet-Common core, modelled in Dafny

This project models the core of the DotNet-Common utility library: the binary frame
formatter of `Common/BinaryFormatter.cs`, together with the small helper classes next to it.

The binary formatter describes a fixed binary message as a `Frame`. A frame is a tree of
`FieldStructure`s. The leaves are `Field<T>`s (one scalar or string held by a converter),
`FieldArray<T>`s, `FieldStructureArray<T>`s, `BitmappedField`s (a unit split into bit
fields) and `BitmappedFieldArray`s. Each leaf reads and writes the frame's shared byte
buffer. The model covers these parts:

- `Compile` lays the tree out. Every member gets an offset, and every array gets its count,
  which may be read from an earlier field of the same structure. Then the buffer is resized
  to the frame's size.
- The field accessors decode and encode through the converters. They reverse bytes in place
  when network order differs from the host's.
- The bit accessors shift and mask one unit.
- `WriteToStream` hands out the buffer.

The helper classes are also modelled:

- the value-type, math and helper extensions;
- the Hamming distance on `ulong`;
- `BitArray.ToBinaryString`;
- the string field-splitting extensions;
- the CSV writer and its quoting rule;
- URL joining;
- the revolving-door `Combinatorics.Combinations` enumeration;
- the three dependant invokers;
- `HashBuilder`;
- the repeated event-log entry filter;
- `Interval`, and the `DateTime`/`TimeSpan` helpers;
- the numeric constants.

Each source class that changes state is a Dafny `class` with the same fields. Its methods
are proved against specification functions, and the properties are proved about those
functions. Pure extension methods are functions with lemmas. The model makes these choices:

- Fixed-width integers are unbounded integers inside their range. The program's
  wrap-around, truncating division and masked shift counts are written out (`Wrap32`,
  `TruncDiv`, `ShiftCount`).
- Exceptions are `Result` errors that name the exception.
- Things the program reads from its environment are parameters: the host's byte order
  (`BitConverter.IsLittleEndian`), the clock, and the order in which a dictionary hands
  out its keys.
- Things the program sends out are sequences: event-log writes, text written to a stream,
  and the items an enumerator yields.
- A `DateTime` is its tick count, and a `TimeSpan` is its tick count.

## Model

| member | source | states |
|---|---|---|
| BinaryConverters.Size | Common/BinaryFormatter.cs:769-865 | a converter writes sizeof(T) bytes, or the string field's width, which fits a C# int |
| BinaryConverters.DefaultConverter | Common/BinaryFormatter.cs:328-358 | exactly the nine numeric types have a default converter, none of them the string converter, of size 1, 2, 4 or 8, with size 1 only for Byte; any other type raises InvalidOperationException |
| BinaryConverters.Default | Common/BinaryFormatter.cs:246-250 | default(T) is a value the field can hold |
| BinaryConverters.LittleEndian | Common/BinaryFormatter.cs:784 | the little-endian encoding of a number in n bytes has n bytes |
| BinaryConverters.HostOrder | Common/BinaryFormatter.cs:784-788 | BitConverter's byte order keeps the length |
| BinaryConverters.Zeros | Common/BinaryFormatter.cs:896 | a new byte array of n elements holds n zeros |
| BinaryConverters.GetBytes | Common/BinaryFormatter.cs:770-898 | a converter writes exactly Size bytes; it fails exactly for the string converter, on a null string (NullReferenceException) or an encoding longer than the width (ArgumentException) |
| BinaryConverters.SignificantLength | Common/BinaryFormatter.cs:903 | the length without trailing zeros is at most the width |
| BinaryConverters.GetValue | Common/BinaryFormatter.cs:774-905 | the value read from Size bytes is one the field can hold |
| BinaryConverters.TrimmedLength | Common/BinaryFormatter.cs:900-905 | the loop stops at the length of the field's bytes without their trailing zeros |
| BinaryConverters.FromLittleEndianBound | Common/BinaryFormatter.cs:788 | a little-endian number in n bytes is below 256^n |
| BinaryConverters.LittleEndianRoundTrip | Common/BinaryFormatter.cs:784-788 | decoding the little-endian encoding of a number below 256^n gives the number |
| BinaryConverters.FromLittleEndianRoundTrip | Common/BinaryFormatter.cs:784-788 | encoding a decoded byte sequence gives the bytes |
| BinaryConverters.PatternBounds | Common/BinaryFormatter.cs:796-844 | the two's complement pattern of a value in range lies in [0, 256^Size) and decodes to the value |
| BinaryConverters.FromPatternBounds | Common/BinaryFormatter.cs:800-848 | every pattern decodes to a value in the type's range whose pattern it is |
| BinaryConverters.HostOrderInvolution | Common/BinaryFormatter.cs:784-788 | putting bytes into host order twice gives them back |
| BinaryConverters.SignificantPrefix | Common/BinaryFormatter.cs:896-903 | padding bytes that end in a non-zero byte with zeros does not change their significant length |
| BinaryConverters.SignificantSuffix | Common/BinaryFormatter.cs:903 | bytes are their significant prefix followed by zeros, and that prefix ends in a non-zero byte |
| BinaryConverters.GetValueOfGetBytes | Common/BinaryFormatter.cs:761-905 | writing a value and reading it back gives the value, except that a string loses its trailing zero bytes |
| BinaryConverters.TextRoundTrip | Common/BinaryFormatter.cs:894-905 | a string padded to the width reads back without its trailing zeros |
| BinaryConverters.GetBytesOfGetValue | Common/BinaryFormatter.cs:761-905 | reading Size bytes and writing the value back reproduces the bytes |
| BitFields.ShiftCount | Common/BinaryFormatter.cs:599-604 | C# uses the low five bits of a shift count: below 32, and the count itself when it is in 0..31 |
| BitFields.ShiftLeft | Common/BinaryFormatter.cs:603-604 | a left shift of a UInt32 stays a UInt32 |
| BitFields.AsWrittenMask | Common/BinaryFormatter.cs:599-603 | (UInt32)(1 << numBits) - 1 is a UInt32 |
| BitFields.FieldMask | Common/BinaryFormatter.cs:599-603 | the corrected mask, whole-unit for 32 bits, is a UInt32 |
| BitFields.BitOffsets | Common/BinaryFormatter.cs:544-619 | the constructor gives one offset per bit field |
| BitFields.BitFieldsAdjacent | Common/BinaryFormatter.cs:544-619 | the first bit field starts at the start, and each next one where the previous ends (int arithmetic) |
| BitFields.ConfigureBitFields | Common/BinaryFormatter.cs:544-549 | the constructor's loop gives the bit fields the offsets of BitOffsets from 0 |
| BitFields.Truncate | Common/BinaryFormatter.cs:661-689 | the UInt32Value setters of the 1-, 2- and 4-byte units keep the value below 2 to the unit's bit width |
| BitFields.BitOfShiftLeft32 | Common/BinaryFormatter.cs:603-604 | bit k of x << s is 0 below s and bit k - s of x above |
| BitFields.BitOfSetBits | Common/BinaryFormatter.cs:601-605 | after a write, bits below the field are the unit's, bits inside are the value's, and bits above are the unit's ORed with what of the value spills over |
| BitFields.BitOfFieldMask | Common/BinaryFormatter.cs:603 | the shifted mask has exactly the field's bits set |
| BitFields.BitOfCleared | Common/BinaryFormatter.cs:604 | unit & mask clears the bits the shifted field mask has set and keeps the others |
| BitFields.SetBitsBits | Common/BinaryFormatter.cs:601-605 | writing a value that fits changes exactly the field's bits, to the value's bits |
| BitFields.BitOfGetBits | Common/BinaryFormatter.cs:597-600 | bit k of a field read is bit k + offset of the unit for k below the width, and 0 above |
| BitFields.GetBitsBound | Common/BinaryFormatter.cs:597-600 | a field read is below 2 to the field's width |
| BitFields.GetSetBits | Common/BinaryFormatter.cs:595-606 | a field inside the unit reads back the value written to it when the value fits its width |
| BitFields.DisjointFieldsIndependent | Common/BinaryFormatter.cs:595-606 | writing a field leaves every field that does not overlap it unchanged |
| BitFields.ShiftRightDivides | Common/BinaryFormatter.cs:599 | x >> s is x divided by 2^s |
| BitFields.AndLowMask | Common/BinaryFormatter.cs:599 | x & (2^w - 1) is x modulo 2^w |
| BitFields.GetBitsAsWrittenDivides | Common/BinaryFormatter.cs:599 | the getter as written is the unit divided by 2 to the offset's shift count, modulo 2 to the width's shift count (so 0 for a 32-bit field) |
| BitFields.FullWidthFieldReadsZero | Common/BinaryFormatter.cs:599 | as written, a 32-bit field reads 0 whatever the unit holds, where the whole-unit mask reads 1 from the unit 1 |
| BitFields.FullWidthWriteOrs | Common/BinaryFormatter.cs:603-604 | as written, a 32-bit field's setter clears nothing: the value is ORed into the unit |
| BitFields.FullWidthWriteKeepsOldBits | Common/BinaryFormatter.cs:603-604 | as written, writing 2 to a 32-bit field of the unit 1 leaves 3 |
| BitFields.LowPart | Common/BinaryFormatter.cs:664-676 | a number below 2^w survives truncation to w bits |
| BitFields.FullWidthRoundTrip | Common/BinaryFormatter.cs:595-606 | with the corrected mask a 32-bit field reads back the value written to it |
| BitFields.FullWidthWrite | Common/BinaryFormatter.cs:601-605 | with the corrected mask a 32-bit write replaces the whole unit by the value |
| BitFields.FullWidthRead | Common/BinaryFormatter.cs:597-600 | with the corrected mask a 32-bit read returns the whole unit |
| BitFields.FullWidthSetBit | Common/BinaryFormatter.cs:601-605 | with the corrected mask each bit of a written 32-bit field is the value's bit |
| BitFields.AsWrittenAgrees | Common/BinaryFormatter.cs:597-605 | the source's getter and setter and the corrected ones differ only for a 32-bit field |
| BitFields.WideValueSpills | Common/BinaryFormatter.cs:604 | the setter does not mask its value: 9 written to the 3-bit field at bit 1 of a clear unit also sets bit 4 |
| BitFields.SetBitRoundTrip | Common/BinaryFormatter.cs:637-649 | a Bit reads back the boolean written to it, and the unit's other bits are kept |
| BitFields.TruncatedRoundTrip | Common/BinaryFormatter.cs:595-689 | a field inside a 1-, 2- or 4-byte unit reads back a value that fits, after the unit's truncating setter |
| BitFields.TruncatedFieldsIndependent | Common/BinaryFormatter.cs:595-689 | a field inside such a unit is not disturbed by the truncating write of a field that does not overlap it |
| BitFields.TruncatedBitKept | Common/BinaryFormatter.cs:601-689 | a bit of the unit below its width and outside the field written is kept |
| BitFields.TotalPrefix | Common/BinaryFormatter.cs:546-548 | the bits taken by the first i fields are between 0 and the bits taken by all of them |
| BitFields.PackedBitFields | Common/BinaryFormatter.cs:544-619 | bit fields of positive widths that fit in the unit lie one after another inside it: field i starts where the fields before it end |
| BitFields.TotalMonotone | Common/BinaryFormatter.cs:546-548 | the bits taken grow with the number of fields |
| BitFields.PackedBitFieldsDisjoint | Common/BinaryFormatter.cs:544-619 | two different fields of such a bitmapped field do not overlap |
| FieldAccess.ReadSlot | Common/BinaryFormatter.cs:258-286 | a field that ends past the buffer reads default(T); otherwise a successful read is a value the field can hold |
| FieldAccess.WriteSlot | Common/BinaryFormatter.cs:287-293 | a successful write keeps the buffer's length |
| FieldAccess.WriteSlotFails | Common/BinaryFormatter.cs:287-293 | a write fails exactly when the value cannot be encoded or its bytes do not fit in the buffer at the offset |
| FieldAccess.WriteSlotContents | Common/BinaryFormatter.cs:287-323 | a successful write puts the value's bytes at the offset, reversed when the frame does network-to-host conversion, and leaves every other byte as it was |
| FieldAccess.ReadAfterWrite | Common/BinaryFormatter.cs:256-294 | a field inside the buffer reads the value last written to it; a string comes back without its trailing zero bytes |
| FieldAccess.WriteWhatWasRead | Common/BinaryFormatter.cs:256-294 | a field inside the buffer can always be read, and writing the value read leaves the buffer as it was |
| FieldAccess.SwappedBack | Common/BinaryFormatter.cs:277-292 | reversing in place a range whose bytes were reversed gives the buffer back |
| FieldAccess.ReadPastEnd | Common/BinaryFormatter.cs:262-268 | a field whose end lies past the buffer reads as default(T) |
| FieldAccess.NetworkOrderOnTheWire | Common/BinaryFormatter.cs:287-323 | on a little-endian host a converting frame writes a multi-byte number most significant byte first, and a non-converting one least significant first |
| FrameLayout.Fresh | Common/BinaryFormatter.cs:149-152 | a newly constructed structure has every member unconfigured |
| FrameLayout.EvalCount | Common/BinaryFormatter.cs:392-399 | a constant countFunc gives its constant without reading the buffer |
| FrameLayout.ElementOffsets | Common/BinaryFormatter.cs:722-727 | the bitmapped array's loop gives one offset per element |
| FrameLayout.LayOut | Common/BinaryFormatter.cs:142-158 | a successful Configure leaves every member in a state of its declared kind |
| FrameLayout.LayOutFrom | Common/BinaryFormatter.cs:147-157 | the rest of Configure's loop leaves every member in a state of its declared kind |
| FrameLayout.LayOutMember | Common/BinaryFormatter.cs:233-238 | a member's Configure puts it at the offset it is given, and the offset plus the size it returns is its OffsetAtEnd |
| FrameLayout.LayOutStructures | Common/BinaryFormatter.cs:474-490 | a configured structure array starts at its offset and ends at the offset plus the size it returns |
| FrameLayout.LayOutBitmappeds | Common/BinaryFormatter.cs:715-730 | a configured bitmapped array starts at its offset and ends at the offset plus the size it returns |
| FrameLayout.LayOutElements | Common/BinaryFormatter.cs:482-487 | the structure array's loop gives one configured element per slot of the array |
| FrameLayout.LayOutFromContiguous | Common/BinaryFormatter.cs:147-157 | the rest of the loop keeps the members placed so far and places the remaining present ones contiguously |
| FrameLayout.ContiguousTurn | Common/BinaryFormatter.cs:154 | one turn of the loop places the member where the previous one ends |
| FrameLayout.LayOutFromStep | Common/BinaryFormatter.cs:154 | one turn of the loop configures member i at the current offset |
| FrameLayout.ContiguousStep | Common/BinaryFormatter.cs:154 | a member placed at the end of the contiguous ones extends them |
| FrameLayout.LayOutContiguous | Common/BinaryFormatter.cs:142-158 | Configure places the members before the first null one one after another from the start, leaves the others as they were, and sets Size to the distance from the start to the end of the last one |
| FrameLayout.LayOutElementsSpec | Common/BinaryFormatter.cs:482-488 | the elements of a structure array follow one another, each configured from its own start, and the array ends where the last one does |
| FrameLayout.LayOutElementsStep | Common/BinaryFormatter.cs:486 | one turn of the structure array's loop configures element j at the current offset |
| FrameLayout.ElementsStep | Common/BinaryFormatter.cs:486 | an element configured at the end of the others extends them |
| FrameLayout.ElementsContiguousStep | Common/BinaryFormatter.cs:486 | the element after the contiguous ones starts where they end |
| FrameLayout.ElementPriors | Common/BinaryFormatter.cs:480-485 | the elements configured are the old ones when the count is unchanged and new ones otherwise, one per slot |
| FrameLayout.StructureArrayLayout | Common/BinaryFormatter.cs:474-490 | the count decides the number of elements; a new T[] is made exactly when the count differs from the old array's length; the elements follow one another from the array's offset, each configured from its own start |
| FrameLayout.ElementOffsetAt | Common/BinaryFormatter.cs:722-727 | element j of a bitmapped array starts j unit sizes past the array's offset |
| FrameLayout.ElementsEndAt | Common/BinaryFormatter.cs:728 | a bitmapped array ends n unit sizes past its offset |
| FrameLayout.BitmappedArrayLayout | Common/BinaryFormatter.cs:715-730 | element j of a count-n bitmapped array sits j unit sizes past its offset and the array ends n unit sizes past it; the array is replaced exactly when the count changes; a negative count fails with OverflowException |
| FrameLayout.NegativeStructureCount | Common/BinaryFormatter.cs:479-481 | a structure array with a negative count fails with OverflowException, as new T[count] does |
| FrameLayout.NegativeArrayCount | Common/BinaryFormatter.cs:392-399 | a FieldArray does not check its count: a negative one makes the member after it start before the array |
| FrameLayout.CountPastEnd | Common/BinaryFormatter.cs:262-268 | a count read from a field past the end of the buffer is 0 |
| FrameLayout.LayOutFromFails | Common/BinaryFormatter.cs:147-155 | a member whose Configure fails ends the loop with its error |
| FrameLayout.LayOutFromContinues | Common/BinaryFormatter.cs:147-155 | a member configured in place lets the loop go on after its end |
| FrameLayout.MemberReadyAt | Common/BinaryFormatter.cs:147-155 | the member the loop reaches next has its count field configured before it |
| FrameLayout.LayOutStructuresUnfold | Common/BinaryFormatter.cs:474-490 | a structure array with a non-negative count is its elements laid out from its offset |
| FrameLayout.PlaceStructures | Common/BinaryFormatter.cs:474-490 | the elements laid out one after another from the offset make an array node at that offset, each element shaped like the structure, ending where the returned size says |
| FrameLayout.LayOutElementsUnfold | Common/BinaryFormatter.cs:482-487 | one turn of the structure array's loop |
| FrameLayout.ConfigureStructure | Common/BinaryFormatter.cs:142-158 | FieldStructure.Configure's loop computes LayOut |
| FrameLayout.ConfigureNext | Common/BinaryFormatter.cs:154 | one turn of that loop: a failing member ends it with its error, otherwise the loop goes on after the member |
| FrameLayout.LayOutFromMember | Common/BinaryFormatter.cs:154 | a member whose Configure fails ends the loop with its error; one that succeeds is configured and the loop goes on after it |
| FrameLayout.ConfigureMember | Common/BinaryFormatter.cs:233-238 | IField.Configure of one member computes LayOutMember |
| FrameLayout.ConfigureStructures | Common/BinaryFormatter.cs:474-490 | FieldStructureArray.Configure computes LayOutStructures |
| FrameLayout.ConfigureStructureArray | Common/BinaryFormatter.cs:474-490 | the loop over the elements followed by the array node computes PlaceStructures |
| FrameLayout.ConfigureElements | Common/BinaryFormatter.cs:482-487 | the element loop computes LayOutElements |
| FrameLayout.ConfigureBitmappeds | Common/BinaryFormatter.cs:715-730 | BitmappedFieldArray.Configure computes LayOutBitmappeds |
| FrameLayout.PlaceUnits | Common/BinaryFormatter.cs:722-728 | the unit loop gives the offsets ElementOffsets and ends at ElementsEnd |
| Frames.Locate | Common/BinaryFormatter.cs:498-504 | following a path through structure arrays reaches a member of the declared kind; an unconfigured array is null (NullReferenceException) and an index outside it raises IndexOutOfRangeException |
| Frames.SlotOf | Common/BinaryFormatter.cs:256-294 | a Field<T> or a bitmapped element is read through its declared converter with the frame's conversion; an unconfigured field has a null frame |
| Frames.UnsignedUnit | Common/BinaryFormatter.cs:659-689 | the unit of a bitmapped field is 1, 2 or 4 bytes and holds exactly the numbers of its width |
| Frames.WithFieldBits | Common/BinaryFormatter.cs:601-689 | a bit-field write leaves a value the unit can hold |
| Frames.Grown | Common/BinaryFormatter.cs:88-89 | Array.Resize to a larger size keeps the old contents and adds zeros; to a size no larger it changes nothing |
| Frames.Frame.View | Common/BinaryFormatter.cs:113-125 | the Buffer getter returns the buffer, or a new zeroed one of Size bytes, and overflows for a negative Size |
| Frames.Frame.Init | Common/BinaryFormatter.cs:66-71 | before Compile the frame holds the caller's buffer and conversion flag, its members unconfigured and Size 0 |
| Frames.Frame.Buffer | Common/BinaryFormatter.cs:115-120 | the getter returns the existing buffer, or allocates and keeps a zeroed one of Size bytes; nothing else changes |
| Frames.Frame.SetBuffer | Common/BinaryFormatter.cs:121-124 | the setter replaces the buffer and nothing else |
| Frames.Frame.Compile | Common/BinaryFormatter.cs:84-92 | the members are configured from offset 0 and Size is set as LayOut says; the buffer is grown to Size when it is shorter, allocated first when a countFunc read it, and otherwise stays the same array; a failing Configure is reported with its error |
| Frames.Frame.Read | Common/BinaryFormatter.cs:256-286 | a field's getter returns ReadRef of the frame's state, allocating the buffer if it is null, and changes nothing else |
| Frames.Frame.Write | Common/BinaryFormatter.cs:287-293 | a field's setter leaves the buffer as WriteRef says, or fails with its error |
| Frames.Frame.ReadBits | Common/BinaryFormatter.cs:595-643 | a bit field's getter returns ReadBitsRef of the frame's state |
| Frames.Frame.WriteBits | Common/BinaryFormatter.cs:601-644 | a bit field's setter leaves the buffer as WriteBitsRef says |
| Frames.Frame.WriteToStream | Common/BinaryFormatter.cs:97-100 | the frame sends the first Size bytes of its buffer; a negative Size raises ArgumentOutOfRangeException and one past the buffer's end ArgumentException |
| Frames.NewFrame | Common/BinaryFormatter.cs:57-73 | the constructor compiles the members its field initializers assigned, from a null or given buffer, and fails exactly when that Compile does; the frame's buffer is the caller's array itself when it is long enough, and otherwise a fresh array holding its contents grown to Size (none when no buffer was given and no count was read) |
| Frames.Resize | Common/BinaryFormatter.cs:88-89 | Array.Resize to a larger length gives a new array of the old contents then zeros |
| Frames.ReadFrom | Common/BinaryFormatter.cs:258-286 | the getter on the buffer array computes ReadSlot |
| Frames.CopyOut | Common/BinaryFormatter.cs:275-276 | Array.Copy into a new array copies the field's bytes |
| Frames.WriteInto | Common/BinaryFormatter.cs:287-293 | the setter on the buffer array computes WriteSlot, and a failing write changes nothing |
| Frames.FieldReadsWhatWasWritten | Common/BinaryFormatter.cs:256-294 | a field or an array element reads back the value last written to it through the frame; a string without its trailing zeros |
| Frames.WriteBitsStores | Common/BinaryFormatter.cs:601-605 | a bit-field write stores the unit with that field replaced |
| Frames.PackedFieldBits | Common/BinaryFormatter.cs:595-689 | in a bitmapped field whose bit fields fit the unit, a field reads back a value that fits it and every other field reads what it read before |
| Frames.PackedRead | Common/BinaryFormatter.cs:599 | in such a bitmapped field no width is 32, so a read agrees with the corrected mask |
| Frames.PackedWrite | Common/BinaryFormatter.cs:603-604 | in such a bitmapped field a write agrees with the corrected mask |
| Frames.FullWidthFieldBits | Common/BinaryFormatter.cs:599-604 | a 32-bit field of a 4-byte bitmapped field reads 0 whatever the unit holds, and a write ORs the shifted value into the unit |
| Frames.BitFieldReadsWhatWasWritten | Common/BinaryFormatter.cs:595-649 | a bit field, or a Bit, of such a bitmapped field reads back through the frame a value written to it that fits its width |
| Frames.OtherBitFieldsKept | Common/BinaryFormatter.cs:595-606 | writing one bit field through the frame leaves every other bit field of the unit reading what it read before |
| Frames.CompiledFrameStreams | Common/BinaryFormatter.cs:84-100 | after Compile the buffer holds Size bytes, begins with its old contents, and WriteToStream sends exactly its first Size bytes |
| FrameExamples.StructureDeclared | Common.UnitTests/BinaryFormatterTest.cs:230-239 | ComplexStructure is a well-formed declaration: ManyBitmappeds counts by the earlier Number |
| FrameExamples.FrameDeclared | Common.UnitTests/BinaryFormatterTest.cs:213-228 | ComplexFrame is a well-formed declaration: both arrays count by the earlier Number |
| FrameExamples.StructureLayout | Common.UnitTests/BinaryFormatterTest.cs:230-239 | a new ComplexStructure at offset o whose Number reads k has Number at o, OneBitmapped at o + 2 and k one-byte units from o + 3, 3 + k bytes in all, its count read from the buffer |
| FrameExamples.NumberPlaced | Common.UnitTests/BinaryFormatterTest.cs:236 | the structure's Number goes first, at the structure's start |
| FrameExamples.OneBitmappedPlaced | Common.UnitTests/BinaryFormatterTest.cs:237 | OneBitmapped follows Number's two bytes |
| FrameExamples.ManyBitmappedsPlaced | Common.UnitTests/BinaryFormatterTest.cs:234-238 | ManyBitmappeds follows OneBitmapped's byte |
| FrameExamples.StructureEnds | Common.UnitTests/BinaryFormatterTest.cs:230-239 | after ManyBitmappeds the structure is complete, 3 + k bytes |
| FrameExamples.ManyBitmappedsLayout | Common.UnitTests/BinaryFormatterTest.cs:234-238 | ManyBitmappeds of a structure whose Number reads k is k one-byte units, one after another |
| FrameExamples.StructureNumbers | Common.UnitTests/BinaryFormatterTest.cs:322-328 | in network order the two structures' Numbers in ComplexBytes read 3 and 1 |
| FrameExamples.FrameNumber | Common.UnitTests/BinaryFormatterTest.cs:322-328 | in network order the frame's Number in ComplexBytes reads 2 |
| FrameExamples.FirstStructure | Common.UnitTests/BinaryFormatterTest.cs:295-328 | the first structure, at 4, has three units and 6 bytes |
| FrameExamples.SecondStructure | Common.UnitTests/BinaryFormatterTest.cs:295-328 | the second structure, at 10, has one unit and 4 bytes |
| FrameExamples.StructureElements | Common.UnitTests/BinaryFormatterTest.cs:295 | the two structures follow one another from offset 4 and end at 14 |
| FrameExamples.StructuresLayout | Common.UnitTests/BinaryFormatterTest.cs:224-227 | the structure array holds two structures, 10 bytes from offset 4 |
| FrameExamples.FrameNumberPlaced | Common.UnitTests/BinaryFormatterTest.cs:216 | the frame's Number goes first, at 0 |
| FrameExamples.SomeBytesMember | Common.UnitTests/BinaryFormatterTest.cs:223-226 | SomeBytes is Number (2) bytes at offset 2, its count read from the buffer |
| FrameExamples.SomeBytesPlaced | Common.UnitTests/BinaryFormatterTest.cs:223-226 | SomeBytes follows Number |
| FrameExamples.ComplexLayout | Common.UnitTests/BinaryFormatterTest.cs:286-295 | with ComplexBytes as the buffer, Compile lays the frame out in 2 + 2 + (3 + 3) + (3 + 1) bytes, reading its counts from the buffer |
| FrameExamples.ComplexEnds | Common.UnitTests/BinaryFormatterTest.cs:295 | after Structures the frame is complete, 14 bytes |
| FrameExamples.ReadComplexFrame | Common.UnitTests/BinaryFormatterTest.cs:286-305 | a frame made over ComplexBytes and compiled again once its arrays are assigned is 14 bytes; SomeBytes reads 0x42 and 0x24, and Structures[0].OneBitmapped reads (10, true, 3) through the frame's own accessors |
| FrameExamples.ConstructedLayout | Common.UnitTests/BinaryFormatterTest.cs:254-255 | the constructor's Compile, with only Number assigned, gives Size 2 without reading the buffer, whatever it holds |
| FrameExamples.OneBitmappedRef | Common.UnitTests/BinaryFormatterTest.cs:237-249 | Structures[j].OneBitmapped is a MyBitmappedField with three bit fields |
| FrameExamples.ManyBitmappedsRef | Common.UnitTests/BinaryFormatterTest.cs:238-249 | Structures[j].ManyBitmappeds[k] is a MyBitmappedField with three bit fields |
| FrameExamples.StructureNodes | Common.UnitTests/BinaryFormatterTest.cs:295-304 | Structures[0] and Structures[1] of the compiled frame are the two structures laid out |
| FrameExamples.MyBitmappedOffsets | Common.UnitTests/BinaryFormatterTest.cs:241-249 | AThreeBitField, ABit and AFourBitField start at bits 0, 3 and 4 |
| FrameExamples.MyBitmappedFields | Common.UnitTests/BinaryFormatterTest.cs:241-249 | of a unit u, AThreeBitField is u mod 8, ABit is bit 3 and AFourBitField is u / 16 |
| FrameExamples.FieldOfUnit | Common/BinaryFormatter.cs:599 | a field of a byte unit below 8 bits at an offset below 8 reads the unit divided by 2^offset modulo 2^width |
| FrameExamples.UnitAt | Common.UnitTests/BinaryFormatterTest.cs:314-320 | a bitmapped unit of the compiled frame at byte at reads that byte, and its bit fields are that byte's bits |
| FrameExamples.SomeByteRead | Common.UnitTests/BinaryFormatterTest.cs:297-298 | SomeBytes[i] is the byte at 2 + i |
| FrameExamples.SomeBytesRead | Common.UnitTests/BinaryFormatterTest.cs:297-298 | SomeBytes[0] and SomeBytes[1] read 0x42 and 0x24 |
| FrameExamples.OneBitmappedRead | Common.UnitTests/BinaryFormatterTest.cs:299-303 | Structures[j].OneBitmapped is the byte at 6 (first structure) or 12 (second) |
| FrameExamples.ManyBitmappedsRead | Common.UnitTests/BinaryFormatterTest.cs:300-304 | Structures[j].ManyBitmappeds[k] is the byte at 7 + k (first structure) or 13 (second) |
| FrameExamples.FirstOneBitmapped | Common.UnitTests/BinaryFormatterTest.cs:299 | Structures[0].OneBitmapped reads (10, true, 3) |
| FrameExamples.FirstManyBitmappeds0 | Common.UnitTests/BinaryFormatterTest.cs:300 | Structures[0].ManyBitmappeds[0] reads (15, false, 0) |
| FrameExamples.FirstManyBitmappeds1 | Common.UnitTests/BinaryFormatterTest.cs:301 | Structures[0].ManyBitmappeds[1] reads (14, true, 1) |
| FrameExamples.FirstManyBitmappeds2 | Common.UnitTests/BinaryFormatterTest.cs:302 | Structures[0].ManyBitmappeds[2] reads (13, false, 2) |
| FrameExamples.SecondOneBitmapped | Common.UnitTests/BinaryFormatterTest.cs:303 | Structures[1].OneBitmapped reads (0, false, 0) |
| FrameExamples.SecondManyBitmappeds0 | Common.UnitTests/BinaryFormatterTest.cs:304 | Structures[1].ManyBitmappeds[0] reads (15, true, 7) |
| Constants.UnitConstants | Common/Constants.cs:7-13 | the time unit constants are derived as declared: a day is 86 400 000 ms, a second 1 000 000 µs, and a microsecond 10 ticks |
| Constants.ByteUnitsArePowersOfTwo | Common/Constants.cs:14-15 | a megabyte is 2^20 and a gigabyte 2^30 bytes |
| BitArrayExtensions.ToBinaryString | Common/BitArrayExtensions.cs:8-16 | the string has one character per bit, in index order: '1' for a set bit and '0' for a clear one |
| BitArrayExtensions.FromBinaryString | Common/BitArrayExtensions.cs:8-16 | the inverse reading: one bit per character, of the same length |
| BitArrayExtensions.BinaryStringRoundTrip | Common/BitArrayExtensions.cs:8-16 | a string of the shape ToBinaryString returns holds only '0' and '1' and reads back as the original bits |
| TypeExtensions.BitCount | Common/TypeExtensions.cs:29-42 | the loop counts exactly the 1 bits of the 64-bit value (Ones over 64 bits), after at most 64 shifts, and 0 for 0 |
| TypeExtensions.ShiftOutOnes | Common/TypeExtensions.cs:33-40 | the shift-and-count loop of BitCount, for any width the value fits: it returns the number of 1 bits below that width |
| TypeExtensions.ShiftStep | Common/TypeExtensions.cs:35-39 | one turn of the loop: the value shifted right fits one bit less, and the count splits into the bit shifted out plus the count of the rest |
| TypeExtensions.OnesShift | Common/TypeExtensions.cs:35-39 | counting 1 bits from the low end: bit 0 plus the 1 bits of the value shifted right once |
| TypeExtensions.OnesOfZero | Common/TypeExtensions.cs:33 | zero has no 1 bits, so the loop stops at once with count 0 |
| TypeExtensions.HammingDistance | Common/TypeExtensions.cs:24-27 | BitCount of the exclusive or is the Hamming distance: the number of bit positions where the two values differ |
| TypeExtensions.OnesOfXor | Common/TypeExtensions.cs:24-27 | the 1 bits of a ^ b below n are exactly the positions below n where a and b differ |
| TypeExtensions.OnesOfDifference | Common/TypeExtensions.cs:24-27 | any value whose bits are the sums modulo 2 of the bits of a and b has as many 1 bits as a and b have differing positions |
| TypeExtensions.HammingSymmetric | Common/TypeExtensions.cs:24-27 | the distance does not depend on the order of the operands |
| TypeExtensions.DifferingSymmetric | Common/TypeExtensions.cs:24-27 | the number of differing positions does not depend on the order of the operands |
| TypeExtensions.DifferingZero | Common/TypeExtensions.cs:24-27 | no differing position below n exactly when every bit below n agrees |
| TypeExtensions.HammingZeroIffEqual | Common/TypeExtensions.cs:24-27 | the distance is 0 if and only if the two values are equal |
| TypeExtensions.Ones | Common/TypeExtensions.cs:29-42 | the number of 1 bits below n never exceeds n |
| TypeExtensions.Differing | Common/TypeExtensions.cs:24-27 | the number of differing positions below n never exceeds n |
| DateTimeUtils.Min | Common/DateTimeUtils.cs:7-10 | the result is one of the two DateTimes and is no later than either |
| DateTimeUtils.Max | Common/DateTimeUtils.cs:12-15 | the result is one of the two DateTimes and is no earlier than either |
| DateTimeUtils.MinMaxPartition | Common/DateTimeUtils.cs:7-15 | Min and Max together return both arguments, and Min returns val1 exactly when val1 is not later than val2 |
| DateTimeUtils.Multiply | Common/DateTimeUtils.cs:17-20 | the product of ticks and multiplier in unchecked 64-bit arithmetic: exact when it fits, otherwise congruent to it modulo 2^64 |
| DateTimeUtils.Divide | Common/DateTimeUtils.cs:22-25 | a DivideByZeroException for divisor 0 and an overflow for long.MinValue / -1, and otherwise a quotient truncated toward zero whose remainder has the sign of the dividend and is smaller than the divisor |
| DateTimeUtils.TruncDivInRange | Common/DateTimeUtils.cs:22-25 | the truncated quotient fits 64 bits except for long.MinValue / -1 |
| DateTimeUtils.DivideUndoesMultiply | Common/DateTimeUtils.cs:17-25 | dividing a product that did not overflow by its nonzero multiplier gives back the span |
| DateTimeUtils.DateTimeHelperExamples | Common.UnitTests/DateTimeHelperTest.cs:70-148 | the cases the DateTimeHelper tests check: Max, Min, Multiply and Divide on their sample values |
| HashBuilder.AddHashIsWrappedProduct | Common/HashBuilder.cs:23-33 | Add leaves Result alone for a zero item hash and otherwise sets it to Result * 23 * itemHash reduced to 32 bits, as unchecked int arithmetic does |
| HashBuilder.HashBuilder.constructor | Common/HashBuilder.cs:11-14 | a new builder starts at 17 |
| HashBuilder.HashBuilder.WithStart | Common/HashBuilder.cs:16-19 | a builder given a start hash starts at it |
| HashBuilder.HashBuilder.Add | Common/HashBuilder.cs:23-33 | Result becomes the wrapped product of the old Result, 23 and the item hash, or stays when the item hash is 0 |
| HashBuilder.HashBuilder.AddItems | Common/HashBuilder.cs:35-49 | adding a list of items is Add on each item in order |
| HashBuilder.HashBuilder.GetEnumerator | Common/HashBuilder.cs:51-54 | always fails with NotImplementedException |
| HashBuilder.AddAllAppend | Common/HashBuilder.cs:35-49 | adding two lists one after the other is adding their concatenation |
| HashBuilder.AddAllZeros | Common/HashBuilder.cs:28 | items whose hash is 0 never change the result |
| HashBuilder.AddHashTwice | Common/HashBuilder.cs:23-33 | two non-zero items give the 32-bit reduction of Result * 23 * a * 23 * b |
| HashBuilder.AddHashCommutes | Common/HashBuilder.cs:23-33 | the order in which two items are added does not change the hash |
| HashBuilder.HashBuilderScenario | Common.UnitTests/HashBuilderTest.cs:89-146 | two builders fed the same items, one with Add and one with AddItems, end with the same Result, and GetEnumerator throws |
| UrlUtils.IndexOfFrom | Common/UrlUtils.cs:29 | ordinal IndexOf from a start index: -1 when the pattern occurs nowhere from there, otherwise the first index where it occurs |
| UrlUtils.RemoveSchemaSuffix | Common/UrlUtils.cs:27-31 | the result is always a suffix of the URL; when the first "://" is at index 1 to 15 everything through it is dropped, and otherwise the URL is returned whole |
| UrlUtils.RemoveSchemaExamples | Common/UrlUtils.cs:27-31 | "http://mimeo/job1" loses its scheme, while "://x" (delimiter at 0) and a URL without a delimiter come back unchanged |
| UrlUtils.TrimStart | Common/UrlUtils.cs:40 | the result of TrimStart('/') does not start with '/' |
| UrlUtils.TrimEnd | Common/UrlUtils.cs:40 | the result of TrimEnd('/') does not end with '/' |
| UrlUtils.TrimEndKeepsFirst | Common/UrlUtils.cs:40 | trimming the end of a string that does not start with '/' keeps its first character |
| UrlUtils.TrimProperties | Common/UrlUtils.cs:40 | a segment trimmed of '/' neither starts nor ends with '/', and trimming it again changes nothing |
| UrlUtils.RootedSnoc | Common/UrlUtils.cs:37-41 | one more segment appends "/" and the trimmed segment to the path |
| UrlUtils.RootedShape | Common/UrlUtils.cs:33-44 | no segments give the empty string, and otherwise the path starts at the root "/" |
| UrlUtils.JoinFromRoot | Common/UrlUtils.cs:33-44 | the loop builds "/" plus the trimmed segment for every segment in order |
| DependantInvoker.IDDependantInvoker.constructor | Common/DependantInvoker.cs:15-22 | a new invoker has counter 0, no outstanding ids and has not run the action |
| DependantInvoker.IDDependantInvoker.Add | Common/DependantInvoker.cs:24-34 | the id handed out is the old counter, the counter advances with unchecked 32-bit wrap-around, the id joins the outstanding set, and below int.MaxValue the id is new |
| DependantInvoker.IDDependantInvoker.Fullfill | Common/DependantInvoker.cs:36-44 | the id leaves the outstanding set; when none remain the action runs once and the counter resets to 0, and otherwise nothing else changes |
| DependantInvoker.CountDependantInvoker.constructor | Common/DependantInvoker.cs:54-60 | a new invoker has count 0 and has not run the action |
| DependantInvoker.CountDependantInvoker.Add | Common/DependantInvoker.cs:62-65 | the count goes up by one, with 32-bit wrap-around |
| DependantInvoker.CountDependantInvoker.Fullfill | Common/DependantInvoker.cs:67-73 | the count goes down by one, and the action runs exactly when it lands on 0 |
| DependantInvoker.StopIndex | Common/DependantInvoker.cs:92-104 | the scan stops at the first slot that is empty or holds the same reference, having passed only filled slots holding other objects |
| DependantInvoker.Fulfilled | Common/DependantInvoker.cs:90-105 | Fullfill changes no slot count: the slots keep their number |
| DependantInvoker.FilledCount | Common/DependantInvoker.cs:81-88 | the number of filled slots is at most the number of slots |
| DependantInvoker.FulfilledKeepsSlotsValid | Common/DependantInvoker.cs:90-105 | the filled slots stay a gap-free prefix of distinct objects, and one more is filled exactly when the object is non-null, not yet present and a slot is free |
| DependantInvoker.FilledCountAt | Common/DependantInvoker.cs:92-98 | a prefix of n filled slots followed by an empty slot, or the end, means n are filled |
| DependantInvoker.LastSlotFilled | Common/DependantInvoker.cs:106 | with valid slots, the last slot is filled exactly when all are, so the action runs only once every slot is filled |
| DependantInvoker.UniqueObjectDependantInvoker.constructor | Common/DependantInvoker.cs:81-85 | the invoker owns a fresh array of numDependancies empty slots and has not run the action |
| DependantInvoker.UniqueObjectDependantInvoker.Fullfill | Common/DependantInvoker.cs:90-110 | the slots become Fulfilled of the old slots; a zero-length array gives IndexOutOfRangeException at the final check; the action runs exactly when the last slot is filled |
| DependantInvoker.NewUniqueObjectDependantInvoker | Common/DependantInvoker.cs:81-85 | a negative size fails, as new object[-1] throws, and any other size gives a fresh invoker with that many empty slots |
| DependantInvoker.IDScenario | Common.UnitTests/DependantInvokerTest.cs:10-27 | three Adds hand out ids 0, 1 and 2, and fulfilling all three runs the action once |
| DependantInvoker.CountScenario | Common.UnitTests/DependantInvokerTest.cs:29-46 | the count test: one run after all adds and fulfils, and three runs when adds and fulfils interleave |
| DependantInvoker.UniqueObjectScenario | Common.UnitTests/DependantInvokerTest.cs:48-66 | three slots fed four callbacks, one of them a repeat, run the action once |
| ValueTypeExtensions.IsEven | Common/Extensions.cs:12-15 | true exactly when bit 0 of the two's-complement int is clear, that is when the value is even (negative values included) |
| ValueTypeExtensions.IsBitSetAt | Common/Extensions.cs:17-35 | true exactly when the bit at bitpos modulo 32 is set in the value's 32-bit two's-complement form, as C# masks the shift count; the 16-bit overloads widen first |
| ValueTypeExtensions.IsBitSetAtExamples | Common.UnitTests/ValueTypeExtensionsTest.cs:93-201 | bit 8 of 0x0100 is set and of 0xFEFF clear; a shift by 32 wraps to bit 0; a negative Int16 has its sign-extended high bits set |
| ValueTypeExtensions.Microseconds | Common/Extensions.cs:37-40 | the microsecond within the second of a DateTime, always below one million |
| ValueTypeExtensions.AddMicroseconds | Common/Extensions.cs:42-46 | the new tick count stays a valid DateTime, and a result out of the DateTime range is ArgumentOutOfRangeException |
| ValueTypeExtensions.TotalMicroseconds | Common/Extensions.cs:48-51 | ticks divided by 10, truncated toward zero: the remainder is below 10 and has the sign of the tick count |
| ValueTypeExtensions.AddMicrosecondsShiftsMicroseconds | Common/Extensions.cs:37-46 | AddMicroseconds succeeds exactly when the moved tick count is a valid DateTime; it then adds 10 ticks per microsecond, and the microsecond-of-second moves by the same amount modulo a second |
| ValueTypeExtensions.TotalMicrosecondsOfScaled | Common/Extensions.cs:42-51 | TotalMicroseconds undoes the tick scaling of AddMicroseconds: m * 10 ticks are m microseconds |
| ValueTypeExtensions.MicrosecondsIsTotalMicrosecondsModSecond | Common/Extensions.cs:37-51 | the microsecond-of-second is the total microseconds modulo one million |
| ValueTypeExtensions.MicrosecondsExamples | Common.UnitTests/ValueTypeExtensionsTest.cs:283-346 | the unit test's values: 1234567 ticks are at microsecond 123456, 876543210987654321 ticks are 87654321098765432 microseconds, and -15 ticks truncate to -1 |
| ValueTypeExtensions.Matches | Common/Extensions.cs:53-61 | the same reference (two nulls included) matches; otherwise a null right side does not match, a null left side throws NullReferenceException, and two arrays match exactly when their contents are equal |
| ValueTypeExtensions.Reverse | Common/Extensions.cs:66-76 | a reversed sequence has the same length |
| ValueTypeExtensions.ReverseIndex | Common/Extensions.cs:66-76 | element i of the reversed sequence is element n - 1 - i of the original |
| ValueTypeExtensions.ReverseInvolution | Common/Extensions.cs:66-76 | reversing twice gives back the sequence |
| ValueTypeExtensions.ReverseRangeIndex | Common/Extensions.cs:66-76 | ReverseBytes succeeds exactly when count is below 2 or the range lies inside the array, and then it mirrors the cells of [offset, offset + count) and leaves every other cell unchanged |
| ValueTypeExtensions.ReverseRangeInvolution | Common/Extensions.cs:66-76 | reversing the same range twice restores the contents |
| ValueTypeExtensions.ReverseWholeArray | Common.UnitTests/ValueTypeExtensionsTest.cs:293-319 | over the whole array ReverseBytes is the plain reversal: index i receives the old index n - 1 - i |
| ValueTypeExtensions.ReverseRangeExample | Common.UnitTests/ValueTypeExtensionsTest.cs:325-335 | reversing 4 bytes from offset 2 of 4 6 3 7 8 3 7 8 3 gives 4 6 3 8 7 3 7 8 3 |
| ValueTypeExtensions.PartlyReversed | Common/Extensions.cs:68-75 | the contents after the first i swaps keep their length |
| ValueTypeExtensions.PartlyReversedStep | Common/Extensions.cs:70-74 | one swap of the loop turns the contents after i swaps into the contents after i + 1 swaps |
| ValueTypeExtensions.PartlyReversedDone | Common/Extensions.cs:68 | after count / 2 swaps the range is reversed |
| ValueTypeExtensions.ReverseBytes | Common/Extensions.cs:66-76 | the in-place loop leaves the array holding the reversed range, or fails with the exception the source raises (NullReferenceException for a null array when the loop runs, IndexOutOfRangeException for a range outside the array) |
| MathExtensions.Max | Common/Extensions.cs:81-84 | value1 when it compares greater than value2, and value2 otherwise |
| MathExtensions.Min | Common/Extensions.cs:86-89 | value1 when it compares less than value2, and value2 otherwise |
| MathExtensions.MaxIsUpperBound | Common/Extensions.cs:81-84 | for a CompareTo that is reflexive and antisymmetric, the result of Max compares no less than either argument |
| MathExtensions.MinIsLowerBound | Common/Extensions.cs:86-89 | for a CompareTo that is reflexive and antisymmetric, the result of Min compares no greater than either argument |
| Helpers.Swap | Common/Extensions.cs:94-99 | the two reference parameters exchange their values |
| Helpers.WhileCatchFromOutcome | Common/Extensions.cs:152-168 | from attempt i on, the loop runs the action until it succeeds, throws something else, throws T on the limit-th attempt, or throws T and then ifCatch throws; every earlier attempt threw T and was followed by an ifCatch that returned |
| Helpers.WhileCatchOutcome | Common/Extensions.cs:150-169 | the action runs at most limit times and every invocation but the last threw T and was followed by an ifCatch that returned; the last decides the ending: T is rethrown only on the limit-th try, and before that an ifCatch that throws ends the loop with its exception; a limit below 1 runs nothing |
| Helpers.WhileCatchExample | Common.UnitTests/HelpersTest.cs:118-128 | an action that throws three times returns on the fourth try with limit 5, and with limit 3 the third exception is rethrown; an ifCatch that throws on its second call ends the loop after the second try |
| Helpers.WhileCatch | Common/Extensions.cs:150-169 | the counted loop over the attempts 1 to limit, with ifCatch inside the catch block, ends the way WhileCatchRun describes |
| StringExtensions.SplitPieces | Common/StringExtensions.cs:71 | string.Split(delimiter) gives one piece more than there are delimiters, and no piece contains the delimiter |
| StringExtensions.JoinSplit | Common/StringExtensions.cs:76 | joining the pieces of Split with the delimiter gives back the string |
| StringExtensions.JoinAppend | Common/StringExtensions.cs:76 | joining a concatenation of two non-empty lists joins each and puts one separator between them |
| StringExtensions.Count | Common/StringExtensions.cs:122-125 | the number of occurrences of the character is at most the length |
| StringExtensions.SkipPieces | Common/StringExtensions.cs:76 | LINQ Skip never yields more pieces than it is given |
| StringExtensions.TakePieces | Common/StringExtensions.cs:76 | LINQ Take never yields more pieces than it is given |
| StringExtensions.Field | Common/StringExtensions.cs:69-72 | piece index of the split, which holds no delimiter, when the index is in range, and IndexOutOfRangeException otherwise |
| StringExtensions.FieldsArePieces | Common/StringExtensions.cs:69-77 | Fields(startIndex, count) rejoins the pieces startIndex to startIndex + count - 1 with the delimiter, and a single field is Field(startIndex) |
| StringExtensions.FirstAndLastFields | Common/StringExtensions.cs:79-89 | no fields give "" (and LastFields the whole string), all fields give the whole string (and LastFields ""), and in between FirstFields(n), the delimiter and LastFields(n) rebuild the string |
| StringExtensions.FirstFieldsExamples | Common.UnitTests/StringExtensionsTest.cs:10-27 | the unit test's FirstFields cases on "/1/2", "1//", "/1/2/" and "1/2/3" |
| StringExtensions.SplitOneTwo | Common.UnitTests/StringExtensionsTest.cs:22 | "/1/2" splits on '/' into "", "1" and "2" |
| StringExtensions.SplitSlashes | Common.UnitTests/StringExtensionsTest.cs:13-25 | "/" splits into two empty pieces, and "1//" into "1", "" and "" |
| StringExtensions.SplitTrailingSlash | Common.UnitTests/StringExtensionsTest.cs:19 | "/1/2/" splits into "", "1", "2" and "" |
| StringExtensions.SplitOneTwoThree | Common.UnitTests/StringExtensionsTest.cs:27 | "1/2/3" splits into "1", "2" and "3" |
| StringExtensions.Skip | Common/StringExtensions.cs:91-96 | Substring(count): defined exactly when 0 <= count <= Length, and then Length - count characters long |
| StringExtensions.Take | Common/StringExtensions.cs:98-103 | Substring(0, count): defined exactly when 0 <= count <= Length, and then count characters long |
| StringExtensions.TakeThenSkip | Common/StringExtensions.cs:91-103 | Take(n) followed by Skip(n) rebuilds the string |
| StringExtensions.PythonSubstring | Common/StringExtensions.cs:24-37 | any failure is ArgumentOutOfRangeException |
| StringExtensions.PythonSubstringSlice | Common/StringExtensions.cs:24-37 | a negative index counts once from the end; the result is the characters from the normalised start up to the normalised end, and it fails exactly when those are out of order or outside the string |
| StringExtensions.PythonSubstringFromEnd | Common/StringExtensions.cs:26-34 | an index counted from the end selects the same text as the same position counted from the front |
| StringExtensions.PythonSubstringExamples | Common.UnitTests/StringExtensionsTest.cs:31-101 | the unit test's slices of "0123456789", and the four calls that throw ArgumentOutOfRangeException |
| StringExtensions.IsEmpty | Common/StringExtensions.cs:39-42 | true exactly for the empty string |
| StringExtensions.StartsWith | Common/StringExtensions.cs:44-52 | true only for a non-null, non-empty string |
| StringExtensions.EndsWith | Common/StringExtensions.cs:54-62 | true only for a non-null, non-empty string |
| StringExtensions.StartsEndsWithReversal | Common/StringExtensions.cs:44-62 | a string starts with c exactly when its reversal ends with c; c followed by anything starts with c and anything followed by c ends with c; null and "" start and end with nothing |
| StringExtensions.SplitAtMost | Common/StringExtensions.cs:64-67 | string.Split with a piece limit always yields at least one piece |
| StringExtensions.SplitWithoutDelimiter | Common/StringExtensions.cs:71 | a string without the delimiter splits into itself alone |
| StringExtensions.SplitAtMostPieces | Common/StringExtensions.cs:64-67 | Split(delimiter, max) yields at most three pieces whatever max is; they rejoin to the string, and with fewer than three delimiters they are the plain split |
| StringExtensions.JoinHeadEmpty | Common/StringExtensions.cs:76 | joining a list that starts with "" starts with the separator |
| StringExtensions.JoinHeadChar | Common/StringExtensions.cs:76 | a character put in front of the first piece ends up in front of the joined string |
| StringExtensions.CountNonEmpty | Common/StringExtensions.cs:107 | the non-empty pieces are at most all pieces |
| StringExtensions.NumNonEmptyFields | Common/StringExtensions.cs:105-108 | the non-empty fields are at most all fields |
| StringExtensions.NoNonEmptyFields | Common/StringExtensions.cs:105-108 | there is no non-empty field exactly when the string consists of delimiters only |
| StringExtensions.NumFields | Common/StringExtensions.cs:110-120 | on "" indexing [0] throws IndexOutOfRangeException, and that is the only failure |
| StringExtensions.NumFieldsCountsPieces | Common/StringExtensions.cs:110-120 | NumFields is the number of pieces of Split, plus one when the string starts and ends with the delimiter |
| StringExtensions.RemoveFromEnd | Common/StringExtensions.cs:127-130 | the result is never longer than the string |
| StringExtensions.RemoveFromEndSuffix | Common/StringExtensions.cs:127-130 | t followed by remove gives back t; whenever something is removed, appending remove to the result restores the string; a string that does not end with remove comes back unchanged |
| CsvWriter.ContainsChar | Common/CSVWriter.cs:156 | containing the one-character string c is containing the character c |
| CsvWriter.DoubleQuotes | Common/CSVWriter.cs:148-159 | doubling the quotes never shortens the value |
| CsvWriter.UndoubleDoubleQuotes | Common/CSVWriter.cs:148-159 | a CSV reader that turns each "" back into " recovers the value from its doubled form |
| CsvWriter.FormatDelimiterSeparatedValue | Common/CSVWriter.cs:140-167 | escaping never shortens the value |
| CsvWriter.FormatCases | Common/CSVWriter.cs:140-167 | the three cases of RFC 4180 escaping: a value already enclosed in quotes keeps them and reads back as its inside; a value that holds the delimiter, CR or LF is enclosed in quotes and reads back unchanged; any other value is written as is |
| CsvWriter.ReplaceChar | Common/CSVWriter.cs:83-84 | replacing a character by a space keeps the length |
| CsvWriter.ReplaceCharIndex | Common/CSVWriter.cs:83-84 | every occurrence of the character becomes a space and every other character stays |
| CsvWriter.EmittedFieldIsOneLine | Common/CSVWriter.cs:79-86 | the text WriteField(string) writes never holds CR or LF, so a field never breaks the line |
| CsvWriter.CrLfBecomesOneSpace | Common/CSVWriter.cs:79-86 | a CRLF pair inside a value becomes one space, not two, inside the quotes |
| CsvWriter.CrLfSampleQuoted | Common/CSVWriter.cs:156-163 | a value holding CRLF is enclosed in quotes before the line breaks are replaced |
| CsvWriter.CrLfSampleReplaced | Common/CSVWriter.cs:82 | Replace("\r\n", " ") turns the pair into one space |
| CsvWriter.Digits | Common/CSVWriter.cs:64-71 | the invariant-culture decimal text of a number is non-empty and made of the digits 0 to 9 |
| CsvWriter.DigitsRoundTrip | Common/CSVWriter.cs:64-71 | parsing the decimal text gives back the number |
| CsvWriter.ReplaceCharAbsent | Common/CSVWriter.cs:83-84 | a string without the character is left unchanged |
| CsvWriter.NoCrLfUnchanged | Common/CSVWriter.cs:82 | a string without CR is left unchanged by the CRLF replacement |
| CsvWriter.NumberTextUnescaped | Common/CSVWriter.cs:140-167 | number text (an optional minus and digits) is not escaped |
| CsvWriter.NumberFieldUnescaped | Common/CSVWriter.cs:64-87 | WriteField(Int32) and WriteField(UInt32) write the plain decimal text, with no quotes and no replacements |
| CsvWriter.EmittedFields | Common/CSVWriter.cs:104-118 | one emitted field per WriteLine argument |
| CsvWriter.CSVWriter.constructor | Common/CSVWriter.cs:28-41 | a new writer has written nothing and is at the start of a line |
| CsvWriter.CSVWriter.WriteField | Common/CSVWriter.cs:72-87 | appends a comma unless at the start of a line, then the escaped value with its line breaks replaced by spaces; the writer is then inside a line |
| CsvWriter.CSVWriter.WriteEmptyField | Common/CSVWriter.cs:51-54 | appends only the separating comma, if any |
| CsvWriter.CSVWriter.WriteInt32Field | Common/CSVWriter.cs:68-71 | appends the separator and the decimal text of the value |
| CsvWriter.CSVWriter.WriteUInt32Field | Common/CSVWriter.cs:64-67 | appends the separator and the decimal text of the value |
| CsvWriter.CSVWriter.WriteEndOfLine | Common/CSVWriter.cs:92-96 | appends the line terminator and returns to the start of a line |
| CsvWriter.CSVWriter.WriteLine | Common/CSVWriter.cs:102-120 | appends the emitted fields joined by commas, preceded by one more comma if the line already held fields, then the line terminator |
| CsvWriter.CSVWriter.WriteFields | Common/CSVWriter.cs:104-118 | the loop of WriteLine appends one WriteField per argument in order, and leaves the start-of-line flag set only if there were no arguments and it was set |
| CsvWriter.WrittenFieldsSnoc | Common/CSVWriter.cs:104-118 | one more argument extends the text by a separator and the field |
| CsvWriter.WrittenFieldsJoin | Common/CSVWriter.cs:102-120 | the text of the WriteField calls is the fields joined by commas, with a leading comma when the line already held fields |
| CsvWriter.EmittedFieldsSnoc | Common/CSVWriter.cs:104-118 | the emitted fields of one more argument are the earlier ones followed by the new field |
| CsvWriter.JoinSnoc | Common/CSVWriter.cs:102-120 | joining a list with one more element adds the separator and the element |
| Combinatorics.ValidIsCombination | Common/Combinatorics.cs:41-48 | a valid state of the array c stands for a t-combination of {0, ..., n-1} in c[1 .. t] |
| Combinatorics.InitialState | Common/Combinatorics.cs:43-48 | R1 sets up c[1 .. t] = 0, 1, ..., t-1 with the sentinel n, a valid state whenever t <= n |
| Combinatorics.DecreaseFirst | Common/Combinatorics.cs:58-62 | R3 of the even branch (c[1] - 1) keeps the state valid and changes the combination by one element out and one in |
| Combinatorics.DecreaseFirstValid | Common/Combinatorics.cs:58-62 | R3 of the even branch keeps the state valid |
| Combinatorics.IncreaseFirst | Common/Combinatorics.cs:94-98 | R3 of the odd branch (c[1] + 1 below c[2]) keeps the state valid and is a revolving-door step |
| Combinatorics.IncreaseAt | Common/Combinatorics.cs:66-73 | R5 at j (c[j-1] takes c[j], which moves one up) keeps the state valid and is a revolving-door step |
| Combinatorics.IncreaseAtValid | Common/Combinatorics.cs:68-72 | R5 at j keeps the state valid |
| Combinatorics.DecreaseAt | Common/Combinatorics.cs:77-84 | R4 at j (c[j] takes c[j-1], which becomes j - 2) keeps the state valid and is a revolving-door step |
| Combinatorics.DecreaseAtValid | Common/Combinatorics.cs:79-83 | R4 at j keeps the state valid |
| Combinatorics.ValidIncreasing | Common/Combinatorics.cs:41-48 | the combination of a valid state is listed in increasing order |
| Combinatorics.ScanEven | Common/Combinatorics.cs:64-85 | the inner loop of the even branch keeps the array length |
| Combinatorics.ScanOdd | Common/Combinatorics.cs:100-121 | the inner loop of the odd branch keeps the array length |
| Combinatorics.NextEven | Common/Combinatorics.cs:58-85 | one pass of the even branch after R2 keeps the array length |
| Combinatorics.NextOdd | Common/Combinatorics.cs:94-121 | one pass of the odd branch after R2 keeps the array length |
| Combinatorics.Next | Common/Combinatorics.cs:52-123 | the step after R2 of the branch that t's parity selects keeps the array length |
| Combinatorics.Enumeration | Common/Combinatorics.cs:17-124 | the consumer never sees more items than it asks for; nothing fails before the first request, after which r = -2 (an array of length 0) fails with IndexOutOfRangeException at c[t + 1], r < -2 or r >= 2^31 - 2 (a length that wraps negative) fails with OverflowException, and r = -1 yields nothing |
| Combinatorics.RunBound | Common/Combinatorics.cs:52-123 | the outer loop hands out at most as many items as are asked for |
| Combinatorics.ScanEvenKeepsValid | Common/Combinatorics.cs:64-85 | from a valid state the even inner loop keeps every Debug.Assert true and, unless it runs off the end, leaves a valid state one revolving-door step on |
| Combinatorics.ScanOddKeepsValid | Common/Combinatorics.cs:100-121 | from a valid state the odd inner loop keeps every Debug.Assert true and, unless it runs off the end, leaves a valid state one revolving-door step on |
| Combinatorics.ScanOddDecrease | Common/Combinatorics.cs:103-109 | R4 at j in the odd branch keeps the loop's guarantee |
| Combinatorics.ScanOddIncrease | Common/Combinatorics.cs:111-120 | R5 at j + 1 in the odd branch keeps the loop's guarantee |
| Combinatorics.ScanOddSkip | Common/Combinatorics.cs:100-121 | when neither step applies at j, the odd loop goes on from j + 2 with the same guarantee |
| Combinatorics.BelowDiagonal | Common/Combinatorics.cs:77-84 | when R4 fails at j, c[j-1] and c[j] hold their least possible values, so the Debug.Assert of the next R5 holds |
| Combinatorics.NextKeepsValid | Common/Combinatorics.cs:52-123 | between two outputs every Debug.Assert holds, and the state stays valid with a combination one revolving-door step from the previous one, until the loop ends |
| Combinatorics.PrependRevolving | Common/Combinatorics.cs:56-92 | a combination followed by a revolving run that starts one step from it is again a revolving run of combinations |
| Combinatorics.RunKeepsValid | Common/Combinatorics.cs:52-123 | from a valid state every output is a t-combination of {0, ..., n-1} and follows its predecessor by a revolving-door step |
| Combinatorics.RunPrepend | Common/Combinatorics.cs:54-58 | the run from a state is its first output followed by the run after one step |
| Combinatorics.CombinationsAreRevolving | Common/Combinatorics.cs:9-17 | for 0 <= r <= n every item handed out is an r-combination of {0, ..., n-1}, the first is 0, 1, ..., r-1, each differs from its predecessor by one element out and one in, and every Debug.Assert holds |
| Combinatorics.FewerItemsThanChosen | Common/Combinatorics.cs:41-56 | as written, with 2 <= r and n < r, the first request yields 0, 1, ..., r-1, which is not an r-combination of {0, ..., n-1}, and the next one ends the enumeration |
| Combinatorics.ScanEvenStops | Common/Combinatorics.cs:64-85 | with n < t the even inner loop runs off the end from R1's state |
| Combinatorics.ScanOddStops | Common/Combinatorics.cs:100-121 | with n < t the odd inner loop runs off the end from R1's state |
| Combinatorics.GuardedEnumeration | Common/Combinatorics.cs:17-124 | the corrected enumeration yields nothing when 2 <= r and n < r, and is the original otherwise |
| Combinatorics.GuardedOnlyCombinations | Common/Combinatorics.cs:9-17 | with the guard, for every n and every 0 <= r < 2^31 - 2, every item handed out is an r-combination and the sequence is revolving |
| Combinatorics.FourChooseTwoStates | Common/Combinatorics.cs:43-86 | the arrays Combinations(4, 2) passes through, step by step |
| Combinatorics.FourChooseTwo | Common.UnitTests/CombinatoricsTest.cs:70-87 | Combinations(4, 2) yields 01, 12, 02, 23, 13, 03 and then ends: every pair exactly once, in revolving-door order rather than the lexicographic order the comment promises |
| Combinatorics.AdvanceEven | Common/Combinatorics.cs:58-85 | the even branch's step on the array does what NextEven says |
| Combinatorics.AdvanceOdd | Common/Combinatorics.cs:94-121 | the odd branch's step on the array does what NextOdd says |
| Combinatorics.Start | Common/Combinatorics.cs:41-48 | R1 allocates a fresh array holding the initial state |
| Combinatorics.RunUnfold | Common/Combinatorics.cs:54-56 | one more request outputs the current combination and, when more are asked for, continues after one step |
| Combinatorics.ThenNothing | Common/Combinatorics.cs:54-56 | no items so far followed by a run is that run |
| Combinatorics.ThenStep | Common/Combinatorics.cs:54-56 | one more output moves the first item of the remaining run to the items so far |
| Combinatorics.Advance | Common/Combinatorics.cs:52-123 | the step after R2 on the array is the step of the branch t's parity selects |
| Combinatorics.Output | Common/Combinatorics.cs:56-92 | R2 hands out one more item, and the items so far followed by the rest of the run do not change |
| Combinatorics.RevolvingDoor | Common/Combinatorics.cs:41-123 | R1 and the outer loop on the array hand out exactly the run the functional model describes |
| Combinatorics.Combinations | Common/Combinatorics.cs:17-124 | the method with its r = 0 and r = 1 special cases hands out exactly Enumeration |
| CombinatoricsCount.ChooseOne | Common/Combinatorics.cs:29-37 | C(x, 1) = x, the count of the r = 1 branch |
| CombinatoricsCount.ChooseAbove | Common/Combinatorics.cs:17 | there are no k-subsets of fewer than k items |
| CombinatoricsCount.ChooseAll | Common/Combinatorics.cs:17 | there is one k-subset of k items |
| CombinatoricsCount.ChooseMonotone | Common/Combinatorics.cs:17 | C(a, k) grows with a |
| CombinatoricsCount.RankUpdate | Common/Combinatorics.cs:17 | changing one element of a combination moves its revolving-door rank by the change of that element's term |
| CombinatoricsCount.RankOfFirst | Common/Combinatorics.cs:43-48 | 0, 1, ..., k-1, the first item, has rank 0 |
| CombinatoricsCount.RankBounds | Common/Combinatorics.cs:17 | a combination whose largest element is x ranks in [C(x, t), C(x + 1, t)) |
| CombinatoricsCount.RankRange | Common/Combinatorics.cs:17 | every t-combination of {0, ..., n-1} ranks in [0, C(n, t)) |
| CombinatoricsCount.RankInjective | Common/Combinatorics.cs:17 | two combinations of the same size with the same rank are equal |
| CombinatoricsCount.CurrentUpdate | Common/Combinatorics.cs:56-92 | changing c[j] changes element j - 1 of the combination handed out |
| CombinatoricsCount.FirstDownRank | Common/Combinatorics.cs:58-62 | R3 of the even branch moves to the combination of the next rank |
| CombinatoricsCount.FirstUpRank | Common/Combinatorics.cs:94-98 | R3 of the odd branch moves to the combination of the next rank |
| CombinatoricsCount.SeqIncreaseRank | Common/Combinatorics.cs:68-72 | R5 on the combination raises its rank by one |
| CombinatoricsCount.SeqDecreaseRank | Common/Combinatorics.cs:79-83 | R4 on the combination raises its rank by one |
| CombinatoricsCount.IncreaseRank | Common/Combinatorics.cs:66-73 | R5 at j on the array moves to the combination of the next rank |
| CombinatoricsCount.DecreaseRank | Common/Combinatorics.cs:77-84 | R4 at j on the array moves to the combination of the next rank |
| CombinatoricsCount.LastRank | Common/Combinatorics.cs:52-123 | the state where the loop ends (0, 1, ..., t-2, n-1) holds the combination of the last rank, C(n, t) - 1 |
| CombinatoricsCount.ScanEvenIncrease | Common/Combinatorics.cs:66-73 | the even inner loop stopping at R5 moves to the next rank |
| CombinatoricsCount.ScanEvenDecrease | Common/Combinatorics.cs:75-84 | the even inner loop stopping at R4, or running off the end at the last combination, is a ranked step |
| CombinatoricsCount.ScanEvenRank | Common/Combinatorics.cs:64-85 | the even inner loop either moves to the next rank or ends the enumeration at the last rank |
| CombinatoricsCount.ScanOddIncrease | Common/Combinatorics.cs:111-120 | the odd inner loop stopping at R5 moves to the next rank |
| CombinatoricsCount.ScanOddDecrease | Common/Combinatorics.cs:103-109 | the odd inner loop stopping at R4 moves to the next rank |
| CombinatoricsCount.ScanOddRank | Common/Combinatorics.cs:100-121 | the odd inner loop either moves to the next rank or ends the enumeration at the last rank |
| CombinatoricsCount.NextRank | Common/Combinatorics.cs:52-123 | every step between two outputs either moves to the combination of the next rank or ends the loop right after the last rank |
| CombinatoricsCount.RanksPrepend | Common/Combinatorics.cs:56-92 | an item of rank b before a run of consecutive ranks from b + 1 gives consecutive ranks from b |
| CombinatoricsCount.CountedStep | Common/Combinatorics.cs:54-58 | one more request keeps the count and the ranks of the run |
| CombinatoricsCount.CountedShort | Common/Combinatorics.cs:54-56 | a consumer that asks for at most one item gets the current combination |
| CombinatoricsCount.RunCount | Common/Combinatorics.cs:52-123 | from a valid state the run hands out consecutive ranks, and exactly as many items as are asked for or as remain up to the last rank |
| CombinatoricsCount.RankedDistinct | Common/Combinatorics.cs:9-17 | items ranked 0, 1, 2, ... are pairwise distinct |
| CombinatoricsCount.RankedComplete | Common/Combinatorics.cs:9-17 | C(n, t) distinct ranked t-combinations hold every t-combination |
| CombinatoricsCount.CombinationsComplete | Common/Combinatorics.cs:9-17 | for 0 <= r <= n the consumer gets min(limit, C(n, r)) pairwise distinct items, and one that asks for C(n, r) or more gets every r-subset of {0, ..., n-1} exactly once, after which the enumeration ends |
| CombinatoricsCount.ToEndStep | Common/Combinatorics.cs:52-123 | R2 and the step after it keep the loop state of a consumer that reads to the end |
| CombinatoricsCount.RanksAppend | Common/Combinatorics.cs:56-92 | an item whose rank is the number of items so far keeps the ranks consecutive |
| CombinatoricsCount.RunToEnd | Common/Combinatorics.cs:41-123 | the loop read to the end terminates without fuel, after exactly C(n, t) pairwise distinct items that include every t-combination |
| Interval.NonZeroComponents | Common/Interval.cs:87-91 | the constructor's count of non-zero components is at most 4 |
| Interval.OneSecond | Common/Interval.cs:15 | one second has a single non-zero component |
| Interval.NewInterval | Common/Interval.cs:85-97 | an accepted span is kept as given, and a refused one raises ArgumentException |
| Interval.NewIntervalAccepts | Common/Interval.cs:85-97 | the constructor accepts a span exactly when one of its Seconds, Minutes, Hours and Days is non-zero, and an accepted span is never zero |
| Interval.ZeroSpanRefused | Common/Interval.cs:87-94 | the zero span has no non-zero component, so the constructor refuses it |
| Interval.PredefinedIntervals | Common/Interval.cs:15-19 | Second, Minute, TenMinute, Hour and Day are accepted, and one hour and one second is refused (the test of the private constructor) |
| Interval.ComponentCount | Common/Interval.cs:87-91 | for a span built from whole days, hours, minutes and seconds, the count is the number of those that are non-zero |
| Interval.ComponentsOf | Common/Interval.cs:87-91 | TimeSpan.Seconds, Minutes, Hours and Days of such a span are its seconds, minutes, hours and days |
| Interval.PositiveSpanComponents | Common/Interval.cs:48-68 | on a non-negative span the components are plain quotients and remainders |
| Interval.DayOfYear | Common/Interval.cs:67 | the zero-based day of the year of a day number lies within its year's length |
| Interval.DayOfCycle | Common/Interval.cs:67 | within a 400-year cycle the day of the year lies within its year's length |
| Interval.DayOfCentury | Common/Interval.cs:67 | within a century the day of the year lies within its year's length |
| Interval.DayOfQuad | Common/Interval.cs:67 | within a 4-year cycle the day of the year lies within its year's length |
| Interval.DayInMonth | Common/Interval.cs:67 | the day of the month found from the cumulative month lengths is between 1 and the day of the year plus one |
| Interval.DayOfMonth | Common/Interval.cs:67 | DateTime.Day is at least 1 and no more than one plus the day number |
| Interval.Truncate | Common/Interval.cs:46-70 | a successful truncation is never later than the time |
| Interval.RoundTo | Common/Interval.cs:50-67 | the source's c / k * k on a non-negative component is c rounded down to a multiple of abs(k) |
| Interval.TruncateSeconds | Common/Interval.cs:48-53 | never later than the time |
| Interval.TruncateMinutes | Common/Interval.cs:54-59 | never later than the time |
| Interval.TruncateHours | Common/Interval.cs:60-64 | never later than the time |
| Interval.TruncateDays | Common/Interval.cs:65-69 | never later than the time, and fails (new DateTime with day 0) exactly when the day of the month is below abs(Span.Days) |
| Interval.FieldsBelow | Common/Interval.cs:51-63 | a time of day built from fields no larger than the time's lies between its day start and the time |
| Interval.TimeParts | Common/Interval.cs:51 | a time is its day start plus its hours, minutes, seconds and the ticks below a second |
| Interval.RoundsToZero | Common/Interval.cs:67 | a component rounds down to 0 exactly when it is below abs(k) |
| Interval.TopOfCurrentOrNext | Common/Interval.cs:37-41 | the result is a multiple of the span; for a positive span it is the time or the next multiple after it, for a negative span it steps back; it fails with ArgumentOutOfRangeException exactly when that tick count is not a valid DateTime |
| Interval.TicksRem | Common/Interval.cs:39 | C#'s time.Ticks % Span.Ticks on a non-negative tick count is the remainder by abs(span) |
| Interval.NextTop | Common/Interval.cs:40 | away from a multiple, the time rounded down plus the span is a multiple, strictly after the time and less than a span later (for a positive span) |
| Interval.Factor | Common/Interval.cs:48-68 | the component Truncate rounds by is non-zero |
| Interval.Unit | Common/Interval.cs:48-68 | the tick length of that component's unit is positive |
| Interval.TruncateRoundsDown | Common/Interval.cs:46-70 | Truncate fails exactly in the day case when the day of the month is below abs(Span.Days); otherwise it lands on a multiple of the unit less than abs(k) units before the time, and leaves the time alone exactly when the time is on a unit boundary whose field is a multiple of abs(k) |
| Interval.TruncateIdempotent | Common/Interval.cs:46-70 | truncating a truncated time changes nothing, and for seconds, minutes and hours Truncate never fails |
| Interval.TruncateDaysTwice | Common/Interval.cs:65-69 | the day case of idempotence: the truncated day of the month is already a multiple of abs(k) |
| Interval.TruncateDaysFields | Common/Interval.cs:65-69 | truncating to days gives midnight of the day of the same month that is the day of the month rounded down to a multiple of abs(k) |
| Interval.DaysBack | Common/Interval.cs:67-68 | going back j whole days, while j is below the day of the month, lowers the day of the month by j |
| Interval.DayBefore | Common/Interval.cs:67-68 | the day before a day that is not the first of its month is the previous day of that month |
| Interval.DayInMonthBack | Common/Interval.cs:67 | in the month table, the day of the year before a day other than the first of its month is the previous day of that month |
| Interval.DayOfYearBack | Common/Interval.cs:67 | the day before a day of the year other than the first lies in the same year |
| Interval.DayOfCycleBack | Common/Interval.cs:67 | the same within a 400-year cycle |
| Interval.DayOfCenturyBack | Common/Interval.cs:67 | the same within a century |
| Interval.DayOfQuadBack | Common/Interval.cs:67 | the same within a 4-year cycle |
| Interval.RoundedIsMultiple | Common/Interval.cs:50-67 | c / k * k is a multiple of abs(k) |
| Interval.IsAtTopIffAligned | Common/Interval.cs:29-32 | IsAtTop is true exactly when the time is on a unit boundary whose field is a multiple of abs(k), and fails only where Truncate does |
| Interval.SameIntervalIsClose | Common/Interval.cs:75-78 | the relation is symmetric, holds between a time and itself, and two times in the same interval are less than abs(k) units apart |
| Interval.TruncateErrors | Common/Interval.cs:67-68 | Truncate fails only with ArgumentOutOfRangeException |
| Interval.SameIntervalAsTruncation | Common/Interval.cs:29-78 | for seconds, minutes and hours, a time is in the same interval as its truncation, and the truncation is at the top |
| Interval.TopOfCurrentOrNextIdempotent | Common/Interval.cs:37-41 | the time comes back unchanged exactly when it is a multiple of the span, so applying TopOfCurrentOrNext twice is applying it once |
| Interval.TruncateSecondsGap | Common/Interval.cs:48-53 | the result is on a whole second less than abs(k) seconds before the time, and equals it exactly when the time is on a whole second that is a multiple of abs(k) |
| Interval.TruncateMinutesGap | Common/Interval.cs:54-59 | the same for minutes |
| Interval.TruncateHoursGap | Common/Interval.cs:60-64 | the same for hours |
| Interval.TruncateDaysGap | Common/Interval.cs:65-69 | the same for days of the month, when it succeeds |
| Interval.RoundingGap | Common/Interval.cs:50-67 | the distance from a time to its truncation is the rounded-off part of the field plus the finer part, below abs(k) units, and zero exactly when both are zero |
| Interval.TruncateSecondsFields | Common/Interval.cs:51-52 | the date, hour and minute are kept and the second is rounded down |
| Interval.TruncateMinutesFields | Common/Interval.cs:57-58 | the date and hour are kept, the minute is rounded down and the second is 0 |
| Interval.TruncateHoursFields | Common/Interval.cs:63 | the date is kept, the hour is rounded down and the minute and second are 0 |
| Interval.DayStartIsWholeDays | Common/Interval.cs:68 | DateTime.Date is the whole days of the tick count |
| Interval.TimeOf | Common/Interval.cs:51-63 | the fields of a time assembled from a day number, an hour, a minute, a second and finer ticks are those parts |
| Interval.RoundDown | Common/Interval.cs:50-67 | on a non-negative component the source's truncating c / k * k is the Euclidean rounding down to a multiple of abs(k) |
| Interval.DecomposeTime | Common/Interval.cs:51-63 | a time is its day start plus its hour, minute and finer parts |
| Interval.RemainderOfNonNegative | Common/Interval.cs:39 | on a non-negative dividend C#'s % is the Euclidean remainder by abs(span) |
| Interval.MultipleShift | Common/Interval.cs:40 | rounding down to a multiple of abs(span) and stepping by span stays on a multiple |
| IntervalExamples.HourOf | Common.UnitTests/IntervalTest.cs:62-108 | a time assembled from a day number in 2011, an hour, a minute and a second has those fields |
| IntervalExamples.TruncateBySecond | Common/Interval.cs:15-53 | the Second interval keeps every field of a time down to its whole second |
| IntervalExamples.TruncateByMinute | Common/Interval.cs:16-59 | the Minute interval keeps every field down to its whole minute |
| IntervalExamples.TruncateByHour | Common/Interval.cs:18-64 | the Hour interval keeps every field down to its whole hour |
| IntervalExamples.TruncateByDayOnFirst | Common/Interval.cs:19-69 | on the first of a month the Day interval truncates to midnight |
| IntervalExamples.HourTruncateCases | Common.UnitTests/IntervalTest.cs:93-138 | 05:30 truncates to 05:00 by the hour, and 05:00 is at the top while 05:30 is not |
| IntervalExamples.FirstOfJanuary2011 | Common.UnitTests/IntervalTest.cs:89-92 | 2011-01-01 is the first day of its month in the Gregorian calendar |
| IntervalExamples.DayTruncateCases | Common.UnitTests/IntervalTest.cs:89-138 | noon of 2011-01-01 truncates to midnight by the day, and midnight is at the top |
| IntervalExamples.MinuteSecondTruncateCases | Common.UnitTests/IntervalTest.cs:97-138 | the unit test's minute and second cases: 05:15:45 truncates to 05:15:00, and a time one tick after 05:15:05 is not at the top of its second and truncates to 05:15:05 |
| IntervalExamples.TopOfCurrentOrNextCases | Common.UnitTests/IntervalTest.cs:155-168 | with a five-second interval, 05:00:56 moves to 05:01:00, which stays where it is |
| IntervalExamples.FiveSecondSteps | Common.UnitTests/IntervalTest.cs:155-168 | the same, for any interval whose span is five seconds |
| IntervalExamples.FiveSecondRemainders | Common.UnitTests/IntervalTest.cs:155-168 | the remainders the test's two times leave modulo five seconds: one second and zero |
| IntervalExamples.SameIntervalOf | Common/Interval.cs:75-78 | AreWithinSameInterval compares the two truncations |
| IntervalExamples.SameMinuteCases | Common.UnitTests/IntervalTest.cs:59-86 | 01:00:59 is in the same minute as 01:00 but not in the same second |
| IntervalExamples.SameDayCases | Common.UnitTests/IntervalTest.cs:59-86 | 02:00 is in the same day as 01:00 but not in the same hour |
| RepeatedEventLogEntryFilter.ReportedAppend | Common/RepeatedEventLogEntryFilter.cs:91-164 | the occurrences a log accounts for add up over concatenation |
| RepeatedEventLogEntryFilter.RepeatedEventLogEntryFilter.constructor | Common/RepeatedEventLogEntryFilter.cs:28-68 | a new filter tracks nothing, has forwarded nothing, has its timer stopped, and accounts for every occurrence |
| RepeatedEventLogEntryFilter.RepeatedEventLogEntryFilter.WriteEntry | Common/RepeatedEventLogEntryFilter.cs:78-97 | a tracked message gets its count raised (wrapping at 32 bits) and its last occurrence set, with nothing forwarded; a new message is forwarded at once and tracked with count 0 and both times set to now; the timer is started; every occurrence stays accounted for while the count does not wrap |
| RepeatedEventLogEntryFilter.RepeatedEventLogEntryFilter.ManageRepeatedEntries | Common/RepeatedEventLogEntryFilter.cs:108-174 | every tracked entry is replaced by its managed state or removed, the log grows by the records of the pass in key order, the timer is restarted exactly when entries remain, and every occurrence stays accounted for |
| RepeatedEventLogEntryFilter.RepeatedEventLogEntryFilter.ManageOne | Common/RepeatedEventLogEntryFilter.cs:115-168 | one turn of the loop: the message's entry is replaced or removed and its record, if any, appended, and nothing else changes |
| RepeatedEventLogEntryFilter.RepeatedEventLogEntryFilter.ManageAt | Common/RepeatedEventLogEntryFilter.cs:113-168 | the i-th turn of the loop over the keys: the managed prefix of the keys grows by keys[i], its record is appended to the log, and the written counts and the accounting invariant are kept |
| RepeatedEventLogEntryFilter.PartialUntouched | Common/RepeatedEventLogEntryFilter.cs:113-169 | a message not yet visited in the pass keeps its entry |
| RepeatedEventLogEntryFilter.PartialStep | Common/RepeatedEventLogEntryFilter.cs:113-169 | visiting one more message replaces or removes its entry and leaves the other entries as they were |
| RepeatedEventLogEntryFilter.ReportsStep | Common/RepeatedEventLogEntryFilter.cs:113-169 | visiting one more message appends its record, if any, to the records of the pass |
| RepeatedEventLogEntryFilter.PartialComplete | Common/RepeatedEventLogEntryFilter.cs:113-169 | after visiting every key, the entries are the managed entries |
| RepeatedEventLogEntryFilter.ManageAccounted | Common/RepeatedEventLogEntryFilter.cs:115-168 | one management step keeps every occurrence of every message accounted for, as either reported or pending |
| RepeatedEventLogEntryFilter.AccountedTransfer | Common/RepeatedEventLogEntryFilter.cs:129-166 | moving a pending count into the log keeps every occurrence accounted for |
| RepeatedEventLogEntryFilter.WriteAccounted | Common/RepeatedEventLogEntryFilter.cs:84-94 | a write keeps every occurrence accounted for while the pending count does not wrap |
| RepeatedEventLogEntryFilter.RepeatAccounted | Common/RepeatedEventLogEntryFilter.cs:84-88 | a repeat of a tracked message is accounted for by its raised pending count |
| RepeatedEventLogEntryFilter.FirstAccounted | Common/RepeatedEventLogEntryFilter.cs:89-94 | the first occurrence of a message is accounted for by the record forwarded at once |
| RepeatedEventLogEntryFilter.ManageConserves | Common/RepeatedEventLogEntryFilter.cs:120-166 | the count a step reports plus the count it leaves pending is the count pending before, and no count becomes negative |
| RepeatedEventLogEntryFilter.ManageReportsPending | Common/RepeatedEventLogEntryFilter.cs:116-168 | a record is forwarded exactly when repeats are pending a minute after the report in the first phase, when repeats are pending after a minute of quiet in the second, or an hour after the last report while the message keeps occurring; the record carries the message, the pending count and the severity; an entry kept after a report has count 0 and was reported now; an entry with no report is unchanged |
| RepeatedEventLogEntryFilter.ManageRemovesQuiet | Common/RepeatedEventLogEntryFilter.cs:118-156 | an entry is removed exactly when, in the first phase, a minute has passed since its report with no repeat, or, in the second, a minute has passed since its last occurrence |
| RepeatedEventLogEntryFilter.QuietMessageRetires | Common/RepeatedEventLogEntryFilter.cs:116-156 | a message quiet for a minute is gone after at most two passes, the first more than a minute after its last report |
| RepeatedEventLogEntryFilter.RepeatScenario | Common/RepeatedEventLogEntryFilter.cs:14-20 | a message written twice within a second is forwarded once, summarised with one repeat after a minute, then dropped, which leaves the timer stopped |
| RepeatedEventLogEntryFilter.ScenarioFirstPass | Common/RepeatedEventLogEntryFilter.cs:116-136 | the first pass of that scenario forwards the summary and moves the entry to the second phase |
| RepeatedEventLogEntryFilter.ScenarioSecondPass | Common/RepeatedEventLogEntryFilter.cs:139-156 | the second pass removes the entry and forwards nothing |
| RepeatedEventLogEntryFilter.SingleEntryPass | Common/RepeatedEventLogEntryFilter.cs:113-169 | a pass over a single tracked message gives its managed entry and its record |

## Left out

- Frames.Frame.Compile: when a member's `Configure` throws part-way, the model leaves the frame as it was. In the program, the members configured before the failing one keep their new offsets, counts and element arrays. A buffer that the `Buffer` getter allocated during a count read also stays.
- Frames.Frame.Compile: the empty virtual hook `OnCompileCompleted` (Common/BinaryFormatter.cs:91,106) is not modelled, because no subclass exists to override it.
- BinaryConverters.GetBytes: a string field holds its UTF-8 bytes. No encoding is modelled. A .NET string that is not valid UTF-16 (a lone surrogate) would be encoded with replacement characters.
- BinaryConverters.GetValue: a string field is read back as its bytes up to the first zero. No decoding is modelled. An invalid UTF-8 sequence would become U+FFFD in .NET, so the string round trip (`GetBytesOfGetValue`) holds here only because decoding is the identity.
- FrameLayout.LayOut: an array's count function is either a constant or the value of an earlier integral `Field` of the same structure. Other count lambdas, and reads of later siblings (which the program would see with stale offsets), are not modelled.
- FrameLayout.LayOut: reflection over a structure's public fields (`FieldStructure.GetFields`, `BitmappedField.BitFields`) becomes an explicit member list in declaration order.
- Combinatorics.Enumeration: each `yield return c.Skip(1).Take(t)` is a lazy view over the one array that the enumerator keeps changing. The model yields a snapshot of that array at the moment of the yield. A consumer that keeps a yielded item past the next `MoveNext` would see it change in the program, but not in the model.
- StringExtensions.RemoveFromEnd: the program tests the suffix with the culture-sensitive `String.EndsWith(string)`. The model compares characters ordinally, so ignorable characters and culture-specific equivalences are not modelled.
- CsvWriter.FormatDelimiterSeparatedValue: the program uses the culture-sensitive `String.StartsWith(string)` for the quote test. The model compares characters ordinally.
- CsvWriter.CSVWriter.constructor: only the constructor over a stream is modelled. The constructor that opens a file by path, `Dispose`, the `StreamWriter`, `WriteField(double)` and the `RealNumberFormatString` formatting of floating-point numbers are not modelled. The written text is the stream's only state modelled.
- DependantInvoker.IDDependantInvoker.Add: the class takes no lock, and the model is single-threaded, so concurrent callbacks racing on the counter and the id set are not modelled.
- DependantInvoker.IDDependantInvoker.Fullfill: the action is a run counter. An exception thrown by the action, which in the program leaves the counter unreset, is not modelled. The model is single-threaded.
- DependantInvoker.CountDependantInvoker.Add: the model is single-threaded, so two unsynchronised increments that lose one are not modelled.
- DependantInvoker.CountDependantInvoker.Fullfill: the action is a run counter, and an exception it throws is not modelled. The model is single-threaded.
- DependantInvoker.UniqueObjectDependantInvoker.Fullfill: the action is a run counter, and an exception it throws is not modelled. The model is single-threaded.
- RepeatedEventLogEntryFilter.RepeatedEventLogEntryFilter.WriteEntry: the lock, the `System.Timers.Timer` (a flag saying whether it is armed), the `EventLog` object and the formatted message text (a record kind with its count and time) are not modelled. The clock reading is a parameter.
- Interval.TopOfCurrentOrNext: `default(Interval)` has a zero `Span`. On it, `TopOfCurrentOrNext` throws `DivideByZeroException` and `Truncate` does the same in its days branch. The subset type `ValidInterval` excludes it, because every `Interval` the constructor builds has exactly one non-zero component.
- Interval.Truncate: the `DateTimeKind` of the argument is carried by the program into the result. The model has no kind.
- Interval.Truncate: a `DateTime` is a tick count from 0 to `DateTime.MaxValue.Ticks`. The only `new DateTime` error that the model can reach is a day of 0 in the days branch.
- Null references are not modelled, except a null string value in a string field: `ArgumentNullException`, and the `NullReferenceException` that a null argument string, array, delegate or frame would raise.
- The reflection extensions `IsOn<T>` and `Get<T>` read custom attributes through reflection. They are not modelled.
- The extensions `IfIsA` (runtime type tests) and `DeepCopy`/`DeepCompare` (a round trip through `DataContractSerializer`) are not modelled.
- The URL helpers `SortQueryString` and `UrlEncodeQueryString` are wrappers over `HttpUtility` and `Uri`. They are not modelled.
- The string extensions `Split<T>(converter)` (an arbitrary delegate) and `ReplaceAll` (regular expressions) are not modelled.
- `Single` and `Double` fields are their IEEE-754 bit patterns. The bytes round-trip, but no floating-point arithmetic is modelled.
- Frames.Frame.WriteToStream: the stream is the sequence of bytes written to it.
- `ToString` overrides, implicit conversion operators and the `IEnumerable`/`GetEnumerator` plumbing are not modelled. One exception: `HashBuilder.GetEnumerator`, which throws, is modelled as an error.
- The `TimeSpan.Parse` constants (Common/Constants.cs:20-25) are not modelled.
- The rest of the repository is not part of this model: configuration files, serialisers, IPC, schedulers, timers, filters, phasors, enum and reflection helpers, and process and file-system helpers.

## Findings

| source | as written | input that shows it | evidently intended | confidence | as-written member | corrected member |
|---|---|---|---|---|---|---|
| Common/Combinatorics.cs:41-56 | no check that r <= n: with 2 <= r and n < r, the first item is 0, 1, ..., r-1 | `Combinations(1, 2)` yields `[0, 1]`, which is not a 2-subset of {0} | yield nothing, as there is no r-subset of fewer than r items | high, not executed | Combinatorics.FewerItemsThanChosen | Combinatorics.GuardedOnlyCombinations |
| Common/BinaryFormatter.cs:599,603-604 | a field of 32 bits computes its mask as `(1 << 32) - 1`, and C# masks the shift count, so the mask is 0 | a 32-bit field of the unit 1 reads 0; writing 2 into the unit 1 leaves 3 | the whole-unit mask 0xFFFFFFFF, so that a read returns the unit and a write replaces it | high, not executed | BitFields.FullWidthFieldReadsZero | BitFields.FullWidthRoundTrip |

The frame's bit accessors (`Frames.Frame.ReadBits`, `Frames.Frame.WriteBits`) keep the program's mask, as written. `BitFields.AsWrittenAgrees` proves that the program's mask and the corrected one agree on every width below 32.
