/** The complex frame of BinaryFormatterTest: a UInt16 Number, a byte array of Number
    bytes and Number structures, each holding an Int16 Number, one bitmapped byte and
    Number more bitmapped bytes (bit fields of 3, 1 and 4 bits). The frame converts from
    network order, on a little-endian host. */
module FrameExamples {
  import opened Wrappers
  import opened Integers
  import opened BinaryConverters
  import opened FieldAccess
  import opened FrameLayout
  import opened Frames
  import opened BitFields
  import opened BitArithmetic

  /** MyBitmappedField: a Bitmapped1Byte with AThreeBitField, ABit and AFourBitField. */
  const MyBitmapped := FieldDecl(ByteConverter, [3, 1, 4])
  const NumberField := FieldDecl(UInt16Converter, [])
  const StructureNumber := FieldDecl(Int16Converter, [])

  /** ComplexStructure: Number, OneBitmapped and ManyBitmappeds (Number of them). */
  const StructureMembers: seq<Member> :=
    [Scalar(StructureNumber), Scalar(MyBitmapped), Bitmappeds(MyBitmapped, FieldValue(0))]

  /** ComplexFrame: Number, SomeBytes (Number bytes) and Structures (Number of them). */
  const ComplexMembers: seq<Member> :=
    [Scalar(NumberField), Array(ByteConverter, FieldValue(0)), Structures(StructureMembers, FieldValue(0))]

  const ComplexBytes: seq<Byte> :=
    [0x00, 0x02, 0x42, 0x24, 0x00, 0x03, 0xab, 0xf0, 0xe9, 0xd2, 0x00, 0x01, 0x00, 0xff]

  /** BaseFrame passes true for networkToHostConversionRequired. */
  const Network := Order(true, true)

  /** The state the constructor leaves: only Number was assigned when Frame's
      constructor compiled, so the two arrays are still unconfigured. */
  const Constructed: seq<Node> := [FieldNode(NumberField, 0), Unconfigured, Unconfigured]

  /** The first structure: Number 3 at 4, OneBitmapped at 6, three units at 7, 8 and 9. */
  const First: seq<Node> :=
    [FieldNode(StructureNumber, 4), FieldNode(MyBitmapped, 6), BitmappedsNode(MyBitmapped, 7, 0, [7, 8, 9], 10)]

  /** The second structure: Number 1 at 10, OneBitmapped at 12, one unit at 13. */
  const Second: seq<Node> :=
    [FieldNode(StructureNumber, 10), FieldNode(MyBitmapped, 12), BitmappedsNode(MyBitmapped, 13, 0, [13], 14)]

  /** The complex frame after Compile on ComplexBytes. */
  const Compiled: seq<Node> :=
    [FieldNode(NumberField, 0), ArrayNode(ByteConverter, 2, 2),
     StructuresNode(4, 0, [Structure(4, First, 6), Structure(10, Second, 4)], 14)]

  /** ComplexStructure's declaration is well formed: ManyBitmappeds counts by Number. */
  lemma StructureDeclared()
    ensures WellFormed(StructureMembers) && Shaped(StructureMembers, Fresh(3))
  {
    assert StructureMembers[2].count.member == 0;
  }

  /** ComplexFrame's declaration is well formed: both arrays count by Number. */
  lemma FrameDeclared()
    ensures WellFormed(StructureMembers) && WellFormed(ComplexMembers)
    ensures Shaped(ComplexMembers, Constructed) && Shaped(ComplexMembers, Fresh(3))
  {
    StructureDeclared();
    assert ComplexMembers[2].members == StructureMembers;
  }

  /** Configuring a new ComplexStructure at offset o whose Number reads k: Number, then
      OneBitmapped, then k units of one byte each, 3 + k bytes in all; the count was read
      from the buffer. */
  lemma StructureLayout(o: Int32, k: Int32, env: Env)
    requires 0 <= o && 0 <= k && o + 3 + k < 0x1_0000
    requires env.view.Ok? && ReadSlot(Slot(Int16Converter, o, true), env.view.value, env.order) == Ok(Num(k))
    ensures WellFormed(StructureMembers) && Shaped(StructureMembers, Fresh(3))
    ensures LayOut(StructureMembers, 3, Fresh(3), o, env) ==
      Ok(Laid([FieldNode(StructureNumber, o), FieldNode(MyBitmapped, o + 2),
               BitmappedsNode(MyBitmapped, o + 3, 0, ElementOffsets(o + 3, 1, k), o + 3 + k)], 3 + k, true))
  {
    StructureDeclared();
    NumberPlaced(o, env);
    OneBitmappedPlaced(o, env);
    ManyBitmappedsPlaced(o, k, env);
  }

  /** Number goes first, at the structure's start. */
  lemma NumberPlaced(o: Int32, env: Env)
    requires 0 <= o < 0x1_0000
    ensures WellFormed(StructureMembers) && Shaped(StructureMembers, Fresh(3))
    ensures Configured(StructureMembers, [FieldNode(StructureNumber, o)])
    ensures LayOut(StructureMembers, 3, Fresh(3), o, env) ==
      LayOutFrom(StructureMembers, 3, Fresh(3), o, 1, o + 2, [FieldNode(StructureNumber, o)], false, env)
  {
    StructureDeclared();
    var n0 := FieldNode(StructureNumber, o);
    MemberReadyAt(StructureMembers, Fresh(3), 0, []);
    LayOutFromContinues(StructureMembers, 3, Fresh(3), o, 0, o, [], false, env, Placed(n0, 2, false));
    assert [] + [n0] == [n0];
  }

  /** OneBitmapped follows Number's two bytes. */
  lemma OneBitmappedPlaced(o: Int32, env: Env)
    requires 0 <= o < 0x1_0000
    ensures WellFormed(StructureMembers) && Shaped(StructureMembers, Fresh(3))
    ensures Configured(StructureMembers, [FieldNode(StructureNumber, o)])
    ensures Configured(StructureMembers, [FieldNode(StructureNumber, o), FieldNode(MyBitmapped, o + 2)])
    ensures LayOutFrom(StructureMembers, 3, Fresh(3), o, 1, o + 2, [FieldNode(StructureNumber, o)], false, env) ==
      LayOutFrom(StructureMembers, 3, Fresh(3), o, 2, o + 3,
                 [FieldNode(StructureNumber, o), FieldNode(MyBitmapped, o + 2)], false, env)
  {
    StructureDeclared();
    var n0, n1 := FieldNode(StructureNumber, o), FieldNode(MyBitmapped, o + 2);
    assert Configured(StructureMembers, [n0]);
    MemberReadyAt(StructureMembers, Fresh(3), 1, [n0]);
    LayOutFromContinues(StructureMembers, 3, Fresh(3), o, 1, o + 2, [n0], false, env, Placed(n1, 1, false));
    assert [n0] + [n1] == [n0, n1];
  }

  /** ManyBitmappeds follows OneBitmapped's byte, and the structure ends after it. */
  lemma ManyBitmappedsPlaced(o: Int32, k: Int32, env: Env)
    requires 0 <= o && 0 <= k && o + 3 + k < 0x1_0000
    requires env.view.Ok? && ReadSlot(Slot(Int16Converter, o, true), env.view.value, env.order) == Ok(Num(k))
    ensures WellFormed(StructureMembers) && Shaped(StructureMembers, Fresh(3))
    ensures Configured(StructureMembers, [FieldNode(StructureNumber, o), FieldNode(MyBitmapped, o + 2)])
    ensures LayOutFrom(StructureMembers, 3, Fresh(3), o, 2, o + 3,
                       [FieldNode(StructureNumber, o), FieldNode(MyBitmapped, o + 2)], false, env) ==
      Ok(Laid([FieldNode(StructureNumber, o), FieldNode(MyBitmapped, o + 2),
               BitmappedsNode(MyBitmapped, o + 3, 0, ElementOffsets(o + 3, 1, k), o + 3 + k)], 3 + k, true))
  {
    StructureDeclared();
    var ms, prior := StructureMembers, Fresh(3);
    var n0, n1 := FieldNode(StructureNumber, o), FieldNode(MyBitmapped, o + 2);
    var n2 := BitmappedsNode(MyBitmapped, o + 3, 0, ElementOffsets(o + 3, 1, k), o + 3 + k);
    assert Configured(ms, [n0, n1]);
    MemberReadyAt(ms, prior, 2, [n0, n1]);
    ManyBitmappedsLayout(o, k, env, [n0, n1]);
    StructureEnds(o, k, env);
    LayOutFromContinues(ms, 3, prior, o, 2, o + 3, [n0, n1], false, env, Placed(n2, k, true));
  }

  /** After ManyBitmappeds the structure is complete: 3 + k bytes. */
  lemma StructureEnds(o: Int32, k: Int32, env: Env)
    requires 0 <= o && 0 <= k && o + 3 + k < 0x1_0000
    ensures WellFormed(StructureMembers) && Shaped(StructureMembers, Fresh(3))
    ensures var n0, n1 := FieldNode(StructureNumber, o), FieldNode(MyBitmapped, o + 2);
      var n2 := BitmappedsNode(MyBitmapped, o + 3, 0, ElementOffsets(o + 3, 1, k), o + 3 + k);
      Configured(StructureMembers, [n0, n1] + [n2]) &&
      LayOutFrom(StructureMembers, 3, Fresh(3), o, 3, Wrap32(o + 3 + k), [n0, n1] + [n2], false || true, env) ==
        Ok(Laid([n0, n1, n2], 3 + k, true))
  {
    StructureDeclared();
    var n0, n1 := FieldNode(StructureNumber, o), FieldNode(MyBitmapped, o + 2);
    var n2 := BitmappedsNode(MyBitmapped, o + 3, 0, ElementOffsets(o + 3, 1, k), o + 3 + k);
    assert [n0, n1] + [n2] == [n0, n1, n2];
    assert Configured(StructureMembers, [n0, n1, n2]);
    assert [n0, n1, n2] + Fresh(3)[3..] == [n0, n1, n2];
  }

  /** ManyBitmappeds of a new ComplexStructure at offset o whose Number reads k: k
      one-byte units from o + 3. */
  lemma ManyBitmappedsLayout(o: Int32, k: Int32, env: Env, siblings: seq<Node>)
    requires 0 <= o && 0 <= k && o + 3 + k < 0x1_0000
    requires env.view.Ok? && ReadSlot(Slot(Int16Converter, o, true), env.view.value, env.order) == Ok(Num(k))
    requires siblings == [FieldNode(StructureNumber, o), FieldNode(MyBitmapped, o + 2)]
    ensures StructureMembers[2] == Bitmappeds(MyBitmapped, FieldValue(0))
    ensures MemberReady(StructureMembers[2], Unconfigured, siblings)
    ensures LayOutMember(StructureMembers[2], Unconfigured, o + 3, siblings, env) ==
      Ok(Placed(BitmappedsNode(MyBitmapped, o + 3, 0, ElementOffsets(o + 3, 1, k), o + 3 + k), k, true))
  {
    assert EvalCount(FieldValue(0), siblings, env) == Ok((k, true));
    ElementsEndAt(o + 3, 1, k);
  }

  /** The Int16 Numbers of the two structures, in network order. */
  lemma StructureNumbers()
    ensures ReadSlot(Slot(Int16Converter, 4, true), ComplexBytes, Network) == Ok(Num(3))
    ensures ReadSlot(Slot(Int16Converter, 10, true), ComplexBytes, Network) == Ok(Num(1))
  {
    assert FieldBytes(Slot(Int16Converter, 4, true), ComplexBytes, Network) == [0x03, 0x00];
    assert FieldBytes(Slot(Int16Converter, 10, true), ComplexBytes, Network) == [0x01, 0x00];
  }

  /** The frame's Number, in network order. */
  lemma FrameNumber()
    ensures ReadSlot(Slot(UInt16Converter, 0, true), ComplexBytes, Network) == Ok(Num(2))
  {
    assert FieldBytes(Slot(UInt16Converter, 0, true), ComplexBytes, Network) == [0x02, 0x00];
  }

  /** The first structure, at 4: Number 3, so three units and 6 bytes. */
  lemma FirstStructure()
    ensures WellFormed(StructureMembers) && Shaped(StructureMembers, Fresh(3))
    ensures LayOut(StructureMembers, 3, Fresh(3), 4, Env(Ok(ComplexBytes), Network)) == Ok(Laid(First, 6, true))
  {
    StructureNumbers();
    StructureLayout(4, 3, Env(Ok(ComplexBytes), Network));
    assert ElementOffsets(7, 1, 3) == [7, 8, 9];
  }

  /** The second structure, at 10: Number 1, so one unit and 4 bytes. */
  lemma SecondStructure()
    ensures WellFormed(StructureMembers) && Shaped(StructureMembers, Fresh(3))
    ensures LayOut(StructureMembers, 3, Fresh(3), 10, Env(Ok(ComplexBytes), Network)) == Ok(Laid(Second, 4, true))
  {
    StructureNumbers();
    StructureLayout(10, 1, Env(Ok(ComplexBytes), Network));
    assert ElementOffsets(13, 1, 1) == [13];
  }

  /** The two structures follow one another from offset 4: the first of 6 bytes, the
      second of 4. */
  lemma StructureElements(priors: seq<seq<Node>>)
    requires priors == [Fresh(3), Fresh(3)]
    ensures WellFormed(StructureMembers) && forall p | p in priors :: Shaped(StructureMembers, p)
    ensures LayOutElements(StructureMembers, priors, 0, 4, [], true, Env(Ok(ComplexBytes), Network)) ==
      Ok(ElementsLaid([Structure(4, First, 6), Structure(10, Second, 4)], 14, true))
  {
    StructureDeclared();
    var env := Env(Ok(ComplexBytes), Network);
    var ms := StructureMembers;
    var e0, e1 := Structure(4, First, 6), Structure(10, Second, 4);
    FirstStructure();
    LayOutElementsUnfold(ms, priors, 0, 4, [], true, env);
    assert [] + [e0] == [e0];
    SecondStructure();
    LayOutElementsUnfold(ms, priors, 1, 10, [e0], true, env);
    assert [e0] + [e1] == [e0, e1];
  }

  /** The structure array: two structures, the first at 4 of 6 bytes and the second at 10
      of 4 bytes, ending at 14. */
  lemma StructuresLayout(siblings: seq<Node>)
    requires siblings == [FieldNode(NumberField, 0), ArrayNode(ByteConverter, 2, 2)]
    ensures WellFormed(StructureMembers) && MemberReady(ComplexMembers[2], Unconfigured, siblings)
    ensures LayOutMember(ComplexMembers[2], Unconfigured, 4, siblings, Env(Ok(ComplexBytes), Network)) ==
      Ok(Placed(Compiled[2], 10, true))
  {
    StructureDeclared();
    var env := Env(Ok(ComplexBytes), Network);
    var ms := StructureMembers;
    FrameNumber();
    assert EvalCount(FieldValue(0), siblings, env) == Ok((2, true));
    var priors := ElementPriors(ms, Unconfigured, 2);
    assert priors == [Fresh(3), Fresh(3)];
    StructureElements(priors);
    LayOutStructuresUnfold(ms, FieldValue(0), Unconfigured, 4, siblings, env, 2, true);
  }

  /** The frame's Number goes first, at 0. */
  lemma FrameNumberPlaced()
    ensures WellFormed(ComplexMembers) && Shaped(ComplexMembers, Constructed)
    ensures Configured(ComplexMembers, [Compiled[0]])
    ensures LayOut(ComplexMembers, 3, Constructed, 0, Env(Ok(ComplexBytes), Network)) ==
      LayOutFrom(ComplexMembers, 3, Constructed, 0, 1, 2, [Compiled[0]], false, Env(Ok(ComplexBytes), Network))
  {
    FrameDeclared();
    var n0 := Compiled[0];
    MemberReadyAt(ComplexMembers, Constructed, 0, []);
    LayOutFromContinues(ComplexMembers, 3, Constructed, 0, 0, 0, [], false, Env(Ok(ComplexBytes), Network),
                        Placed(n0, 2, false));
    assert [] + [n0] == [n0];
  }

  /** SomeBytes's Configure: Number (2) bytes at offset 2, the count read from the
      buffer. */
  lemma SomeBytesMember()
    ensures MemberReady(ComplexMembers[1], Unconfigured, [Compiled[0]])
    ensures LayOutMember(ComplexMembers[1], Unconfigured, 2, [Compiled[0]], Env(Ok(ComplexBytes), Network)) ==
      Ok(Placed(Compiled[1], 2, true))
  {
    FrameNumber();
    assert EvalCount(FieldValue(0), [Compiled[0]], Env(Ok(ComplexBytes), Network)) == Ok((2, true));
  }

  /** SomeBytes follows, with Number (2) bytes. */
  lemma SomeBytesPlaced()
    ensures WellFormed(ComplexMembers) && Shaped(ComplexMembers, Constructed)
    ensures Configured(ComplexMembers, [Compiled[0]])
    ensures Configured(ComplexMembers, [Compiled[0], Compiled[1]])
    ensures LayOutFrom(ComplexMembers, 3, Constructed, 0, 1, 2, [Compiled[0]], false, Env(Ok(ComplexBytes), Network)) ==
      LayOutFrom(ComplexMembers, 3, Constructed, 0, 2, 4, [Compiled[0], Compiled[1]], true, Env(Ok(ComplexBytes), Network))
  {
    FrameDeclared();
    var env := Env(Ok(ComplexBytes), Network);
    var ms, prior := ComplexMembers, Constructed;
    var n0, n1 := Compiled[0], Compiled[1];
    assert Configured(ms, [n0]);
    MemberReadyAt(ms, prior, 1, [n0]);
    SomeBytesMember();
    LayOutFromContinues(ms, 3, prior, 0, 1, 2, [n0], false, env, Placed(n1, 2, true));
    assert [n0] + [n1] == [n0, n1];
  }

  /** ReadComplex's Compile: with ComplexBytes as the buffer, Compile lays the frame out as
      Compiled, 2 + 2 + (3 + 3) + (3 + 1) bytes, reading its counts from the buffer. */
  lemma ComplexLayout()
    ensures WellFormed(ComplexMembers) && Shaped(ComplexMembers, Constructed)
    ensures LayOut(ComplexMembers, 3, Constructed, 0, Env(Ok(ComplexBytes), Network)) ==
      Ok(Laid(Compiled, 14, true))
    ensures Shaped(ComplexMembers, Compiled)
  {
    var env := Env(Ok(ComplexBytes), Network);
    var ms, prior := ComplexMembers, Constructed;
    var n0, n1, n2 := Compiled[0], Compiled[1], Compiled[2];
    FrameNumberPlaced();
    SomeBytesPlaced();
    MemberReadyAt(ms, prior, 2, [n0, n1]);
    StructuresLayout([n0, n1]);
    ComplexEnds();
    LayOutFromContinues(ms, 3, prior, 0, 2, 4, [n0, n1], true, env, Placed(n2, 10, true));
  }

  /** After Structures the frame is complete: 14 bytes. */
  lemma ComplexEnds()
    ensures WellFormed(ComplexMembers) && Shaped(ComplexMembers, Constructed)
    ensures Configured(ComplexMembers, [Compiled[0], Compiled[1]] + [Compiled[2]])
    ensures LayOutFrom(ComplexMembers, 3, Constructed, 0, 3, Wrap32(4 + 10), [Compiled[0], Compiled[1]] + [Compiled[2]],
                       true || true, Env(Ok(ComplexBytes), Network)) == Ok(Laid(Compiled, 14, true))
    ensures Shaped(ComplexMembers, Compiled)
  {
    FrameDeclared();
    assert [Compiled[0], Compiled[1]] + [Compiled[2]] == Compiled;
    CompiledConfigured();
    assert Compiled + Constructed[3..] == Compiled;
  }

  /** Every node of the compiled frame is configured and has its member's shape. */
  lemma CompiledConfigured()
    ensures Configured(ComplexMembers, Compiled)
  {
    FrameDeclared();
    StructuresLayout([Compiled[0], Compiled[1]]);
    assert Configured(ComplexMembers, [Compiled[0], Compiled[1]]);
    ConfiguredStep(ComplexMembers, [Compiled[0], Compiled[1]], Compiled[2]);
    assert [Compiled[0], Compiled[1]] + [Compiled[2]] == Compiled;
  }

  /** The constructor's Compile, with only Number assigned: Number at 0, Size 2, and no
      count read from the buffer, whatever the buffer holds. */
  lemma ConstructedLayout(view: Result<seq<Byte>>)
    ensures WellFormed(ComplexMembers) && Shaped(ComplexMembers, Fresh(3))
    ensures LayOut(ComplexMembers, 1, Fresh(3), 0, Env(view, Network)) == Ok(Laid(Constructed, 2, false))
  {
    FrameDeclared();
    var ms, prior, env := ComplexMembers, Fresh(3), Env(view, Network);
    MemberReadyAt(ms, prior, 0, []);
    LayOutFromContinues(ms, 1, prior, 0, 0, 0, [], false, env, Placed(Constructed[0], 2, false));
    assert [] + [Constructed[0]] == [Constructed[0]];
    assert prior[1..] == [Unconfigured, Unconfigured];
    assert [Constructed[0]] + prior[1..] == Constructed;
  }

  // ---------------------------------------------------------------------------
  // ReadComplex's checks

  /** Structures[j].OneBitmapped is a MyBitmappedField. */
  lemma OneBitmappedRef(j: nat)
    ensures BitRefOk(ComplexMembers, FieldAt(Within(2, j, Here(1))), 2)
    ensures DeclOf(ComplexMembers, FieldAt(Within(2, j, Here(1)))) == MyBitmapped
  {
    assert ComplexMembers[2].members == StructureMembers;
    assert Target(ComplexMembers, Within(2, j, Here(1))) == StructureMembers[1];
  }

  /** Structures[j].ManyBitmappeds[k] is a MyBitmappedField. */
  lemma ManyBitmappedsRef(j: nat, k: Int32)
    ensures BitRefOk(ComplexMembers, BitmappedItemAt(Within(2, j, Here(2)), k), 2)
    ensures DeclOf(ComplexMembers, BitmappedItemAt(Within(2, j, Here(2)), k)) == MyBitmapped
  {
    assert ComplexMembers[2].members == StructureMembers;
    assert Target(ComplexMembers, Within(2, j, Here(2))) == StructureMembers[2];
  }

  /** Where Structures[j]'s members are. */
  lemma StructureNodes(j: nat, rest: Path)
    requires j < 2 && PathOk(StructureMembers, rest)
    ensures Shaped(ComplexMembers, Compiled) && PathOk(ComplexMembers, Within(2, j, rest))
    ensures Locate(ComplexMembers, Compiled, Within(2, j, rest)) ==
      Locate(StructureMembers, if j == 0 then First else Second, rest)
  {
    ComplexLayout();
    assert ComplexMembers[2].members == StructureMembers;
    assert Compiled[2].elements[j].nodes == if j == 0 then First else Second;
  }

  /** MyBitmappedField's bit fields start at bits 0, 3 and 4 of its unit. */
  lemma MyBitmappedOffsets()
    ensures BitOffset(MyBitmapped, 0) == 0 && BitOffset(MyBitmapped, 1) == 3 && BitOffset(MyBitmapped, 2) == 4
  {
    assert BitOffsets([3, 1, 4], 0) == [0, 3, 4];
  }

  /** MyBitmappedField's bit fields of a unit u: AThreeBitField is its low three bits,
      ABit the next one and AFourBitField the top four. */
  lemma MyBitmappedFields(u: Byte)
    ensures FieldBits(MyBitmapped, Num(u), 0) == u % 8
    ensures FieldBits(MyBitmapped, Num(u), 1) == (u / 8) % 2
    ensures FieldBits(MyBitmapped, Num(u), 2) == u / 16
  {
    MyBitmappedOffsets();
    LowField(u);
    MiddleField(u);
    HighField(u);
  }

  lemma LowField(u: Byte)
    ensures GetBitsAsWritten(u, 0, 3) == u % 8
  {
    FieldOfUnit(u, 0, 3);
    assert Pow2(0) == 1 && Pow2(3) == 8;
  }

  lemma MiddleField(u: Byte)
    ensures GetBitsAsWritten(u, 3, 1) == (u / 8) % 2
  {
    FieldOfUnit(u, 3, 1);
    assert Pow2(3) == 8 && Pow2(1) == 2;
  }

  lemma HighField(u: Byte)
    ensures GetBitsAsWritten(u, 4, 4) == u / 16
  {
    FieldOfUnit(u, 4, 4);
    assert Pow2(4) == 16;
    assert u / 16 < 16;
    DivModUniqueInt(u / 16, 16, 0, u / 16);
  }

  /** The getter of a field of a byte unit, at an offset and of a width below 8. */
  lemma FieldOfUnit(u: Byte, offset: nat, numBits: nat)
    requires offset < 8 && numBits < 8
    ensures GetBitsAsWritten(u, offset, numBits) == (u / Pow2(offset)) % Pow2(numBits)
  {
    GetBitsAsWrittenDivides(u, offset, numBits);
  }

  /** CheckBitmapped(field, fourBit, bit, threeBit) on the compiled frame: ABit (BitValue
      is the field compared with 0), AFourBitField and AThreeBitField read these. */
  predicate Checks(r: FieldRef, fourBit: UInt32, bit: UInt32, threeBit: UInt32)
    requires BitRefOk(ComplexMembers, r, 2) && Shaped(ComplexMembers, Compiled)
  {
    ReadBitsRef(ComplexMembers, Compiled, Ok(ComplexBytes), Network, r, 2) == Ok(fourBit) &&
    ReadBitsRef(ComplexMembers, Compiled, Ok(ComplexBytes), Network, r, 1) == Ok(bit) &&
    ReadBitsRef(ComplexMembers, Compiled, Ok(ComplexBytes), Network, r, 0) == Ok(threeBit)
  }

  /** A bitmapped unit of the compiled frame at byte at reads that byte, and its fields
      are that byte's bits. */
  lemma UnitAt(r: FieldRef, at: Int32)
    requires BitRefOk(ComplexMembers, r, 2) && Shaped(ComplexMembers, Compiled)
    requires DeclOf(ComplexMembers, r) == MyBitmapped
    requires SlotOf(ComplexMembers, Compiled, r) == Ok(Slot(ByteConverter, at, true)) && 0 <= at < |ComplexBytes|
    ensures ReadRef(ComplexMembers, Compiled, Ok(ComplexBytes), Network, r) == Ok(Num(ComplexBytes[at]))
    ensures Checks(r, ComplexBytes[at] / 16, (ComplexBytes[at] / 8) % 2, ComplexBytes[at] % 8)
  {
    var u := ComplexBytes[at];
    assert FieldBytes(Slot(ByteConverter, at, true), ComplexBytes, Network) == [u];
    assert FromLittleEndian([u]) == u by {
      assert [u][1..] == [];
    }
    MyBitmappedFields(u);
  }

  /** SomeBytes[i] is the byte at 2 + i. */
  lemma SomeByteRead(i: Int32)
    requires 0 <= i < 2
    ensures Shaped(ComplexMembers, Compiled)
    ensures ReadRef(ComplexMembers, Compiled, Ok(ComplexBytes), Network, ArrayItemAt(Here(1), i)) ==
      Ok(Num(ComplexBytes[2 + i]))
  {
    ComplexLayout();
    var u := ComplexBytes[2 + i];
    assert SlotOf(ComplexMembers, Compiled, ArrayItemAt(Here(1), i)) == Ok(Slot(ByteConverter, 2 + i, false));
    assert FieldBytes(Slot(ByteConverter, 2 + i, false), ComplexBytes, Network) == [u];
    assert FromLittleEndian([u]) == u by {
      assert [u][1..] == [];
    }
  }

  /** SomeBytes[0] and SomeBytes[1] read 0x42 and 0x24. */
  lemma SomeBytesRead()
    ensures Shaped(ComplexMembers, Compiled)
    ensures ReadRef(ComplexMembers, Compiled, Ok(ComplexBytes), Network, ArrayItemAt(Here(1), 0)) == Ok(Num(0x42))
    ensures ReadRef(ComplexMembers, Compiled, Ok(ComplexBytes), Network, ArrayItemAt(Here(1), 1)) == Ok(Num(0x24))
  {
    SomeByteRead(0);
    SomeByteRead(1);
  }

  /** Structures[j].OneBitmapped is the byte at 6 (first structure) or 12 (second). */
  lemma OneBitmappedRead(j: nat, fourBit: UInt32, bit: UInt32, threeBit: UInt32)
    requires j < 2
    requires var u := ComplexBytes[if j == 0 then 6 else 12];
      fourBit == u / 16 && bit == (u / 8) % 2 && threeBit == u % 8
    ensures Shaped(ComplexMembers, Compiled)
    ensures (OneBitmappedRef(j); Checks(FieldAt(Within(2, j, Here(1))), fourBit, bit, threeBit))
  {
    var r := FieldAt(Within(2, j, Here(1)));
    StructureNodes(j, Here(1));
    OneBitmappedRef(j);
    assert SlotOf(ComplexMembers, Compiled, r) == Ok(Slot(ByteConverter, if j == 0 then 6 else 12, true));
    UnitAt(r, if j == 0 then 6 else 12);
  }

  /** Structures[j].ManyBitmappeds[k] is the byte at 7 + k (first structure) or 13
      (second). */
  lemma ManyBitmappedsRead(j: nat, k: Int32, fourBit: UInt32, bit: UInt32, threeBit: UInt32)
    requires (j == 0 && 0 <= k < 3) || (j == 1 && k == 0)
    requires var u := ComplexBytes[if j == 0 then 7 + k else 13];
      fourBit == u / 16 && bit == (u / 8) % 2 && threeBit == u % 8
    ensures Shaped(ComplexMembers, Compiled)
    ensures (ManyBitmappedsRef(j, k); Checks(BitmappedItemAt(Within(2, j, Here(2)), k), fourBit, bit, threeBit))
  {
    var r := BitmappedItemAt(Within(2, j, Here(2)), k);
    StructureNodes(j, Here(2));
    ManyBitmappedsRef(j, k);
    assert SlotOf(ComplexMembers, Compiled, r) == Ok(Slot(ByteConverter, if j == 0 then 7 + k else 13, true));
    UnitAt(r, if j == 0 then 7 + k else 13);
  }

  /** Structures[0].OneBitmapped reads (10, true, 3). */
  lemma FirstOneBitmapped()
    ensures Shaped(ComplexMembers, Compiled)
    ensures (OneBitmappedRef(0); Checks(FieldAt(Within(2, 0, Here(1))), 10, 1, 3))
  {
    OneBitmappedRead(0, 10, 1, 3);
  }

  /** Structures[0].ManyBitmappeds[0] reads (15, false, 0). */
  lemma FirstManyBitmappeds0()
    ensures Shaped(ComplexMembers, Compiled)
    ensures (ManyBitmappedsRef(0, 0); Checks(BitmappedItemAt(Within(2, 0, Here(2)), 0), 15, 0, 0))
  {
    ManyBitmappedsRead(0, 0, 15, 0, 0);
  }

  /** Structures[0].ManyBitmappeds[1] reads (14, true, 1). */
  lemma FirstManyBitmappeds1()
    ensures Shaped(ComplexMembers, Compiled)
    ensures (ManyBitmappedsRef(0, 1); Checks(BitmappedItemAt(Within(2, 0, Here(2)), 1), 14, 1, 1))
  {
    ManyBitmappedsRead(0, 1, 14, 1, 1);
  }

  /** Structures[0].ManyBitmappeds[2] reads (13, false, 2). */
  lemma FirstManyBitmappeds2()
    ensures Shaped(ComplexMembers, Compiled)
    ensures (ManyBitmappedsRef(0, 2); Checks(BitmappedItemAt(Within(2, 0, Here(2)), 2), 13, 0, 2))
  {
    ManyBitmappedsRead(0, 2, 13, 0, 2);
  }

  /** Structures[1].OneBitmapped reads (0, false, 0). */
  lemma SecondOneBitmapped()
    ensures Shaped(ComplexMembers, Compiled)
    ensures (OneBitmappedRef(1); Checks(FieldAt(Within(2, 1, Here(1))), 0, 0, 0))
  {
    OneBitmappedRead(1, 0, 0, 0);
  }

  /** Structures[1].ManyBitmappeds[0] reads (15, true, 7). */
  lemma SecondManyBitmappeds0()
    ensures Shaped(ComplexMembers, Compiled)
    ensures (ManyBitmappedsRef(1, 0); Checks(BitmappedItemAt(Within(2, 1, Here(2)), 0), 15, 1, 7))
  {
    ManyBitmappedsRead(1, 0, 15, 1, 7);
  }

  // ---------------------------------------------------------------------------
  // ReadComplex on the frame objects

  /** A ComplexFrame made for reading over ComplexBytes: the constructor keeps the caller's
      array and lays out Number; once the subclass has assigned its arrays, Compile lays out
      the rest over the same array, which is long enough to stay in place. Then SomeBytes[0]
      and SomeBytes[1] read 0x42 and 0x24, and Structures[0].OneBitmapped's AFourBitField,
      ABit and AThreeBitField read 10, 1 and 3. */
  method ReadComplexFrame() returns (size: Int32, someByte0: Result<Value>, someByte1: Result<Value>,
                                     fourBit: Result<UInt32>, bit: Result<UInt32>, threeBit: Result<UInt32>)
    ensures size == 2 + 2 + (3 + 3) + (3 + 1)
    ensures someByte0 == Ok(Num(0x42)) && someByte1 == Ok(Num(0x24))
    ensures fourBit == Ok(10) && bit == Ok(1) && threeBit == Ok(3)
  {
    var bytes := new Byte[14](i requires 0 <= i < 14 => ComplexBytes[i]);
    assert bytes[..] == ComplexBytes;
    ConstructedLayout(Ok(ComplexBytes));
    var made := NewFrame(ComplexMembers, 1, bytes, true, true);
    assert made.Ok?;
    var frame := made.value;
    assert frame.buffer == bytes && frame.nodes == Constructed;
    ComplexLayout();
    var compiled := frame.Compile();
    assert frame.buffer == bytes && frame.nodes == Compiled;
    size := frame.size;
    SomeBytesRead();
    someByte0 := frame.Read(ArrayItemAt(Here(1), 0));
    someByte1 := frame.Read(ArrayItemAt(Here(1), 1));
    FirstOneBitmapped();
    fourBit := frame.ReadBits(FieldAt(Within(2, 0, Here(1))), 2);
    bit := frame.ReadBits(FieldAt(Within(2, 0, Here(1))), 1);
    threeBit := frame.ReadBits(FieldAt(Within(2, 0, Here(1))), 0);
  }
}
