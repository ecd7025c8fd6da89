/** The Frame object: its buffer, Compile, the field accessors that read and write the
    buffer through the layout Compile computed, and WriteToStream. */
module Frames {
  import opened Wrappers
  import opened Integers
  import opened BitArithmetic
  import opened BinaryConverters
  import opened FieldAccess
  import opened FrameLayout
  import opened BitFields
  import ValueTypeExtensions

  // ---------------------------------------------------------------------------
  // Naming a field of a frame

  /** A member of the frame: Here(i) is its member i; Within(i, j, rest) is rest inside
      element j of its structure array i. */
  datatype Path = Here(member: nat) | Within(member: nat, element: int, rest: Path)

  /** A Field<T> (or bitmapped field), element index of a FieldArray<T>, or element
      index of a BitmappedFieldArray<T>. */
  datatype FieldRef =
    | FieldAt(path: Path)
    | ArrayItemAt(path: Path, index: Int32)
    | BitmappedItemAt(path: Path, index: Int32)

  /** The declaration a path names: a program can only name members that exist. */
  function Target(ms: seq<Member>, p: Path): Member
    requires PathOk(ms, p)
  {
    match p
    case Here(i) => ms[i]
    case Within(i, _, rest) => Target(ms[i].members, rest)
  }

  predicate PathOk(ms: seq<Member>, p: Path)
  {
    match p
    case Here(i) => i < |ms|
    case Within(i, _, rest) => i < |ms| && ms[i].Structures? && PathOk(ms[i].members, rest)
  }

  predicate RefOk(ms: seq<Member>, r: FieldRef)
  {
    PathOk(ms, r.path) &&
    match r
    case FieldAt(p) => Target(ms, p).Scalar?
    case ArrayItemAt(p, _) => Target(ms, p).Array?
    case BitmappedItemAt(p, _) => Target(ms, p).Bitmappeds?
  }

  /** The declaration of the Field<T> a reference reaches. */
  function DeclOf(ms: seq<Member>, r: FieldRef): FieldDecl
    requires RefOk(ms, r) && !r.ArrayItemAt?
  {
    if r.FieldAt? then Target(ms, r.path).field else Target(ms, r.path).element
  }

  /** Following a path through the configured state: a structure array not yet
      configured has a null T[] (NullReferenceException); an element index outside it
      raises IndexOutOfRangeException. */
  function Locate(ms: seq<Member>, nodes: seq<Node>, p: Path): (r: Result<Node>)
    requires PathOk(ms, p) && Shaped(ms, nodes)
    ensures r.Ok? ==> NodeShaped(Target(ms, p), r.value)
  {
    match p
    case Here(i) => Ok(nodes[i])
    case Within(i, j, rest) =>
      var n := nodes[i];
      assert NodeShaped(ms[i], n);
      if n.Unconfigured? then Err(NullReference)
      else if j < 0 || j >= |n.elements| then Err(IndexOutOfRange)
      else
        assert n.elements[j] in n.elements;
        Locate(ms[i].members, n.elements[j].nodes, rest)
  }

  /** Where a reference's bytes are. A field not yet configured has a null frame. A
      FieldArray<T> element is index field sizes past the array's offset, whatever its
      count, and is never converted. */
  function SlotOf(ms: seq<Member>, nodes: seq<Node>, r: FieldRef): (s: Result<Slot>)
    requires RefOk(ms, r) && Shaped(ms, nodes)
    ensures s.Ok? && !r.ArrayItemAt? ==> s.value.conv == DeclOf(ms, r).conv && s.value.convertible
  {
    var node :- Locate(ms, nodes, r.path);
    if node.Unconfigured? then Err(NullReference)
    else
      match r
      case FieldAt(_) => Ok(Slot(node.field.conv, node.offset, true))
      case ArrayItemAt(_, k) =>
        Ok(Slot(node.conv, Wrap32(node.offset + Wrap32(k * Size(node.conv))), false))
      case BitmappedItemAt(_, k) =>
        if k < 0 || k >= |node.units| then Err(IndexOutOfRange)
        else Ok(Slot(node.element.conv, node.units[k], true))
  }

  // ---------------------------------------------------------------------------
  // What the accessors do, as functions of the frame's state

  /** Field<T>.Value / the FieldArray<T> indexer, get. */
  function ReadRef(ms: seq<Member>, nodes: seq<Node>, view: Result<seq<Byte>>, order: Order, r: FieldRef): Result<Value>
    requires RefOk(ms, r) && Shaped(ms, nodes)
  {
    var s :- SlotOf(ms, nodes, r);
    var buf :- view;
    ReadSlot(s, buf, order)
  }

  /** Field<T>.Value / the FieldArray<T> indexer, set: the new buffer contents. */
  function WriteRef(ms: seq<Member>, nodes: seq<Node>, view: Result<seq<Byte>>, order: Order, r: FieldRef, v: Value)
    : Result<seq<Byte>>
    requires RefOk(ms, r) && Shaped(ms, nodes)
    requires SlotOf(ms, nodes, r).Ok? ==> Fits(SlotOf(ms, nodes, r).value.conv, v)
  {
    var s :- SlotOf(ms, nodes, r);
    var buf :- view;
    WriteSlot(s, v, buf, order)
  }

  /** A bitmapped field's unit is one of the unsigned converters. */
  predicate BitRefOk(ms: seq<Member>, r: FieldRef, bit: nat)
  {
    RefOk(ms, r) && !r.ArrayItemAt? &&
    DeclOf(ms, r).conv in {ByteConverter, UInt16Converter, UInt32Converter} &&
    bit < |DeclOf(ms, r).bitWidths|
  }

  /** Where bit field number bit of the unit lies, and how wide it is. */
  function BitOffset(f: FieldDecl, bit: nat): Int32
    requires bit < |f.bitWidths|
  {
    BitOffsets(f.bitWidths, 0)[bit]
  }

  /** The unit of a bitmapped field holds exactly the numbers of its width, at most 32 bits. */
  lemma UnsignedUnit(c: Converter, v: Value)
    requires c in {ByteConverter, UInt16Converter, UInt32Converter}
    ensures Size(c) in {1, 2, 4} && Pow2(8 * Size(c)) <= Pow2(32) && Pow2(32) == 0x1_0000_0000
    ensures Fits(c, v) <==> v.Num? && 0 <= v.n < Pow2(8 * Size(c))
  {
    Power256Values();
    Pow2Widths();
    Pow2Monotone(8 * Size(c), 32);
  }

  /** BitField.Value, get, on the unit's value: the field shifted down and masked with
      the source's mask (empty for a 32-bit field). */
  function FieldBits(f: FieldDecl, unit: Value, bit: nat): UInt32
    requires f.conv in {ByteConverter, UInt16Converter, UInt32Converter} && Fits(f.conv, unit)
    requires bit < |f.bitWidths|
  {
    UnsignedUnit(f.conv, unit);
    GetBitsAsWritten(unit.n, BitOffset(f, bit), f.bitWidths[bit])
  }

  /** BitField.Value, set, on the unit's value: the field's bits cleared with the source's
      mask (nothing is cleared for a 32-bit field), the shifted value ORed in, and the
      result narrowed to the unit's type by its UInt32Value setter. */
  function WithFieldBits(f: FieldDecl, unit: Value, bit: nat, value: UInt32): (r: Value)
    requires f.conv in {ByteConverter, UInt16Converter, UInt32Converter} && Fits(f.conv, unit)
    requires bit < |f.bitWidths|
    ensures Fits(f.conv, r)
  {
    UnsignedUnit(f.conv, unit);
    var updated := Truncate(SetBitsAsWritten(unit.n, BitOffset(f, bit), f.bitWidths[bit], value), Size(f.conv));
    UnsignedUnit(f.conv, Num(updated));
    Num(updated)
  }

  /** BitField.Value, get: the field's bits of the unit's UInt32Value. */
  function ReadBitsRef(ms: seq<Member>, nodes: seq<Node>, view: Result<seq<Byte>>, order: Order,
                       r: FieldRef, bit: nat): Result<UInt32>
    requires BitRefOk(ms, r, bit) && Shaped(ms, nodes)
  {
    var unit :- ReadRef(ms, nodes, view, order, r);
    assert SlotOf(ms, nodes, r).Ok?;
    Ok(FieldBits(DeclOf(ms, r), unit, bit))
  }

  /** BitField.Value, set: the unit read, its field replaced, and the unit written back. */
  function WriteBitsRef(ms: seq<Member>, nodes: seq<Node>, view: Result<seq<Byte>>, order: Order,
                        r: FieldRef, bit: nat, value: UInt32): Result<seq<Byte>>
    requires BitRefOk(ms, r, bit) && Shaped(ms, nodes)
  {
    var unit :- ReadRef(ms, nodes, view, order, r);
    assert SlotOf(ms, nodes, r).Ok?;
    WriteRef(ms, nodes, view, order, r, WithFieldBits(DeclOf(ms, r), unit, bit, value))
  }

  /** Array.Resize to a larger size: the old contents followed by zeros. */
  function Grown(b: seq<Byte>, n: int): (r: seq<Byte>)
    ensures |r| >= n && |r| >= |b| && r[..|b|] == b
    ensures forall k | |b| <= k < |r| :: r[k] == 0
    ensures n <= |b| ==> r == b
  {
    if n > |b| then b + Zeros(n - |b|) else b
  }

  /** The buffer after Compile: none if there was none and Configure never asked for it;
      otherwise the buffer (or the one the Buffer getter allocated with the old Size),
      grown to the new Size. */
  function CompiledBuffer(hadBuffer: bool, view: Result<seq<Byte>>, laid: Laid): Option<seq<Byte>>
  {
    if (hadBuffer || laid.readBuffer) && view.Ok? then Some(Grown(view.value, laid.size)) else None
  }

  /** What WriteToStream writes: Size bytes from the start of the buffer. */
  function StreamBytes(view: Result<seq<Byte>>, size: Int32): Result<seq<Byte>>
  {
    var buf :- view;
    if size < 0 then Err(ArgumentOutOfRange)
    else if size > |buf| then Err(Argument)
    else Ok(buf[..size])
  }

  // ---------------------------------------------------------------------------
  // The frame

  class Frame {
    /** The frame subclass's IField members, base class first. */
    const members: seq<Member>
    const networkToHost: bool
    const littleEndianHost: bool
    /** How many members are assigned (non-null) when Compile runs. */
    var present: nat
    var nodes: seq<Node>
    var size: Int32
    var buffer: array?<Byte>

    ghost predicate Valid()
      reads this
    {
      WellFormed(members) && present <= |members| && Shaped(members, nodes)
    }

    function ByteOrder(): Order
      reads this
    {
      Order(networkToHost, littleEndianHost)
    }

    /** What the Buffer getter returns: the buffer, or a new zeroed one of Size bytes
        (new byte[Size] overflows for a negative Size). */
    function View(): (r: Result<seq<Byte>>)
      reads this, buffer
      ensures buffer != null ==> r == Ok(buffer[..])
      ensures buffer == null ==> r == if size < 0 then Err(Overflow) else Ok(Zeros(size))
    {
      if buffer != null then Ok(buffer[..]) else if size < 0 then Err(Overflow) else Ok(Zeros(size))
    }

    /** The object before its Compile: members unconfigured, Size 0, the caller's buffer. */
    constructor Init(members: seq<Member>, present: nat, buffer: array?<Byte>, networkToHost: bool, littleEndianHost: bool)
      requires WellFormed(members) && present <= |members|
      ensures Valid()
      ensures this.members == members && this.present == present && this.buffer == buffer
      ensures this.networkToHost == networkToHost && this.littleEndianHost == littleEndianHost
      ensures nodes == Fresh(|members|) && size == 0
    {
      this.members := members;
      this.networkToHost := networkToHost;
      this.littleEndianHost := littleEndianHost;
      this.present := present;
      this.nodes := Fresh(|members|);
      this.size := 0;
      this.buffer := buffer;
    }

    /** The Buffer getter, which allocates the buffer on first use. */
    method Buffer() returns (r: Result<array<Byte>>)
      modifies this
      ensures nodes == old(nodes) && size == old(size) && present == old(present)
      ensures r.Ok? <==> old(View()).Ok?
      ensures r.Err? ==> r.error == Overflow && buffer == old(buffer)
      ensures r.Ok? ==> buffer == r.value && r.value[..] == old(View()).value
      ensures r.Ok? && old(buffer) != null ==> r.value == old(buffer)
      ensures r.Ok? && old(buffer) == null ==> fresh(r.value)
    {
      if buffer == null {
        if size < 0 {
          return Err(Overflow);
        }
        var created := new Byte[size](_ => 0);
        assert created[..] == Zeros(size);
        buffer := created;
      }
      r := Ok(buffer);
    }

    /** The Buffer setter. */
    method SetBuffer(b: array?<Byte>)
      modifies this
      ensures buffer == b && nodes == old(nodes) && size == old(size) && present == old(present)
    {
      buffer := b;
    }

    /** Compile: configures the members from offset 0 and grows the buffer to the new Size.
        A Configure that fails leaves the frame as it was. */
    method Compile() returns (r: Result<()>)
      requires Valid()
      modifies this
      ensures Valid() && present == old(present)
      ensures var laid := LayOut(members, present, old(nodes), 0, Env(old(View()), ByteOrder()));
        (laid.Err? ==> r == Err(laid.error) && nodes == old(nodes) && size == old(size) && buffer == old(buffer)) &&
        (laid.Ok? ==>
          r == Ok(()) && nodes == laid.value.nodes && size == laid.value.size &&
          var kept := CompiledBuffer(old(buffer) != null, old(View()), laid.value);
          (buffer == null <==> kept.None?) && (buffer != null ==> buffer[..] == kept.value) &&
          (old(buffer) != null && laid.value.size <= old(buffer).Length ==> buffer == old(buffer)))
      ensures buffer != null && buffer != old(buffer) ==> fresh(buffer)
    {
      var env := Env(View(), ByteOrder());
      ghost var before := View();
      var laid := ConfigureStructure(members, present, nodes, 0, env);
      if laid.Err? {
        return Err(laid.error);
      }
      if buffer == null && laid.value.readBuffer {
        var _ := Buffer();
      }
      assert buffer != null ==> buffer[..] == before.value;
      nodes := laid.value.nodes;
      size := laid.value.size;
      if buffer != null && size > buffer.Length {
        buffer := Resize(buffer, size);
      }
      r := Ok(());
    }

    /** Field<T>.Value or the FieldArray<T> indexer, get. */
    method Read(ref: FieldRef) returns (r: Result<Value>)
      requires Valid() && RefOk(members, ref)
      modifies this
      ensures Valid() && nodes == old(nodes) && size == old(size) && present == old(present)
      ensures r == ReadRef(members, nodes, old(View()), ByteOrder(), ref)
      ensures buffer == old(buffer) || (old(buffer) == null && fresh(buffer))
      ensures buffer != null ==> old(View()).Ok? && buffer[..] == old(View()).value
    {
      var s := SlotOf(members, nodes, ref);
      if s.Err? {
        return Err(s.error);
      }
      var buf := Buffer();
      if buf.Err? {
        return Err(buf.error);
      }
      r := ReadFrom(s.value, buf.value, ByteOrder());
    }

    /** Field<T>.Value or the FieldArray<T> indexer, set. */
    method Write(ref: FieldRef, v: Value) returns (r: Result<()>)
      requires Valid() && RefOk(members, ref)
      requires SlotOf(members, nodes, ref).Ok? ==> Fits(SlotOf(members, nodes, ref).value.conv, v)
      modifies this, buffer
      ensures Valid() && nodes == old(nodes) && size == old(size) && present == old(present)
      ensures var after := WriteRef(members, nodes, old(View()), ByteOrder(), ref, v);
        (after.Err? ==> r == Err(after.error)) &&
        (after.Ok? ==> r == Ok(()) && buffer != null && buffer[..] == after.value)
      ensures buffer == old(buffer) || (old(buffer) == null && fresh(buffer))
    {
      var s := SlotOf(members, nodes, ref);
      if s.Err? {
        return Err(s.error);
      }
      var buf := Buffer();
      if buf.Err? {
        return Err(buf.error);
      }
      r := WriteInto(s.value, v, buf.value, ByteOrder());
    }

    /** BitField.Value, get (and Bit.BitValue, which is that value compared with 0). */
    method ReadBits(ref: FieldRef, bit: nat) returns (r: Result<UInt32>)
      requires Valid() && BitRefOk(members, ref, bit)
      modifies this
      ensures Valid() && nodes == old(nodes) && size == old(size) && present == old(present)
      ensures r == ReadBitsRef(members, nodes, old(View()), ByteOrder(), ref, bit)
      ensures buffer == old(buffer) || (old(buffer) == null && fresh(buffer))
    {
      var unit := Read(ref);
      if unit.Err? {
        return Err(unit.error);
      }
      assert SlotOf(members, nodes, ref).Ok?;
      r := Ok(FieldBits(DeclOf(members, ref), unit.value, bit));
    }

    /** BitField.Value, set (and Bit.BitValue with 1 or 0). */
    method WriteBits(ref: FieldRef, bit: nat, value: UInt32) returns (r: Result<()>)
      requires Valid() && BitRefOk(members, ref, bit)
      modifies this, buffer
      ensures Valid() && nodes == old(nodes) && size == old(size) && present == old(present)
      ensures var after := WriteBitsRef(members, nodes, old(View()), ByteOrder(), ref, bit, value);
        (after.Err? ==> r == Err(after.error)) &&
        (after.Ok? ==> r == Ok(()) && buffer != null && buffer[..] == after.value)
      ensures buffer == old(buffer) || (old(buffer) == null && fresh(buffer))
    {
      ghost var view := View();
      var unit := Read(ref);
      if unit.Err? {
        return Err(unit.error);
      }
      assert View() == view;
      assert SlotOf(members, nodes, ref).Ok?;
      r := Write(ref, WithFieldBits(DeclOf(members, ref), unit.value, bit, value));
    }

    /** WriteToStream: the bytes stream.Write(Buffer, 0, Size) writes. */
    method WriteToStream() returns (r: Result<seq<Byte>>)
      modifies this
      ensures nodes == old(nodes) && size == old(size) && present == old(present)
      ensures r == StreamBytes(old(View()), size)
      ensures buffer == old(buffer) || (old(buffer) == null && fresh(buffer))
    {
      var buf := Buffer();
      if buf.Err? {
        return Err(buf.error);
      }
      if size < 0 {
        return Err(ArgumentOutOfRange);
      }
      if size > buf.value.Length {
        return Err(Argument);
      }
      r := Ok(buf.value[..size]);
    }
  }

  /** Frame(buffer, networkToHostConversionRequired): the frame compiled with the members
      its field initializers assigned; the subclass constructor then assigns the rest. */
  method NewFrame(members: seq<Member>, present: nat, buffer: array?<Byte>, networkToHost: bool, littleEndianHost: bool)
    returns (r: Result<Frame>)
    requires WellFormed(members) && present <= |members|
    ensures var view := if buffer == null then Ok([]) else Ok(buffer[..]);
      var laid := LayOut(members, present, Fresh(|members|), 0, Env(view, Order(networkToHost, littleEndianHost)));
      (r.Err? <==> laid.Err?) && (r.Err? ==> r.error == laid.error) &&
      (r.Ok? ==>
        fresh(r.value) && r.value.Valid() && r.value.members == members && r.value.present == |members| &&
        r.value.networkToHost == networkToHost && r.value.littleEndianHost == littleEndianHost &&
        r.value.nodes == laid.value.nodes && r.value.size == laid.value.size &&
        var kept := CompiledBuffer(buffer != null, view, laid.value);
        (r.value.buffer == null <==> kept.None?) && (r.value.buffer != null ==> r.value.buffer[..] == kept.value) &&
        (buffer != null && laid.value.size <= buffer.Length ==> r.value.buffer == buffer) &&
        (r.value.buffer != null && r.value.buffer != buffer ==> fresh(r.value.buffer)))
  {
    var frame := new Frame.Init(members, present, buffer, networkToHost, littleEndianHost);
    assert frame.View() == if buffer == null then Ok([]) else Ok(buffer[..]);
    var compiled := frame.Compile();
    if compiled.Err? {
      return Err(compiled.error);
    }
    frame.present := |members|;
    r := Ok(frame);
  }

  /** Array.Resize to a larger length: a new array holding the old contents then zeros. */
  method Resize(a: array<Byte>, n: Int32) returns (b: array<Byte>)
    requires n > a.Length
    ensures fresh(b) && b[..] == Grown(a[..], n)
  {
    b := new Byte[n](_ => 0);
    var i := 0;
    while i < a.Length
      invariant i <= a.Length
      invariant forall k | 0 <= k < n :: b[k] == if k < i then a[k] else 0
    {
      b[i] := a[i];
      i := i + 1;
    }
    assert b[..] == a[..] + Zeros(n - a.Length);
  }

  /** Field<T>.Value's getter on the frame's buffer: past the end it is default(T); a
      converted field's bytes are copied out and reversed before the converter reads them. */
  method ReadFrom(s: Slot, buf: array<Byte>, order: Order) returns (r: Result<Value>)
    ensures r == ReadSlot(s, buf[..], order)
  {
    var size := Size(s.conv);
    if Wrap32(s.offset + size) > buf.Length {
      return Ok(Default(s.conv));
    }
    if s.offset < 0 || s.offset + size > buf.Length {
      return Err(OutOfRange(s.conv, s.offset, false));
    }
    var bytes: seq<Byte>;
    if Swaps(s, order) {
      var copy := CopyOut(buf, s.offset, size);
      ghost var field := copy[..];
      var _ := ValueTypeExtensions.ReverseBytes(copy, 0, size as Int32);
      assert field[..0] == [] && field[0..size] == field && field[size..] == [];
      assert copy[..] == ValueTypeExtensions.Reverse(field);
      bytes := copy[..];
    } else {
      bytes := buf[s.offset..s.offset + size];
      assert bytes == buf[..][s.offset..s.offset + size];
    }
    r := Ok(GetValue(s.conv, bytes, order.littleEndianHost));
  }

  /** Array.Copy of count bytes from the buffer into a new array. */
  method CopyOut(buf: array<Byte>, from: nat, count: nat) returns (copy: array<Byte>)
    requires from + count <= buf.Length
    ensures fresh(copy) && copy[..] == buf[..][from..from + count]
  {
    copy := new Byte[count];
    var i := 0;
    while i < count
      invariant i <= count
      invariant copy[..i] == buf[from..from + i]
    {
      copy[i] := buf[from + i];
      i := i + 1;
    }
    assert copy[..] == copy[..count];
  }

  /** Field<T>.Value's setter on the frame's buffer: the converter writes the bytes, then
      a converted field's bytes are reversed in place. */
  method WriteInto(s: Slot, v: Value, buf: array<Byte>, order: Order) returns (r: Result<()>)
    requires Fits(s.conv, v)
    modifies buf
    ensures var after := WriteSlot(s, v, old(buf[..]), order);
      (after.Err? ==> r == Err(after.error) && buf[..] == old(buf[..])) &&
      (after.Ok? ==> r == Ok(()) && buf[..] == after.value)
  {
    var bytes := GetBytes(s.conv, v, order.littleEndianHost);
    if bytes.Err? {
      return Err(bytes.error);
    }
    var b := bytes.value;
    if s.offset < 0 || s.offset + |b| > buf.Length {
      return Err(OutOfRange(s.conv, s.offset, true));
    }
    CopyInto(buf, s.offset, b);
    if Swaps(s, order) {
      r := ValueTypeExtensions.ReverseBytes(buf, s.offset, Size(s.conv) as Int32);
    } else {
      r := Ok(());
    }
  }

  /** The converter's bytes copied into the buffer at offset, one by one. */
  method CopyInto(buf: array<Byte>, offset: nat, b: seq<Byte>)
    requires offset + |b| <= buf.Length
    modifies buf
    ensures buf[..] == old(buf[..])[..offset] + b + old(buf[..])[offset + |b|..]
  {
    var i := 0;
    while i < |b|
      invariant i <= |b|
      invariant forall k | 0 <= k < buf.Length ::
        buf[k] == if offset <= k < offset + i then b[k - offset] else old(buf[k])
    {
      buf[offset + i] := b[i];
      i := i + 1;
    }
    ghost var written := old(buf[..])[..offset] + b + old(buf[..])[offset + |b|..];
    assert forall k | 0 <= k < buf.Length :: buf[k] == written[k];
  }

  // ---------------------------------------------------------------------------
  // Properties

  /** The bit fields of a bitmapped field have positive widths below 32 that together fit
      in its unit. */
  predicate Packed(f: FieldDecl)
  {
    (forall k | 0 <= k < |f.bitWidths| :: 0 < f.bitWidths[k] < 32) && Total(f.bitWidths) <= 8 * Size(f.conv)
  }

  /** A field, or an element of a field array, reads the value last written to it through
      the frame; a string comes back without its trailing zero bytes. */
  lemma FieldReadsWhatWasWritten(ms: seq<Member>, nodes: seq<Node>, view: Result<seq<Byte>>, order: Order,
                                 r: FieldRef, v: Value)
    requires RefOk(ms, r) && Shaped(ms, nodes)
    requires SlotOf(ms, nodes, r).Ok? ==> Fits(SlotOf(ms, nodes, r).value.conv, v)
    requires WriteRef(ms, nodes, view, order, r, v).Ok?
    ensures SlotOf(ms, nodes, r).Ok? && view.Ok?
    ensures ReadRef(ms, nodes, Ok(WriteRef(ms, nodes, view, order, r, v).value), order, r) ==
      Ok(if SlotOf(ms, nodes, r).value.conv.UTF8FixedWidthConverter? then Text(v.utf8[..SignificantLength(v.utf8)]) else v)
  {
    ReadAfterWrite(SlotOf(ms, nodes, r).value, v, view.value, order);
  }

  /** The unit value a bit-field write stores. */
  lemma WriteBitsStores(ms: seq<Member>, nodes: seq<Node>, view: Result<seq<Byte>>, order: Order,
                        r: FieldRef, bit: nat, value: UInt32)
    returns (unit: Value)
    requires BitRefOk(ms, r, bit) && Shaped(ms, nodes)
    requires WriteBitsRef(ms, nodes, view, order, r, bit, value).Ok?
    ensures ReadRef(ms, nodes, view, order, r) == Ok(unit) && Fits(DeclOf(ms, r).conv, unit)
    ensures ReadRef(ms, nodes, Ok(WriteBitsRef(ms, nodes, view, order, r, bit, value).value), order, r) ==
      Ok(WithFieldBits(DeclOf(ms, r), unit, bit, value))
  {
    unit := ReadRef(ms, nodes, view, order, r).value;
    var f := DeclOf(ms, r);
    assert SlotOf(ms, nodes, r).Ok?;
    var updated := WithFieldBits(f, unit, bit, value);
    FieldReadsWhatWasWritten(ms, nodes, view, order, r, updated);
  }

  /** On the unit's value: a field of a packed bitmapped field reads back what was
      written to it, and every other field reads what it read before. */
  lemma PackedFieldBits(f: FieldDecl, unit: Value, bit: nat, value: UInt32, other: nat)
    requires f.conv in {ByteConverter, UInt16Converter, UInt32Converter} && Fits(f.conv, unit) && Packed(f)
    requires bit < |f.bitWidths| && other < |f.bitWidths|
    requires value < Pow2(f.bitWidths[bit])
    ensures FieldBits(f, WithFieldBits(f, unit, bit, value), bit) == value
    ensures other != bit ==> FieldBits(f, WithFieldBits(f, unit, bit, value), other) == FieldBits(f, unit, other)
  {
    var w, bytes := f.bitWidths, Size(f.conv);
    UnsignedUnit(f.conv, unit);
    var u: UInt32 := unit.n;
    var updated := Truncate(SetBits(u, BitOffset(f, bit), w[bit], value), bytes);
    PackedWrite(f, unit, bit, value);
    PackedRead(f, Num(updated), bit);
    PackedBitFields(w, 8 * bytes, bit);
    TruncatedRoundTrip(u, bytes, BitOffset(f, bit), w[bit], value);
    if other != bit {
      PackedRead(f, Num(updated), other);
      PackedRead(f, unit, other);
      PackedBitFields(w, 8 * bytes, other);
      if bit < other {
        PackedBitFieldsDisjoint(w, 8 * bytes, bit, other);
      } else {
        PackedBitFieldsDisjoint(w, 8 * bytes, other, bit);
      }
      TruncatedFieldsIndependent(u, bytes, BitOffset(f, bit), w[bit], value, BitOffset(f, other), w[other]);
    }
  }

  /** In a packed bitmapped field no width is 32, so a read uses the whole field's mask. */
  lemma PackedRead(f: FieldDecl, unit: Value, bit: nat)
    requires f.conv in {ByteConverter, UInt16Converter, UInt32Converter} && Fits(f.conv, unit) && Packed(f)
    requires bit < |f.bitWidths|
    ensures unit.Num? && 0 <= unit.n < 0x1_0000_0000
    ensures FieldBits(f, unit, bit) == GetBits(unit.n, BitOffset(f, bit), f.bitWidths[bit])
  {
    UnsignedUnit(f.conv, unit);
    AsWrittenAgrees(unit.n, BitOffset(f, bit), f.bitWidths[bit], 0);
  }

  /** In a packed bitmapped field no width is 32, so a write clears the whole field. */
  lemma PackedWrite(f: FieldDecl, unit: Value, bit: nat, value: UInt32)
    requires f.conv in {ByteConverter, UInt16Converter, UInt32Converter} && Fits(f.conv, unit) && Packed(f)
    requires bit < |f.bitWidths|
    ensures unit.Num? && 0 <= unit.n < 0x1_0000_0000
    ensures WithFieldBits(f, unit, bit, value) ==
      Num(Truncate(SetBits(unit.n, BitOffset(f, bit), f.bitWidths[bit], value), Size(f.conv)))
  {
    UnsignedUnit(f.conv, unit);
    AsWrittenAgrees(unit.n, BitOffset(f, bit), f.bitWidths[bit], value);
  }

  /** A 32-bit field of a 4-byte bitmapped field reads 0 whatever the unit holds, and a
      write to it ORs the shifted value into the unit without clearing anything. */
  lemma FullWidthFieldBits(f: FieldDecl, unit: Value, bit: nat, value: UInt32)
    requires f.conv == UInt32Converter && Fits(f.conv, unit)
    requires bit < |f.bitWidths| && f.bitWidths[bit] == 32
    ensures FieldBits(f, unit, bit) == 0
    ensures WithFieldBits(f, unit, bit, value) == Num(BitOr(unit.n, ShiftLeft(value, ShiftCount(BitOffset(f, bit)))))
  {
    UnsignedUnit(f.conv, unit);
    var u: UInt32 := unit.n;
    FullWidthFieldReadsZero(u, BitOffset(f, bit));
    FullWidthWriteOrs(u, BitOffset(f, bit), value);
    var updated := SetBitsAsWritten(u, BitOffset(f, bit), 32, value);
    Pow2Widths();
    LowPart(updated, 32);
  }

  /** A bit field (and a Bit, one bit wide) of a packed bitmapped field reads back the
      value written to it through the frame when the value fits its width. */
  lemma BitFieldReadsWhatWasWritten(ms: seq<Member>, nodes: seq<Node>, view: Result<seq<Byte>>, order: Order,
                                    r: FieldRef, bit: nat, value: UInt32)
    requires BitRefOk(ms, r, bit) && Shaped(ms, nodes) && Packed(DeclOf(ms, r))
    requires value < Pow2(DeclOf(ms, r).bitWidths[bit])
    requires WriteBitsRef(ms, nodes, view, order, r, bit, value).Ok?
    ensures ReadBitsRef(ms, nodes, Ok(WriteBitsRef(ms, nodes, view, order, r, bit, value).value), order, r, bit) ==
      Ok(value)
  {
    var unit := WriteBitsStores(ms, nodes, view, order, r, bit, value);
    PackedFieldBits(DeclOf(ms, r), unit, bit, value, bit);
  }

  /** Writing one bit field of a packed bitmapped field through the frame leaves every
      other bit field of it reading what it read before. */
  lemma OtherBitFieldsKept(ms: seq<Member>, nodes: seq<Node>, view: Result<seq<Byte>>, order: Order,
                           r: FieldRef, bit: nat, value: UInt32, other: nat)
    requires BitRefOk(ms, r, bit) && Shaped(ms, nodes) && Packed(DeclOf(ms, r))
    requires other < |DeclOf(ms, r).bitWidths| && other != bit
    requires value < Pow2(DeclOf(ms, r).bitWidths[bit])
    requires WriteBitsRef(ms, nodes, view, order, r, bit, value).Ok?
    ensures ReadBitsRef(ms, nodes, Ok(WriteBitsRef(ms, nodes, view, order, r, bit, value).value), order, r, other) ==
      ReadBitsRef(ms, nodes, view, order, r, other)
  {
    var unit := WriteBitsStores(ms, nodes, view, order, r, bit, value);
    PackedFieldBits(DeclOf(ms, r), unit, bit, value, other);
  }

  /** After Compile the buffer, if there is one, holds every byte up to the frame's Size,
      begins with what it held before, and WriteToStream sends exactly Size bytes. */
  lemma CompiledFrameStreams(hadBuffer: bool, view: Result<seq<Byte>>, laid: Laid)
    requires CompiledBuffer(hadBuffer, view, laid).Some? && laid.size >= 0
    ensures var b := CompiledBuffer(hadBuffer, view, laid).value;
      StreamBytes(Ok(b), laid.size) == Ok(b[..laid.size]) &&
      (laid.size >= |view.value| ==> b[..laid.size] == view.value + Zeros(laid.size - |view.value|))
  {
    var b := CompiledBuffer(hadBuffer, view, laid).value;
    if laid.size >= |view.value| {
      assert b[..laid.size] == b;
    }
  }
}
