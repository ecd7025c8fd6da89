/** Reading and writing one field's bytes in a frame's buffer: Field<T>.Value and the
    FieldArray<T> indexer, with the frame's network-to-host conversion. */
module FieldAccess {
  import opened Wrappers
  import opened Integers
  import opened BinaryConverters
  import ValueTypeExtensions

  /** Where a field's bytes are: its converter, its offset in the buffer, and whether the
      frame's network-to-host conversion applies to it (it does for Field<T>.Value, never
      for a FieldArray<T> element). */
  datatype Slot = Slot(conv: Converter, offset: Int32, convertible: bool)

  /** Frame.NetworkToHostConversion and BitConverter.IsLittleEndian. */
  datatype Order = Order(networkToHost: bool, littleEndianHost: bool)

  /** Field<T>.DoNetworkToHostConversion: asked for by the frame, more than one byte, a
      little-endian host, and a converter without INoNetworkToHostConversion. */
  predicate Swaps(s: Slot, order: Order)
  {
    s.convertible && order.networkToHost && Size(s.conv) > 1 && order.littleEndianHost &&
    !NoNetworkToHostConversion(s.conv)
  }

  /** The exception a converter raises for bytes outside the buffer: the byte converter
      indexes the array; BitConverter, Array.Copy and Array.CopyTo check their index
      (and CopyTo, on a write, the room left after it). */
  function OutOfRange(c: Converter, offset: int, write: bool): Error
  {
    if c.ByteConverter? then IndexOutOfRange
    else if offset < 0 || !write then ArgumentOutOfRange
    else Argument
  }

  /** The bytes the field's value is read from, reversed when the frame converts them. */
  function FieldBytes(s: Slot, buf: seq<Byte>, order: Order): seq<Byte>
    requires 0 <= s.offset && s.offset + Size(s.conv) <= |buf|
  {
    var bytes := buf[s.offset..s.offset + Size(s.conv)];
    if Swaps(s, order) then ValueTypeExtensions.Reverse(bytes) else bytes
  }

  /** The getter: a field that ends past the buffer (int arithmetic) reads as default(T);
      otherwise the converter decodes its bytes. */
  function ReadSlot(s: Slot, buf: seq<Byte>, order: Order): (r: Result<Value>)
    ensures r.Ok? ==> Fits(s.conv, r.value)
  {
    if Wrap32(s.offset + Size(s.conv)) > |buf| then Ok(Default(s.conv))
    else if s.offset < 0 || s.offset + Size(s.conv) > |buf| then Err(OutOfRange(s.conv, s.offset, false))
    else Ok(GetValue(s.conv, FieldBytes(s, buf, order), order.littleEndianHost))
  }

  /** The setter: the converter writes its bytes at the offset (failing before it writes
      anything if they do not fit), then the frame reverses them in place if it converts. */
  function WriteSlot(s: Slot, v: Value, buf: seq<Byte>, order: Order): (r: Result<seq<Byte>>)
    requires Fits(s.conv, v)
    ensures r.Ok? ==> |r.value| == |buf|
  {
    var bytes :- GetBytes(s.conv, v, order.littleEndianHost);
    if s.offset < 0 || s.offset + |bytes| > |buf| then Err(OutOfRange(s.conv, s.offset, true))
    else
      var written := buf[..s.offset] + bytes + buf[s.offset + |bytes|..];
      if Swaps(s, order) then ValueTypeExtensions.ReverseRange(written, s.offset, Size(s.conv))
      else Ok(written)
  }

  // ---------------------------------------------------------------------------
  // Properties

  /** A write fails exactly when the value cannot be encoded or its bytes do not fit in
      the buffer at the offset. */
  lemma WriteSlotFails(s: Slot, v: Value, buf: seq<Byte>, order: Order)
    requires Fits(s.conv, v)
    ensures WriteSlot(s, v, buf, order).Err? <==>
      GetBytes(s.conv, v, order.littleEndianHost).Err? || s.offset < 0 || s.offset + Size(s.conv) > |buf|
  {
  }

  /** A successful write puts the value's bytes (reversed when the frame converts) at the
      offset and leaves every other byte of the buffer as it was. */
  lemma WriteSlotContents(s: Slot, v: Value, buf: seq<Byte>, order: Order)
    requires Fits(s.conv, v) && WriteSlot(s, v, buf, order).Ok?
    ensures var after := WriteSlot(s, v, buf, order).value;
      var bytes := GetBytes(s.conv, v, order.littleEndianHost).value;
      0 <= s.offset && s.offset + Size(s.conv) <= |buf| &&
      after[..s.offset] == buf[..s.offset] &&
      after[s.offset + Size(s.conv)..] == buf[s.offset + Size(s.conv)..] &&
      after[s.offset..s.offset + Size(s.conv)] ==
        if Swaps(s, order) then ValueTypeExtensions.Reverse(bytes) else bytes
  {
    var bytes := GetBytes(s.conv, v, order.littleEndianHost).value;
    var o, n := s.offset as int, Size(s.conv);
    var written := buf[..o] + bytes + buf[o + n..];
    assert written[..o] == buf[..o] && written[o..o + n] == bytes && written[o + n..] == buf[o + n..];
    if Swaps(s, order) {
      var after := written[..o] + ValueTypeExtensions.Reverse(written[o..o + n]) + written[o + n..];
      assert after[..o] == buf[..o];
      assert after[o..o + n] == ValueTypeExtensions.Reverse(bytes);
      assert after[o + n..] == buf[o + n..];
    }
  }

  /** Whatever the buffer holds, a field that lies inside it reads the value last written
      to it; a string comes back without its trailing zero bytes. */
  lemma ReadAfterWrite(s: Slot, v: Value, buf: seq<Byte>, order: Order)
    requires Fits(s.conv, v) && WriteSlot(s, v, buf, order).Ok?
    ensures ReadSlot(s, WriteSlot(s, v, buf, order).value, order) ==
      Ok(if s.conv.UTF8FixedWidthConverter? then Text(v.utf8[..SignificantLength(v.utf8)]) else v)
  {
    var after := WriteSlot(s, v, buf, order).value;
    var bytes := GetBytes(s.conv, v, order.littleEndianHost).value;
    WriteSlotContents(s, v, buf, order);
    assert Wrap32(s.offset + Size(s.conv)) <= |after|;
    if Swaps(s, order) {
      ValueTypeExtensions.ReverseInvolution(bytes);
    }
    assert FieldBytes(s, after, order) == bytes;
    GetValueOfGetBytes(s.conv, v, order.littleEndianHost);
  }

  /** Writing the value just read from a field leaves the buffer as it was. */
  lemma WriteWhatWasRead(s: Slot, buf: seq<Byte>, order: Order)
    requires 0 <= s.offset && s.offset + Size(s.conv) <= |buf|
    ensures ReadSlot(s, buf, order).Ok?
    ensures WriteSlot(s, ReadSlot(s, buf, order).value, buf, order) == Ok(buf)
  {
    var o, n := s.offset as int, Size(s.conv);
    var b := FieldBytes(s, buf, order);
    var v := GetValue(s.conv, b, order.littleEndianHost);
    assert ReadSlot(s, buf, order) == Ok(v);
    assert GetBytes(s.conv, v, order.littleEndianHost) == Ok(b) by {
      GetBytesOfGetValue(s.conv, b, order.littleEndianHost);
    }
    assert WriteSlot(s, v, buf, order) == Ok(buf) by {
      var written := buf[..o] + b + buf[o + n..];
      if Swaps(s, order) {
        SwappedBack(buf, o, n);
      } else {
        assert written == buf;
      }
    }
  }

  /** Reversing a range whose bytes were reversed on the way in gives the buffer back. */
  lemma SwappedBack(buf: seq<Byte>, o: nat, n: nat)
    requires o + n <= |buf|
    ensures var written := buf[..o] + ValueTypeExtensions.Reverse(buf[o..o + n]) + buf[o + n..];
      ValueTypeExtensions.ReverseRange(written, o, n) == Ok(buf)
  {
    var b := ValueTypeExtensions.Reverse(buf[o..o + n]);
    var written := buf[..o] + b + buf[o + n..];
    ValueTypeExtensions.ReverseInvolution(buf[o..o + n]);
    assert written[..o] == buf[..o];
    assert written[o..o + n] == b;
    assert written[o + n..] == buf[o + n..];
    if n < 2 {
      assert b == buf[o..o + n];
    }
    assert buf[..o] + buf[o..o + n] + buf[o + n..] == buf;
  }

  /** A field whose end lies past the buffer reads as default(T). */
  lemma ReadPastEnd(s: Slot, buf: seq<Byte>, order: Order)
    requires 0 <= s.offset && s.offset + Size(s.conv) < 0x8000_0000
    requires s.offset + Size(s.conv) > |buf|
    ensures ReadSlot(s, buf, order) == Ok(Default(s.conv))
  {
  }

  /** On a little-endian host a frame that converts writes a multi-byte number most
      significant byte first (network order); one that does not, least significant first. */
  lemma NetworkOrderOnTheWire(s: Slot, v: Value, buf: seq<Byte>, networkToHost: bool)
    requires s.convertible && !s.conv.UTF8FixedWidthConverter? && Fits(s.conv, v)
    requires WriteSlot(s, v, buf, Order(networkToHost, true)).Ok?
    ensures var after := WriteSlot(s, v, buf, Order(networkToHost, true)).value;
      var le := LittleEndian(Pattern(s.conv, v.n), Size(s.conv));
      after[s.offset..s.offset + Size(s.conv)] ==
        if networkToHost && Size(s.conv) > 1 then ValueTypeExtensions.Reverse(le) else le
  {
    WriteSlotContents(s, v, buf, Order(networkToHost, true));
  }
}
