/** The converters of the binary frame codec (IConverter<T> and its implementations): each
    turns a field value into exactly Size bytes and back. BitConverter works in the host's
    byte order, which is a parameter here. */
module BinaryConverters {
  import opened Wrappers
  import opened Integers
  import ValueTypeExtensions

  /** The element types a Field<T> can be declared with. OtherType stands for every type
      that has no built-in converter (an enum, say). */
  datatype ValueType =
    | ByteType | UInt16Type | Int16Type | UInt32Type | Int32Type | UInt64Type | Int64Type
    | SingleType | DoubleType | StringType | OtherType

  datatype Converter =
    | ByteConverter | UInt16Converter | Int16Converter | UInt32Converter | Int32Converter
    | UInt64Converter | Int64Converter | SingleConverter | DoubleConverter
    | UTF8FixedWidthConverter(width: Width)

  /** The width of a UTF-8 field: a non-negative C# int. */
  type Width = w: int | 0 <= w < 0x8000_0000

  /** A field value. An integer is Num; a Single or a Double is Num holding its IEEE 754
      bit pattern; a string is Text holding its UTF-8 bytes, or Null. */
  datatype Value = Num(n: int) | Text(utf8: seq<Byte>) | Null

  /** Converter.Size: sizeof(T), or the fixed width of a UTF-8 string field. */
  function Size(c: Converter): (n: nat)
    ensures n < 0x8000_0000
  {
    match c
    case ByteConverter => 1
    case UInt16Converter => 2
    case Int16Converter => 2
    case UInt32Converter => 4
    case Int32Converter => 4
    case SingleConverter => 4
    case UInt64Converter => 8
    case Int64Converter => 8
    case DoubleConverter => 8
    case UTF8FixedWidthConverter(w) => w
  }

  predicate Integral(c: Converter)
  {
    !(c.SingleConverter? || c.DoubleConverter? || c.UTF8FixedWidthConverter?)
  }

  predicate IsSigned(c: Converter)
  {
    c.Int16Converter? || c.Int32Converter? || c.Int64Converter?
  }

  /** The converter carries INoNetworkToHostConversion: only the string converter does. */
  predicate NoNetworkToHostConversion(c: Converter)
  {
    c.UTF8FixedWidthConverter?
  }

  /** Field<T>.DefaultConverter: the built-in converter of a numeric type; any other type
      raises InvalidOperationException. */
  function DefaultConverter(t: ValueType): (r: Result<Converter>)
    ensures r.Ok? <==> t != StringType && t != OtherType
    ensures r.Err? ==> r.error == InvalidOperation
    ensures r.Ok? ==> !NoNetworkToHostConversion(r.value) && Size(r.value) in {1, 2, 4, 8}
    ensures r.Ok? ==> (Size(r.value) == 1 <==> t == ByteType)
  {
    match t
    case ByteType => Ok(ByteConverter)
    case UInt16Type => Ok(UInt16Converter)
    case Int16Type => Ok(Int16Converter)
    case UInt32Type => Ok(UInt32Converter)
    case Int32Type => Ok(Int32Converter)
    case UInt64Type => Ok(UInt64Converter)
    case Int64Type => Ok(Int64Converter)
    case SingleType => Ok(SingleConverter)
    case DoubleType => Ok(DoubleConverter)
    case _ => Err(InvalidOperation)
  }

  function Power256(n: nat): (r: nat)
    ensures r >= 1
  {
    if n == 0 then 1 else 256 * Power256(n - 1)
  }

  lemma Power256Values()
    ensures Power256(1) == 0x100 && Power256(2) == 0x1_0000
    ensures Power256(4) == 0x1_0000_0000 && Power256(8) == 0x1_0000_0000_0000_0000
  {
    assert Power256(3) == 0x100_0000 by { assert Power256(2) == 0x1_0000; }
    assert Power256(6) == 0x1_0000_0000_0000 by { assert Power256(5) == 0x100_0000_0000; }
  }

  /** The values a field with this converter holds: the range of T, the bit patterns of a
      Single or Double, and any string or null for the UTF-8 converter. */
  predicate Fits(c: Converter, v: Value)
  {
    match c
    case UTF8FixedWidthConverter(_) => v.Text? || v.Null?
    case _ =>
      var half: int := Power256(Size(c)) / 2;
      v.Num? && if IsSigned(c) then -half <= v.n < half else 0 <= v.n < 2 * half
  }

  /** default(T): zero, or the null string. */
  function Default(c: Converter): (v: Value)
    ensures Fits(c, v)
  {
    if c.UTF8FixedWidthConverter? then Null else Num(0)
  }

  /** The unsigned pattern of a value in Size(c) bytes (two's complement when signed). */
  function Pattern(c: Converter, n: int): int
  {
    if n < 0 then n + Power256(Size(c)) else n
  }

  /** The value whose pattern is u. */
  function FromPattern(c: Converter, u: int): int
  {
    if IsSigned(c) && u >= Power256(Size(c)) / 2 then u - Power256(Size(c)) else u
  }

  function LittleEndian(x: nat, n: nat): (r: seq<Byte>)
    ensures |r| == n
  {
    if n == 0 then [] else [x % 256] + LittleEndian(x / 256, n - 1)
  }

  function FromLittleEndian(b: seq<Byte>): nat
  {
    if b == [] then 0 else b[0] + 256 * FromLittleEndian(b[1..])
  }

  /** BitConverter's byte order: little-endian bytes as they are on a little-endian host,
      reversed on a big-endian one. */
  function HostOrder(b: seq<Byte>, littleEndianHost: bool): (r: seq<Byte>)
    ensures |r| == |b|
  {
    if littleEndianHost then b else ValueTypeExtensions.Reverse(b)
  }

  function Zeros(n: nat): (r: seq<Byte>)
    ensures |r| == n && forall i :: 0 <= i < n ==> r[i] == 0
  {
    seq(n, _ => 0)
  }

  /** GetBytes: the Size bytes a converter writes for a value. A string is encoded into a
      zero-filled array of the field's width: a null string raises NullReferenceException
      and one whose encoding is longer than the width raises ArgumentException. */
  function GetBytes(c: Converter, v: Value, littleEndianHost: bool): (r: Result<seq<Byte>>)
    requires Fits(c, v)
    ensures r.Ok? ==> |r.value| == Size(c)
    ensures r.Err? <==> c.UTF8FixedWidthConverter? && (v.Null? || |v.utf8| > c.width)
  {
    match c
    case UTF8FixedWidthConverter(w) =>
      if v.Null? then Err(NullReference)
      else if |v.utf8| > w then Err(Argument)
      else Ok(v.utf8 + Zeros(w - |v.utf8|))
    case _ =>
      PatternBounds(c, v.n);
      Ok(HostOrder(LittleEndian(Pattern(c, v.n), Size(c)), littleEndianHost))
  }

  /** The length of b without its trailing zero bytes. */
  function SignificantLength(b: seq<Byte>): (n: nat)
    ensures n <= |b|
  {
    if b == [] || b[|b| - 1] != 0 then |b| else SignificantLength(b[..|b| - 1])
  }

  /** GetValue: the value stored in Size bytes. The string converter drops the trailing
      zero bytes. */
  function GetValue(c: Converter, b: seq<Byte>, littleEndianHost: bool): (v: Value)
    requires |b| == Size(c)
    ensures Fits(c, v)
  {
    match c
    case UTF8FixedWidthConverter(_) => Text(b[..SignificantLength(b)])
    case _ =>
      var u := FromLittleEndian(HostOrder(b, littleEndianHost));
      FromLittleEndianBound(HostOrder(b, littleEndianHost));
      FromPatternBounds(c, u);
      Num(FromPattern(c, u))
  }

  /** UTF8FixedWidthConverter.GetValue's loop: count down from the width while the byte
      before the count is 0. */
  method TrimmedLength(buffer: array<Byte>, index: nat, width: nat) returns (length: nat)
    requires index + width <= buffer.Length
    ensures length == SignificantLength(buffer[index..index + width])
  {
    length := width;
    while length > 0 && buffer[index + length - 1] == 0
      invariant length <= width
      invariant SignificantLength(buffer[index..index + length]) == SignificantLength(buffer[index..index + width])
    {
      assert buffer[index..index + length][..length - 1] == buffer[index..index + length - 1];
      length := length - 1;
    }
  }

  // ---------------------------------------------------------------------------
  // Round trips

  lemma {:induction false} FromLittleEndianBound(b: seq<Byte>)
    ensures FromLittleEndian(b) < Power256(|b|)
  {
    if b != [] {
      FromLittleEndianBound(b[1..]);
    }
  }

  lemma {:induction false} LittleEndianRoundTrip(x: nat, n: nat)
    requires x < Power256(n)
    ensures FromLittleEndian(LittleEndian(x, n)) == x
  {
    if n > 0 {
      var b := LittleEndian(x, n);
      assert b[1..] == LittleEndian(x / 256, n - 1);
      LittleEndianRoundTrip(x / 256, n - 1);
    }
  }

  lemma {:induction false} FromLittleEndianRoundTrip(b: seq<Byte>)
    ensures LittleEndian(FromLittleEndian(b), |b|) == b
  {
    if b != [] {
      var x := FromLittleEndian(b);
      assert x % 256 == b[0] && x / 256 == FromLittleEndian(b[1..]);
      FromLittleEndianRoundTrip(b[1..]);
    }
  }

  lemma PatternBounds(c: Converter, n: int)
    requires Integral(c) || c.SingleConverter? || c.DoubleConverter?
    requires Fits(c, Num(n))
    ensures 0 <= Pattern(c, n) < Power256(Size(c))
    ensures FromPattern(c, Pattern(c, n)) == n
  {
    Power256Values();
  }

  lemma FromPatternBounds(c: Converter, u: int)
    requires Integral(c) || c.SingleConverter? || c.DoubleConverter?
    requires 0 <= u < Power256(Size(c))
    ensures Fits(c, Num(FromPattern(c, u)))
    ensures Pattern(c, FromPattern(c, u)) == u
  {
    Power256Values();
  }

  lemma HostOrderInvolution(b: seq<Byte>, littleEndianHost: bool)
    ensures HostOrder(HostOrder(b, littleEndianHost), littleEndianHost) == b
  {
    if !littleEndianHost {
      ValueTypeExtensions.ReverseInvolution(b);
    }
  }

  lemma {:induction false} SignificantPrefix(t: seq<Byte>, k: nat)
    requires t == [] || t[|t| - 1] != 0
    ensures SignificantLength(t + Zeros(k)) == |t|
  {
    if k > 0 {
      assert (t + Zeros(k))[..|t| + k - 1] == t + Zeros(k - 1);
      SignificantPrefix(t, k - 1);
    } else {
      assert t + Zeros(0) == t;
    }
  }

  lemma {:induction false} SignificantSuffix(b: seq<Byte>)
    ensures b == b[..SignificantLength(b)] + Zeros(|b| - SignificantLength(b))
    ensures SignificantLength(b) > 0 ==> b[SignificantLength(b) - 1] != 0
  {
    if b != [] && b[|b| - 1] == 0 {
      var p := b[..|b| - 1];
      SignificantSuffix(p);
      assert p[..SignificantLength(p)] == b[..SignificantLength(b)];
      assert b == p + [0];
    } else {
      assert b[..|b|] == b;
    }
  }

  /** Writing a value and reading it back gives the value, except that a string loses its
      trailing zero bytes. */
  lemma GetValueOfGetBytes(c: Converter, v: Value, littleEndianHost: bool)
    requires Fits(c, v) && GetBytes(c, v, littleEndianHost).Ok?
    ensures GetValue(c, GetBytes(c, v, littleEndianHost).value, littleEndianHost) ==
      if c.UTF8FixedWidthConverter? then Text(v.utf8[..SignificantLength(v.utf8)]) else v
  {
    if c.UTF8FixedWidthConverter? {
      TextRoundTrip(c.width, v.utf8);
    } else {
      PatternBounds(c, v.n);
      HostOrderInvolution(LittleEndian(Pattern(c, v.n), Size(c)), littleEndianHost);
      LittleEndianRoundTrip(Pattern(c, v.n), Size(c));
    }
  }

  lemma TextRoundTrip(width: nat, s: seq<Byte>)
    requires |s| <= width
    ensures var b := s + Zeros(width - |s|);
      b[..SignificantLength(b)] == s[..SignificantLength(s)]
  {
    var b := s + Zeros(width - |s|);
    var t := s[..SignificantLength(s)];
    SignificantSuffix(s);
    var k := |s| - |t|;
    assert b == t + (Zeros(k) + Zeros(width - |s|));
    assert Zeros(k) + Zeros(width - |s|) == Zeros(k + (width - |s|));
    SignificantPrefix(t, k + (width - |s|));
    assert b[..|t|] == t;
  }

  /** Reading Size bytes and writing the value back reproduces the bytes. */
  lemma GetBytesOfGetValue(c: Converter, b: seq<Byte>, littleEndianHost: bool)
    requires |b| == Size(c)
    ensures GetBytes(c, GetValue(c, b, littleEndianHost), littleEndianHost) == Ok(b)
  {
    if c.UTF8FixedWidthConverter? {
      SignificantSuffix(b);
    } else {
      var h := HostOrder(b, littleEndianHost);
      FromLittleEndianBound(h);
      FromPatternBounds(c, FromLittleEndian(h));
      FromLittleEndianRoundTrip(h);
      HostOrderInvolution(b, littleEndianHost);
    }
  }
}
