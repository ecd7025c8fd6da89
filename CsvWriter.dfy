/** Common/CSVWriter.cs: RFC 4180 escaping of one value and a writer that appends
    comma-separated fields and line ends to its output. The output stream is modelled
    as the text written so far. */
module CsvWriter {
  import opened Integers
  import StringExtensions

  const Quote: char := '"'
  const CarriageReturn: char := '\r'
  const LineFeed: char := '\n'

  /** string.Contains(sub), ordinal; every string contains the empty string. */
  predicate Contains(s: string, sub: string)
  {
    |sub| <= |s| && (s[..|sub|] == sub || (s != [] && Contains(s[1..], sub)))
  }

  lemma {:induction false} ContainsChar(s: string, c: char)
    ensures Contains(s, [c]) <==> c in s
  {
    if s != [] {
      ContainsChar(s[1..], c);
      assert c in s <==> s[0] == c || c in s[1..];
    }
  }

  /** Every '"' doubled (StringBuilder.Replace("\"", "\"\"")). */
  function DoubleQuotes(s: string): (r: string)
    ensures |r| >= |s|
  {
    if s == [] then [] else (if s[0] == Quote then [Quote, Quote] else [s[0]]) + DoubleQuotes(s[1..])
  }

  /** The reading side of the escape: a pair of '"' stands for one '"'. */
  function UndoubleQuotes(s: string): string
  {
    if s == [] then []
    else if |s| >= 2 && s[0] == Quote && s[1] == Quote then [Quote] + UndoubleQuotes(s[2..])
    else [s[0]] + UndoubleQuotes(s[1..])
  }

  lemma {:induction false} UndoubleDoubleQuotes(s: string)
    ensures UndoubleQuotes(DoubleQuotes(s)) == s
  {
    if s != [] {
      UndoubleDoubleQuotes(s[1..]);
      var head := if s[0] == Quote then [Quote, Quote] else [s[0]];
      var t := head + DoubleQuotes(s[1..]);
      if s[0] == Quote {
        assert t[2..] == DoubleQuotes(s[1..]);
      } else {
        assert t[1..] == DoubleQuotes(s[1..]);
      }
      assert [s[0]] + s[1..] == s;
    }
  }

  /** FormatDelimiterSeparatedValue(delimiter, value). */
  function FormatDelimiterSeparatedValue(delimiter: string, value: string): (r: string)
    ensures |r| >= |value|
  {
    if |value| >= 2 && value[|value| - 1] == Quote && value[0] == Quote then
      [Quote] + DoubleQuotes(value[1..|value| - 1]) + [Quote]
    else if Contains(value, delimiter) || CarriageReturn in value || LineFeed in value then
      [Quote] + DoubleQuotes(value) + [Quote]
    else
      value
  }

  /** Reading a quoted field back: strip the enclosing quotes and undouble the rest. */
  function ReadQuotedField(field: string): string
    requires |field| >= 2
  {
    UndoubleQuotes(field[1..|field| - 1])
  }

  /** The three cases of the escaping: a value already enclosed in quotes keeps them and
      reads back as its inside; a value holding the delimiter, CR or LF gets enclosed and
      reads back unchanged; any other value is written as is. */
  lemma FormatCases(delimiter: string, value: string)
    ensures var r := FormatDelimiterSeparatedValue(delimiter, value);
      if |value| >= 2 && value[0] == Quote && value[|value| - 1] == Quote then
        r[0] == Quote && r[|r| - 1] == Quote && ReadQuotedField(r) == value[1..|value| - 1]
      else if Contains(value, delimiter) || CarriageReturn in value || LineFeed in value then
        r[0] == Quote && r[|r| - 1] == Quote && ReadQuotedField(r) == value
      else
        r == value
  {
    var r := FormatDelimiterSeparatedValue(delimiter, value);
    if |value| >= 2 && value[0] == Quote && value[|value| - 1] == Quote {
      UndoubleDoubleQuotes(value[1..|value| - 1]);
      assert r[1..|r| - 1] == DoubleQuotes(value[1..|value| - 1]);
    } else if Contains(value, delimiter) || CarriageReturn in value || LineFeed in value {
      UndoubleDoubleQuotes(value);
      assert r[1..|r| - 1] == DoubleQuotes(value);
    }
  }

  /** string.Replace("\r\n", " "), scanning left to right. */
  function ReplaceCrLf(s: string): string
  {
    if s == [] then []
    else if |s| >= 2 && s[0] == CarriageReturn && s[1] == LineFeed then " " + ReplaceCrLf(s[2..])
    else [s[0]] + ReplaceCrLf(s[1..])
  }

  /** string.Replace(c, " ") for a one-character string c. */
  function ReplaceChar(s: string, c: char): (r: string)
    ensures |r| == |s|
  {
    if s == [] then [] else (if s[0] == c then " " else [s[0]]) + ReplaceChar(s[1..], c)
  }

  lemma {:induction false} ReplaceCharIndex(s: string, c: char)
    ensures forall i :: 0 <= i < |s| ==> ReplaceChar(s, c)[i] == if s[i] == c then ' ' else s[i]
  {
    if s != [] {
      ReplaceCharIndex(s[1..], c);
    }
  }

  /** What WriteField(value) writes after the separator: the escaped value with CRLF,
      then LF, then CR turned into a space. */
  function EmittedField(value: string): string
  {
    ReplaceChar(ReplaceChar(ReplaceCrLf(FormatDelimiterSeparatedValue(",", value)), LineFeed), CarriageReturn)
  }

  /** An emitted field never breaks the line. */
  lemma EmittedFieldIsOneLine(value: string)
    ensures CarriageReturn !in EmittedField(value) && LineFeed !in EmittedField(value)
  {
    var a := ReplaceCrLf(FormatDelimiterSeparatedValue(",", value));
    var b := ReplaceChar(a, LineFeed);
    var c := ReplaceChar(b, CarriageReturn);
    ReplaceCharIndex(a, LineFeed);
    ReplaceCharIndex(b, CarriageReturn);
    assert forall i :: 0 <= i < |c| ==> c[i] != CarriageReturn && c[i] != LineFeed;
  }

  /** A CRLF pair becomes a single space, not two. */
  lemma CrLfBecomesOneSpace()
    ensures EmittedField("a\r\nb") == "\"a b\""
  {
    CrLfSampleQuoted();
    CrLfSampleReplaced();
    SpacedSampleKept();
  }

  lemma SpacedSampleKept()
    ensures ReplaceChar(ReplaceChar("\"a b\"", LineFeed), CarriageReturn) == "\"a b\""
  {
    var quoted := "\"a b\"";
    assert quoted == ['"', 'a', ' ', 'b', '"'];
    ReplaceCharAbsent(quoted, LineFeed);
    ReplaceCharAbsent(quoted, CarriageReturn);
  }

  lemma CrLfSampleQuoted()
    ensures FormatDelimiterSeparatedValue(",", "a\r\nb") == "\"a\r\nb\""
  {
    assert CarriageReturn in "a\r\nb" by {
      assert "a\r\nb"[1] == CarriageReturn;
    }
  }

  lemma CrLfSampleReplaced()
    ensures ReplaceCrLf("\"a\r\nb\"") == "\"a b\""
  {
    var f := "\"a\r\nb\"";
    assert f[1..] == "a\r\nb\"" && f[1..][1..] == "\r\nb\"" && f[1..][1..][2..] == "b\"";
    assert ReplaceCrLf("b\"") == "b\"" by {
      assert "b\""[1..] == "\"" && "\""[1..] == "";
    }
  }

  function DigitChar(d: nat): (c: char)
    requires d < 10
    ensures '0' <= c <= '9' && (c - '0') as nat == d
  {
    ('0' as int + d) as char
  }

  /** The invariant-culture decimal digits of n. */
  function Digits(n: nat): (r: string)
    ensures |r| >= 1
    ensures forall i :: 0 <= i < |r| ==> '0' <= r[i] <= '9'
  {
    if n < 10 then [DigitChar(n)] else Digits(n / 10) + [DigitChar(n % 10)]
  }

  function ParseDigits(s: string): nat
  {
    if s == [] then 0 else 10 * ParseDigits(s[..|s| - 1]) + (if '0' <= s[|s| - 1] <= '9' then (s[|s| - 1] - '0') as nat else 0)
  }

  lemma {:induction false} DigitsRoundTrip(n: nat)
    ensures ParseDigits(Digits(n)) == n
  {
    var r := Digits(n);
    if n >= 10 {
      DigitsRoundTrip(n / 10);
      assert r[..|r| - 1] == Digits(n / 10);
      assert r[|r| - 1] == DigitChar(n % 10);
      assert ParseDigits(r) == 10 * (n / 10) + n % 10;
    } else {
      assert r[..|r| - 1] == [];
    }
  }

  /** Int32.ToString(CultureInfo.InvariantCulture). */
  function DecimalString(x: int): (r: string)
  {
    if x < 0 then "-" + Digits(-x) else Digits(x)
  }

  predicate IsNumberText(s: string)
  {
    |s| >= 1 && forall i :: 0 <= i < |s| ==> s[i] == '-' || '0' <= s[i] <= '9'
  }

  lemma {:induction false} ReplaceCharAbsent(s: string, c: char)
    requires c !in s
    ensures ReplaceChar(s, c) == s
  {
    ReplaceCharIndex(s, c);
  }

  lemma {:induction false} NoCrLfUnchanged(s: string)
    requires CarriageReturn !in s
    ensures ReplaceCrLf(s) == s
  {
    if s != [] {
      NoCrLfUnchanged(s[1..]);
      assert [s[0]] + s[1..] == s;
    }
  }

  lemma NumberTextUnescaped(s: string)
    requires IsNumberText(s)
    ensures FormatDelimiterSeparatedValue(",", s) == s
  {
    assert s[0] != Quote;
    ContainsChar(s, ',');
  }

  /** A number's text holds no quote, comma, CR or LF, so it is written unescaped. */
  lemma NumberFieldUnescaped(x: int)
    ensures EmittedField(DecimalString(x)) == DecimalString(x)
  {
    var s := DecimalString(x);
    assert IsNumberText(s) by {
      if x < 0 {
        assert forall i :: 1 <= i < |s| ==> s[i] == Digits(-x)[i - 1];
      }
    }
    NumberTextUnescaped(s);
    NoCrLfUnchanged(s);
    ReplaceCharAbsent(s, LineFeed);
    ReplaceCharAbsent(s, CarriageReturn);
  }

  /** A field argument of WriteLine(params object[]): null, a string (or any object's
      ToString), an Int32 or a UInt32. */
  datatype FieldValue = NullField | TextField(text: string) | Int32Field(i: Int32) | UInt32Field(u: UInt32)

  /** The text WriteLine hands to WriteField(string) for one argument. */
  function FieldText(f: FieldValue): string
  {
    match f
    case NullField => ""
    case TextField(t) => t
    case Int32Field(i) => DecimalString(i)
    case UInt32Field(u) => DecimalString(u)
  }

  /** The emitted text of each WriteLine argument, in order. */
  function EmittedFields(fields: seq<FieldValue>): (r: seq<string>)
    ensures |r| == |fields|
  {
    if fields == [] then [] else EmittedFields(fields[..|fields| - 1]) + [EmittedField(FieldText(fields[|fields| - 1]))]
  }

  class CSVWriter {
    /** The text written to the underlying stream so far. */
    var output: string
    /** _StartOfLine: the next field is the first on its line. */
    var startOfLine: bool
    /** The StreamWriter's line terminator. */
    const newLine: string

    constructor (newLine: string)
      ensures output == "" && startOfLine && this.newLine == newLine
    {
      this.newLine := newLine;
      output := "";
      startOfLine := true;
    }

    /** WriteField(string): a separating comma unless at the start of a line, then the
        escaped value on one line. */
    method WriteField(value: string)
      modifies this
      ensures output == old(output) + (if old(startOfLine) then "" else ",") + EmittedField(value)
      ensures !startOfLine
    {
      if startOfLine {
        startOfLine := false;
      } else {
        output := output + ",";
      }
      var v := FormatDelimiterSeparatedValue(",", value);
      v := ReplaceCrLf(v);
      v := ReplaceChar(v, LineFeed);
      v := ReplaceChar(v, CarriageReturn);
      output := output + v;
    }

    /** WriteField(): an empty field. */
    method WriteEmptyField()
      modifies this
      ensures output == old(output) + (if old(startOfLine) then "" else ",")
      ensures !startOfLine
    {
      WriteField("");
      assert EmittedField("") == "" by {
        assert !Contains("", ",");
      }
    }

    /** WriteField(Int32) and WriteField(UInt32): the decimal text, never escaped. */
    method WriteInt32Field(value: Int32)
      modifies this
      ensures output == old(output) + (if old(startOfLine) then "" else ",") + DecimalString(value)
      ensures !startOfLine
    {
      NumberFieldUnescaped(value);
      WriteField(DecimalString(value));
    }

    method WriteUInt32Field(value: UInt32)
      modifies this
      ensures output == old(output) + (if old(startOfLine) then "" else ",") + DecimalString(value)
      ensures !startOfLine
    {
      NumberFieldUnescaped(value);
      WriteField(DecimalString(value));
    }

    method WriteEndOfLine()
      modifies this
      ensures output == old(output) + newLine
      ensures startOfLine
    {
      output := output + newLine;
      startOfLine := true;
    }

    /** WriteLine(fields): each argument as one field, then the line end. The fields
        are joined by commas (one fewer than there are fields), preceded by one more
        comma if the line already held fields. */
    method WriteLine(fields: seq<FieldValue>)
      modifies this
      ensures output == old(output) + (if |fields| > 0 && !old(startOfLine) then "," else "")
                        + StringExtensions.Join(EmittedFields(fields), ",") + newLine
      ensures startOfLine
    {
      ghost var start, atStart, texts := output, startOfLine, EmittedFields(fields);
      WriteFields(fields);
      WrittenFieldsJoin(atStart, texts);
      ghost var lead := if |fields| > 0 && !atStart then "," else "";
      WriteEndOfLine();
      AppendAssoc(start, lead, StringExtensions.Join(texts, ","), newLine);
    }

    /** The WriteField calls of WriteLine(fields), one per argument. */
    method WriteFields(fields: seq<FieldValue>)
      modifies this
      ensures output == old(output) + WrittenFields(old(startOfLine), EmittedFields(fields))
      ensures startOfLine == (old(startOfLine) && |fields| == 0)
    {
      ghost var start := output;
      ghost var atStart := startOfLine;
      for i := 0 to |fields|
        invariant output == start + WrittenFields(atStart, EmittedFields(fields[..i]))
        invariant startOfLine == (atStart && i == 0)
      {
        ghost var es := EmittedFields(fields[..i]);
        var text := FieldText(fields[i]);
        WriteField(text);
        ghost var e := EmittedField(text);
        EmittedFieldsSnoc(fields, i);
        WrittenFieldsSnoc(atStart, es, e);
        AppendAssoc(start, WrittenFields(atStart, es), if i == 0 && atStart then "" else ",", e);
      }
      assert fields[..|fields|] == fields;
    }
  }

  /** The text the WriteField calls of WriteLine append for fields emitted as `texts`,
      starting on a fresh line iff atStart: a comma before every field but a first one
      at the start of a line. */
  function WrittenFields(atStart: bool, texts: seq<string>): string
  {
    if texts == [] then ""
    else
      var k := |texts| - 1;
      WrittenFields(atStart, texts[..k]) + (if k == 0 && atStart then "" else ",") + texts[k]
  }

  lemma AppendAssoc(a: string, b: string, c: string, d: string)
    ensures a + (b + c + d) == a + b + c + d
    ensures (a + (b + c)) + d == a + b + c + d
  {
  }

  lemma EmittedFieldsSnoc(fields: seq<FieldValue>, i: nat)
    requires i < |fields|
    ensures EmittedFields(fields[..i + 1]) == EmittedFields(fields[..i]) + [EmittedField(FieldText(fields[i]))]
  {
    assert fields[..i + 1][..i] == fields[..i];
  }

  /** One more field extends the written text by a separator and the field. */
  lemma WrittenFieldsSnoc(atStart: bool, texts: seq<string>, e: string)
    ensures WrittenFields(atStart, texts + [e]) ==
      WrittenFields(atStart, texts) + (if |texts| == 0 && atStart then "" else ",") + e
  {
    assert (texts + [e])[..|texts|] == texts;
  }

  lemma {:induction false} WrittenFieldsJoin(atStart: bool, texts: seq<string>)
    ensures WrittenFields(atStart, texts) ==
      (if |texts| > 0 && !atStart then "," else "") + StringExtensions.Join(texts, ",")
  {
    if texts != [] {
      var k := |texts| - 1;
      var e := texts[k];
      var ek := texts[..k];
      var lead := if atStart then "" else ",";
      WrittenFieldsJoin(atStart, ek);
      assert texts == ek + [e];
      JoinSnoc(ek, e, ",");
      if k == 0 {
        assert WrittenFields(atStart, texts) == "" + lead + e;
        assert "" + lead + e == lead + e;
      } else {
        var j := StringExtensions.Join(ek, ",");
        assert WrittenFields(atStart, texts) == (lead + j) + "," + e;
        AppendAssoc(lead, j, ",", e);
      }
    }
  }

  lemma {:induction false} JoinSnoc(a: seq<string>, x: string, sep: string)
    ensures StringExtensions.Join(a + [x], sep) == if a == [] then x else StringExtensions.Join(a, sep) + sep + x
  {
    if |a| == 1 {
      assert (a + [x])[1..] == [x];
    } else if |a| > 1 {
      JoinSnoc(a[1..], x, sep);
      assert (a + [x])[1..] == a[1..] + [x];
    }
  }
}
