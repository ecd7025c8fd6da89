/** Common/StringExtensions.cs: substring, field-splitting and counting helpers on
    strings. string.Split(char) and string.Join are defined here as recursive functions.
    Characters compare ordinally; the suffix test of RemoveFromEnd, culture-sensitive
    in the source, is ordinal here as well. */
module StringExtensions {
  import opened Wrappers
  import opened ValueTypeExtensions

  /** string.Split(delimiter): the pieces between delimiters, in order, including empty
      pieces before a leading, after a trailing and between adjacent delimiters. */
  function Split(s: string, d: char): (r: seq<string>)
    ensures |r| >= 1
  {
    if s == [] then [""]
    else
      var rest := Split(s[1..], d);
      if s[0] == d then [""] + rest else [[s[0]] + rest[0]] + rest[1..]
  }

  /** string.Join(separator, pieces). */
  function Join(pieces: seq<string>, sep: string): string
  {
    if |pieces| == 0 then ""
    else if |pieces| == 1 then pieces[0]
    else pieces[0] + sep + Join(pieces[1..], sep)
  }

  /** The occurrences of c in s (Count(character)). */
  function Count(s: string, c: char): (r: nat)
    ensures r <= |s|
  {
    if s == [] then 0 else (if s[0] == c then 1 else 0) + Count(s[1..], c)
  }

  lemma {:induction false} SplitPieces(s: string, d: char)
    ensures |Split(s, d)| == Count(s, d) + 1
    ensures forall i :: 0 <= i < |Split(s, d)| ==> d !in Split(s, d)[i]
  {
    if s != [] {
      SplitPieces(s[1..], d);
      var rest := Split(s[1..], d);
      if s[0] != d {
        var r := Split(s, d);
        forall i | 0 <= i < |r|
          ensures d !in r[i]
        {
          if i == 0 {
            assert r[0] == [s[0]] + rest[0];
          } else {
            assert r[i] == rest[i];
          }
        }
      }
    }
  }

  /** Joining the pieces with the delimiter gives back the string. */
  lemma {:induction false} JoinSplit(s: string, d: char)
    ensures Join(Split(s, d), [d]) == s
  {
    if s != [] {
      JoinSplit(s[1..], d);
      var rest := Split(s[1..], d);
      if s[0] == d {
        assert ([""] + rest)[1..] == rest;
      } else {
        var r := [[s[0]] + rest[0]] + rest[1..];
        if |rest| > 1 {
          assert r[1..] == rest[1..];
        }
        assert Join(r, [d]) == [s[0]] + Join(rest, [d]);
      }
    }
  }

  lemma {:induction false} JoinAppend(a: seq<string>, b: seq<string>, sep: string)
    requires |a| >= 1 && |b| >= 1
    ensures Join(a + b, sep) == Join(a, sep) + sep + Join(b, sep)
  {
    if |a| > 1 {
      JoinAppend(a[1..], b, sep);
      assert (a + b)[1..] == a[1..] + b;
    } else {
      assert (a + b)[1..] == b;
    }
  }

  /** LINQ Skip: a negative count skips nothing, a count past the end leaves nothing. */
  function SkipPieces(xs: seq<string>, n: int): (r: seq<string>)
    ensures |r| <= |xs|
  {
    if n <= 0 then xs else if n >= |xs| then [] else xs[n..]
  }

  /** LINQ Take: a negative count takes nothing, a count past the end takes all. */
  function TakePieces(xs: seq<string>, n: int): (r: seq<string>)
    ensures |r| <= |xs|
  {
    if n <= 0 then [] else if n >= |xs| then xs else xs[..n]
  }

  /** Field(index, delimiter): piece index, or IndexOutOfRangeException. */
  function Field(s: string, index: int, d: char): (r: Result<string>)
    ensures r.Ok? <==> 0 <= index < |Split(s, d)|
    ensures r.Ok? ==> d !in r.value
    ensures r.Err? ==> r.error == IndexOutOfRange
  {
    SplitPieces(s, d);
    var pieces := Split(s, d);
    if 0 <= index < |pieces| then Ok(pieces[index]) else Err(IndexOutOfRange)
  }

  function Fields(s: string, startIndex: int, count: int, d: char): string
  {
    Join(TakePieces(SkipPieces(Split(s, d), startIndex), count), [d])
  }

  function FirstFields(s: string, count: int, d: char): string
  {
    Join(TakePieces(Split(s, d), count), [d])
  }

  function LastFields(s: string, startIndex: int, d: char): string
  {
    Join(SkipPieces(Split(s, d), startIndex), [d])
  }

  /** Fields(i, n) rejoins pieces i .. i+n-1; a single field is Field(i). */
  lemma FieldsArePieces(s: string, startIndex: nat, count: nat, d: char)
    requires startIndex + count <= |Split(s, d)|
    ensures Fields(s, startIndex, count, d) == Join(Split(s, d)[startIndex..startIndex + count], [d])
    ensures count == 1 ==> Field(s, startIndex, d) == Ok(Fields(s, startIndex, count, d))
  {
    var p := Split(s, d);
    if 0 < count {
      if startIndex == 0 && count == |p| {
        assert p[startIndex..startIndex + count] == p;
      } else if startIndex == 0 {
        assert p[startIndex..startIndex + count] == p[..count];
      } else if count == |p| - startIndex {
        assert p[startIndex..] == p[startIndex..startIndex + count];
      } else {
        assert p[startIndex..][..count] == p[startIndex..startIndex + count];
      }
    }
  }

  /** FirstFields with no fields is "", with all fields is the whole string;
      LastFields from 0 is the whole string, and FirstFields(n) and LastFields(n) are the
      two sides of the n-th delimiter. */
  lemma FirstAndLastFields(s: string, n: int, d: char)
    ensures n <= 0 ==> FirstFields(s, n, d) == "" && LastFields(s, n, d) == s
    ensures n >= |Split(s, d)| ==> FirstFields(s, n, d) == s && LastFields(s, n, d) == ""
    ensures 0 < n < |Split(s, d)| ==> FirstFields(s, n, d) + [d] + LastFields(s, n, d) == s
  {
    var p := Split(s, d);
    JoinSplit(s, d);
    if 0 < n < |p| {
      JoinAppend(p[..n], p[n..], [d]);
      assert p[..n] + p[n..] == p;
    }
  }

  lemma FirstFieldsExamples()
    ensures FirstFields("/1/2", 2, '/') == "/1"
    ensures FirstFields("1//", 2, '/') == "1/"
    ensures FirstFields("/1/2/", 1, '/') == ""
    ensures FirstFields("1/2/3", 2, '/') == "1/2"
  {
    SplitOneTwo();
    SplitSlashes();
    SplitTrailingSlash();
    SplitOneTwoThree();
  }

  lemma SplitOneTwo()
    ensures Split("/1/2", '/') == ["", "1", "2"]
  {
    assert Split("", '/') == [""];
    assert Split("2", '/') == ["2"] by {
      assert "2"[1..] == "";
      assert ['2'] + "" == "2";
    }
    assert Split("/2", '/') == ["", "2"] by {
      assert "/2"[1..] == "2";
    }
    assert Split("1/2", '/') == ["1", "2"] by {
      assert "1/2"[1..] == "/2";
      assert ['1'] + "" == "1";
    }
    assert "/1/2"[1..] == "1/2";
  }

  lemma SplitSlashes()
    ensures Split("/", '/') == ["", ""]
    ensures Split("1//", '/') == ["1", "", ""]
  {
    assert Split("", '/') == [""];
    assert Split("/", '/') == ["", ""] by {
      assert "/"[1..] == "";
    }
    assert Split("//", '/') == ["", "", ""] by {
      assert "//"[1..] == "/";
    }
    assert "1//"[1..] == "//";
    assert ['1'] + "" == "1";
  }

  lemma SplitTrailingSlash()
    ensures Split("/1/2/", '/') == ["", "1", "2", ""]
  {
    SplitSlashes();
    assert Split("2/", '/') == ["2", ""] by {
      assert "2/"[1..] == "/";
      assert ['2'] + "" == "2";
    }
    assert Split("/2/", '/') == ["", "2", ""] by {
      assert "/2/"[1..] == "2/";
    }
    assert Split("1/2/", '/') == ["1", "2", ""] by {
      assert "1/2/"[1..] == "/2/";
      assert ['1'] + "" == "1";
      assert ["", "2", ""][1..] == ["2", ""];
    }
    assert "/1/2/"[1..] == "1/2/" && "/1/2/"[0] == '/';
    assert Split("/1/2/", '/') == [""] + Split("1/2/", '/');
    assert [""] + ["1", "2", ""] == ["", "1", "2", ""];
  }

  lemma SplitOneTwoThree()
    ensures Split("1/2/3", '/') == ["1", "2", "3"]
  {
    assert Split("", '/') == [""];
    assert Split("3", '/') == ["3"] by {
      assert "3"[1..] == "";
      assert ['3'] + "" == "3";
    }
    assert Split("/3", '/') == ["", "3"] by {
      assert "/3"[1..] == "3";
    }
    assert Split("2/3", '/') == ["2", "3"] by {
      assert "2/3"[1..] == "/3";
      assert ['2'] + "" == "2";
    }
    assert Split("/2/3", '/') == ["", "2", "3"] by {
      assert "/2/3"[1..] == "2/3";
    }
    assert "1/2/3"[1..] == "/2/3" && "1/2/3"[0] == '1';
    assert ['1'] + "" == "1";
    assert Split("1/2/3", '/') == [['1'] + ""] + ["", "2", "3"][1..];
    assert ["", "2", "3"][1..] == ["2", "3"];
  }

  /** Skip(count) = Substring(count); Take(count) = Substring(0, count): both throw
      ArgumentOutOfRangeException outside 0 .. Length. */
  function Skip(s: string, count: int): (r: Result<string>)
    ensures r.Ok? <==> 0 <= count <= |s|
    ensures r.Ok? ==> |r.value| == |s| - count
  {
    if 0 <= count <= |s| then Ok(s[count..]) else Err(ArgumentOutOfRange)
  }

  function Take(s: string, count: int): (r: Result<string>)
    ensures r.Ok? <==> 0 <= count <= |s|
    ensures r.Ok? ==> |r.value| == count
  {
    if 0 <= count <= |s| then Ok(s[..count]) else Err(ArgumentOutOfRange)
  }

  /** Take(n) is a prefix and Skip(n) the rest: together they rebuild the string. */
  lemma TakeThenSkip(s: string, n: int)
    requires 0 <= n <= |s|
    ensures Take(s, n).value + Skip(s, n).value == s
  {
    assert s[..n] + s[n..] == s;
  }

  /** PythonSubstring(start, end): a negative index counts from the end (once), and the
      characters from start up to end are returned; Substring throws
      ArgumentOutOfRangeException unless 0 <= start <= end <= Length. */
  function PythonSubstring(s: string, start: int, end: int): (r: Result<string>)
    ensures r.Err? ==> r.error == ArgumentOutOfRange
  {
    var e := if end < 0 then |s| + end else end;
    var b := if start < 0 then |s| + start else start;
    if 0 <= b <= e <= |s| then Ok(s[b..e]) else Err(ArgumentOutOfRange)
  }

  /** The result is the slice between the normalised indices, whose characters are
      those of s from the normalised start on; it fails exactly when the normalised
      indices are out of order or outside the string. */
  lemma PythonSubstringSlice(s: string, start: int, end: int)
    ensures var b := if start < 0 then |s| + start else start;
      var e := if end < 0 then |s| + end else end;
      (PythonSubstring(s, start, end).Ok? <==> 0 <= b <= e <= |s|) &&
      (PythonSubstring(s, start, end).Ok? ==>
        var t := PythonSubstring(s, start, end).value;
        |t| == e - b && forall i :: 0 <= i < |t| ==> t[i] == s[b + i])
  {
  }

  /** An index from the end and the same index from the front select the same text. */
  lemma PythonSubstringFromEnd(s: string, start: nat, end: nat)
    requires start < |s| && end < |s|
    ensures PythonSubstring(s, start - |s|, end - |s|) == PythonSubstring(s, start, end)
  {
  }

  lemma PythonSubstringExamples()
    ensures PythonSubstring("0123456789", 0, -1) == Ok("012345678")
    ensures PythonSubstring("0123456789", -2, -1) == Ok("8")
    ensures PythonSubstring("0123456789", -10, -7) == Ok("012")
    ensures PythonSubstring("0123456789", 9, 10) == Ok("9")
    ensures PythonSubstring("0123456789", 10, 11).Err?
    ensures PythonSubstring("0123456789", -2, -8).Err?
    ensures PythonSubstring("0123456789", 11, 9).Err?
    ensures PythonSubstring("0123456789", 5, 4).Err?
  {
    var s := "0123456789";
    assert s[0..9] == "012345678";
    assert s[8..9] == "8";
    assert s[0..3] == "012";
    assert s[9..10] == "9";
  }

  function IsEmpty(s: string): (r: bool)
    ensures r <==> |s| == 0
  {
    s == ""
  }

  /** StartsWith(char)/EndsWith(char): false for a null or empty string. */
  function StartsWith(s: Option<string>, c: char): (r: bool)
    ensures r ==> s.Some? && |s.value| > 0
  {
    s.Some? && |s.value| > 0 && s.value[0] == c
  }

  function EndsWith(s: Option<string>, c: char): (r: bool)
    ensures r ==> s.Some? && |s.value| > 0
  {
    s.Some? && |s.value| > 0 && s.value[|s.value| - 1] == c
  }

  /** A string starts with c exactly when its reversal ends with c, and a string built
      as c + t (or t + c) starts (ends) with c. */
  lemma StartsEndsWithReversal(s: string, t: string, c: char)
    ensures StartsWith(Some(s), c) <==> EndsWith(Some(Reverse(s)), c)
    ensures StartsWith(Some([c] + t), c) && EndsWith(Some(t + [c]), c)
    ensures !StartsWith(None, c) && !EndsWith(None, c) && !StartsWith(Some(""), c)
  {
    if |s| > 0 {
      ReverseIndex(s, |s| - 1);
    }
  }

  /** Split(delimiter, max) ignores max and always asks string.Split for at most three
      pieces: the first two splits happen, the rest stays in the last piece. */
  function SplitMax(s: string, d: char, max: int): (r: seq<string>)
  {
    SplitAtMost(s, d, 3)
  }

  function SplitAtMost(s: string, d: char, n: nat): (r: seq<string>)
    requires n >= 1
    ensures 1 <= |r|
  {
    if n == 1 || s == [] then [s]
    else if s[0] == d then [""] + SplitAtMost(s[1..], d, n - 1)
    else
      var rest := SplitAtMost(s[1..], d, n);
      [[s[0]] + rest[0]] + rest[1..]
  }

  lemma {:induction false} SplitWithoutDelimiter(s: string, d: char)
    requires Count(s, d) == 0
    ensures Split(s, d) == [s]
  {
    if s != [] {
      SplitWithoutDelimiter(s[1..], d);
      assert [s[0]] + s[1..] == s;
    }
  }

  /** At most n pieces, which rejoin to the string, and the plain split when there are
      fewer than n delimiters. */
  lemma {:induction false} SplitAtMostPieces(s: string, d: char, n: nat)
    requires n >= 1
    ensures |SplitAtMost(s, d, n)| <= n
    ensures Join(SplitAtMost(s, d, n), [d]) == s
    ensures Count(s, d) < n ==> SplitAtMost(s, d, n) == Split(s, d)
  {
    if n == 1 || s == [] {
      assert SplitAtMost(s, d, n) == [s];
      if Count(s, d) == 0 {
        SplitWithoutDelimiter(s, d);
      }
    } else if s[0] == d {
      var rest := SplitAtMost(s[1..], d, n - 1);
      assert SplitAtMost(s, d, n) == [""] + rest;
      SplitAtMostPieces(s[1..], d, n - 1);
      JoinHeadEmpty(rest, [d]);
      assert s == [d] + s[1..];
      assert Count(s, d) == Count(s[1..], d) + 1;
    } else {
      var rest := SplitAtMost(s[1..], d, n);
      assert SplitAtMost(s, d, n) == [[s[0]] + rest[0]] + rest[1..];
      SplitAtMostPieces(s[1..], d, n);
      JoinHeadChar(s[0], rest, [d]);
      assert s == [s[0]] + s[1..];
      assert Count(s, d) == Count(s[1..], d);
    }
  }

  lemma JoinHeadEmpty(rest: seq<string>, sep: string)
    requires |rest| >= 1
    ensures Join([""] + rest, sep) == sep + Join(rest, sep)
  {
    assert ([""] + rest)[1..] == rest;
  }

  lemma JoinHeadChar(c: char, rest: seq<string>, sep: string)
    requires |rest| >= 1
    ensures Join([[c] + rest[0]] + rest[1..], sep) == [c] + Join(rest, sep)
  {
    var r := [[c] + rest[0]] + rest[1..];
    if |rest| > 1 {
      assert r[1..] == rest[1..];
    }
  }

  function CountNonEmpty(pieces: seq<string>): (r: nat)
    ensures r <= |pieces|
  {
    if pieces == [] then 0 else (if pieces[0] != "" then 1 else 0) + CountNonEmpty(pieces[1..])
  }

  function NumNonEmptyFields(s: string, d: char): (r: nat)
    ensures r <= |Split(s, d)|
  {
    CountNonEmpty(Split(s, d))
  }

  /** There is no non-empty field exactly when the string is made of delimiters only. */
  lemma {:induction false} NoNonEmptyFields(s: string, d: char)
    ensures NumNonEmptyFields(s, d) == 0 <==> forall i :: 0 <= i < |s| ==> s[i] == d
  {
    if s != [] {
      NoNonEmptyFields(s[1..], d);
      var rest := Split(s[1..], d);
      if s[0] == d {
        assert ([""] + rest)[1..] == rest;
        assert (forall i :: 0 <= i < |s| ==> s[i] == d) <==> (forall i :: 0 <= i < |s| - 1 ==> s[1..][i] == d);
      } else {
        assert ([[s[0]] + rest[0]] + rest[1..])[0] != "";
      }
    }
  }

  /** NumFields: the delimiter count plus one, plus one more when the string starts and
      ends with the delimiter; indexing [0] throws IndexOutOfRangeException on "". */
  function NumFields(s: string, d: char): (r: Result<int>)
    ensures r.Err? <==> s == ""
    ensures r.Err? ==> r.error == IndexOutOfRange
  {
    if s == [] then Err(IndexOutOfRange)
    else
      var count := Count(s, d) + 1;
      if s[0] == d && s[|s| - 1] == d then Ok(count + 1) else Ok(count)
  }

  /** NumFields counts the pieces of Split, plus one for a string enclosed in delimiters. */
  lemma NumFieldsCountsPieces(s: string, d: char)
    requires s != ""
    ensures NumFields(s, d).value ==
      |Split(s, d)| + (if StartsWith(Some(s), d) && EndsWith(Some(s), d) then 1 else 0)
  {
    SplitPieces(s, d);
  }

  /** RemoveFromEnd: drops one trailing copy of remove, or returns the string as is. */
  function RemoveFromEnd(s: string, remove: string): (r: string)
    ensures |r| <= |s|
  {
    if |remove| <= |s| && s[|s| - |remove|..] == remove then s[..|s| - |remove|] else s
  }

  lemma RemoveFromEndSuffix(s: string, t: string, remove: string)
    ensures RemoveFromEnd(t + remove, remove) == t
    ensures RemoveFromEnd(s, remove) != s ==> RemoveFromEnd(s, remove) + remove == s
    ensures !(|remove| <= |s| && s[|s| - |remove|..] == remove) ==> RemoveFromEnd(s, remove) == s
  {
    var u := t + remove;
    assert u[|u| - |remove|..] == remove && u[..|u| - |remove|] == t;
    if |remove| <= |s| && s[|s| - |remove|..] == remove {
      assert s[..|s| - |remove|] + s[|s| - |remove|..] == s;
    }
  }
}
