/** Common/UrlUtils.cs: removing a URL's scheme and joining path segments. */
module UrlUtils {

  /** pattern occurs in s at index i. */
  predicate OccursAt(s: string, pattern: string, i: int)
  {
    0 <= i <= |s| - |pattern| && s[i..i + |pattern|] == pattern
  }

  /** string.IndexOf(pattern, StringComparison.Ordinal) searching from index from:
      the first occurrence at or after from, or -1. */
  function IndexOfFrom(s: string, pattern: string, from: nat): (r: int)
    requires from <= |s|
    ensures r == -1 || (from <= r && OccursAt(s, pattern, r))
    ensures r == -1 ==> forall i :: from <= i ==> !OccursAt(s, pattern, i)
    ensures r != -1 ==> forall i :: from <= i < r ==> !OccursAt(s, pattern, i)
    decreases |s| - from
  {
    if |s| - from < |pattern| then -1
    else if s[from..from + |pattern|] == pattern then from
    else if from == |s| then -1
    else IndexOfFrom(s, pattern, from + 1)
  }

  function IndexOf(s: string, pattern: string): (r: int)
  {
    IndexOfFrom(s, pattern, 0)
  }

  /** RemoveSchema: the text after the first "://" when that occurs at an index from 1
      to 15, and the URL itself otherwise. */
  function RemoveSchema(url: string): (r: string)
  {
    var delim := IndexOf(url, "://");
    if 0 < delim < 16 then url[delim + 3..] else url
  }

  /** The result is always a suffix of the URL; the scheme is dropped exactly when the
      first "://" sits at index 1 .. 15, and then everything through it goes. */
  lemma RemoveSchemaSuffix(url: string)
    ensures var r := RemoveSchema(url);
      |r| <= |url| && url[|url| - |r|..] == r
    ensures var d := IndexOf(url, "://");
      if 0 < d < 16 then
        RemoveSchema(url) == url[d + 3..] && OccursAt(url, "://", d) &&
        forall i :: 0 <= i < d ==> !OccursAt(url, "://", i)
      else RemoveSchema(url) == url
  {
  }

  lemma RemoveSchemaExamples()
    ensures RemoveSchema("http://mimeo/job1") == "mimeo/job1"
    ensures RemoveSchema("://x") == "://x"
    ensures RemoveSchema("mimeo/job1") == "mimeo/job1"
  {
    var u := "http://mimeo/job1";
    assert u[4..7] == "://";
    assert u[0] != ':' && u[1] != ':' && u[2] != ':' && u[3] != ':';
    assert !OccursAt(u, "://", 0) && !OccursAt(u, "://", 1) && !OccursAt(u, "://", 2) && !OccursAt(u, "://", 3) by {
      assert u[0..3][0] == u[0] && u[1..4][0] == u[1] && u[2..5][0] == u[2] && u[3..6][0] == u[3];
    }
    assert IndexOf(u, "://") == 4;
    assert u[7..] == "mimeo/job1";
    var v := "://x";
    assert v[0..3] == "://";
    var w := "mimeo/job1";
    assert IndexOf(w, "://") == -1 by {
      forall i | 0 <= i <= |w| - 3
        ensures !OccursAt(w, "://", i)
      {
        assert w[i..i + 3][0] == w[i] != ':';
      }
    }
  }

  /** string.TrimStart('/') and TrimEnd('/'). */
  function TrimStart(s: string): (r: string)
    ensures r == [] || r[0] != '/'
  {
    if s != [] && s[0] == '/' then TrimStart(s[1..]) else s
  }

  function TrimEnd(s: string): (r: string)
    ensures r == [] || r[|r| - 1] != '/'
  {
    if s != [] && s[|s| - 1] == '/' then TrimEnd(s[..|s| - 1]) else s
  }

  /** Trim('/'): only slashes are removed, from both ends. */
  function Trim(s: string): (r: string)
  {
    TrimEnd(TrimStart(s))
  }

  lemma {:induction false} TrimEndKeepsFirst(s: string)
    requires s != [] && s[0] != '/'
    ensures TrimEnd(s) != [] && TrimEnd(s)[0] == s[0]
  {
    if s[|s| - 1] == '/' {
      TrimEndKeepsFirst(s[..|s| - 1]);
    }
  }

  /** A trimmed segment neither starts nor ends with '/', sits inside the segment, and
      trimming again changes nothing. */
  lemma TrimProperties(s: string)
    ensures var t := Trim(s);
      (t == [] || (t[0] != '/' && t[|t| - 1] != '/')) && Trim(t) == t
  {
    var a := TrimStart(s);
    var t := TrimEnd(a);
    if a != [] {
      TrimEndKeepsFirst(a);
    }
    assert TrimStart(t) == t;
  }

  /** The string JoinFromRoot builds: "/" and the trimmed segment, for each segment. */
  function Rooted(segments: seq<string>): string
  {
    if segments == [] then "" else "/" + Trim(segments[0]) + Rooted(segments[1..])
  }

  lemma {:induction false} RootedSnoc(segments: seq<string>, s: string)
    ensures Rooted(segments + [s]) == Rooted(segments) + "/" + Trim(s)
  {
    var tail := "/" + Trim(s);
    if segments == [] {
      assert segments + [s] == [s];
      assert Rooted([s]) == tail + Rooted([]);
    } else {
      var head := "/" + Trim(segments[0]);
      var rest := segments[1..];
      assert (segments + [s])[1..] == rest + [s];
      assert Rooted(segments + [s]) == head + Rooted(rest + [s]);
      RootedSnoc(rest, s);
      assert Rooted(rest + [s]) == Rooted(rest) + tail;
      assert head + (Rooted(rest) + tail) == (head + Rooted(rest)) + tail;
    }
  }

  /** No segments give ""; otherwise the path begins at the root. */
  lemma RootedShape(segments: seq<string>)
    ensures segments == [] <==> Rooted(segments) == ""
    ensures segments != [] ==> Rooted(segments)[0] == '/'
  {
  }

  method JoinFromRoot(segments: seq<string>) returns (path: string)
    ensures path == Rooted(segments)
  {
    path := "";
    for i := 0 to |segments|
      invariant path == Rooted(segments[..i])
    {
      path := path + "/";
      path := path + Trim(segments[i]);
      RootedSnoc(segments[..i], segments[i]);
      assert segments[..i + 1] == segments[..i] + [segments[i]];
    }
    assert segments[..|segments|] == segments;
  }
}
