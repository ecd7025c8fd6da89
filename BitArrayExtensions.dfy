/** Common/BitArrayExtensions.cs: a BitArray (its bits in index order) rendered as a
    string of '0' and '1'. */
module BitArrayExtensions {

  method ToBinaryString(a: seq<bool>) returns (s: string)
    ensures |s| == |a|
    ensures forall i :: 0 <= i < |a| ==> s[i] == if a[i] then '1' else '0'
  {
    s := "";
    for i := 0 to |a|
      invariant |s| == i
      invariant forall j :: 0 <= j < i ==> s[j] == if a[j] then '1' else '0'
    {
      s := s + (if a[i] then "1" else "0");
    }
  }

  /** Reading the string back: a character denotes a set bit iff it is '1'. */
  function FromBinaryString(s: string): (a: seq<bool>)
    ensures |a| == |s|
  {
    seq(|s|, i requires 0 <= i < |s| => s[i] == '1')
  }

  /** Any string of the shape ToBinaryString produces reads back as the original bits,
      and contains only '0' and '1'. */
  lemma BinaryStringRoundTrip(a: seq<bool>, s: string)
    requires |s| == |a| && forall i :: 0 <= i < |a| ==> s[i] == if a[i] then '1' else '0'
    ensures FromBinaryString(s) == a
    ensures forall i :: 0 <= i < |s| ==> s[i] in {'0', '1'}
  {
  }
}
