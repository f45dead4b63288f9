/** The string routines of the kernel, over memory that holds a terminated string. */
module CStrings {
  import opened Words

  /** The string that starts at the beginning of `s`. */
  function Str(s: seq<Byte>): Text {
    if s == [] || s[0] == 0 then [] else [s[0]] + Str(s[1..])
  }

  /** `s` starts with the characters of `t` and a terminator. */
  predicate Holds(s: seq<Byte>, t: Text) {
    |t| < |s| && s[..|t|] == t && s[|t|] == 0
  }

  lemma {:induction false} HoldsStr(s: seq<Byte>, t: Text)
    requires Holds(s, t)
    ensures Str(s) == t
    decreases |s|
  {
    if t != [] {
      assert s[0] == s[..|t|][0] == t[0];
      assert s[1..][..|t| - 1] == s[..|t|][1..] == t[1..];
      HoldsStr(s[1..], t[1..]);
    }
  }

  lemma {:induction false} StrHolds(s: seq<Byte>)
    requires 0 in s
    ensures Holds(s, Str(s))
    decreases |s|
  {
    if s[0] != 0 {
      assert s == [s[0]] + s[1..];
      StrHolds(s[1..]);
      var t := Str(s[1..]);
      assert s[..1 + |t|] == [s[0]] + s[1..][..|t|];
    }
  }

  /** The characters of a string, one by one. */
  lemma StrAt(s: seq<Byte>)
    requires 0 in s
    ensures |Str(s)| < |s| && s[|Str(s)|] == 0
    ensures forall k :: 0 <= k < |Str(s)| ==> s[k] == Str(s)[k]
  {
    StrHolds(s);
    assert forall k :: 0 <= k < |Str(s)| ==> s[k] == s[..|Str(s)|][k];
  }

  method Strlen(s: seq<Byte>) returns (n: nat)
    requires 0 in s
    ensures n == |Str(s)|
  {
    StrAt(s);
    n := 0;
    while s[n] != 0
      invariant n <= |Str(s)|
      decreases |s| - n
    {
      n := n + 1;
    }
  }

  /** The difference of the first characters in which two strings differ; the end of a string counts as 0. */
  function Compare(a: Text, b: Text): int {
    if a == [] then (if b == [] then 0 else -(b[0] as int))
    else if b == [] then a[0] as int
    else if a[0] != b[0] then a[0] as int - b[0] as int
    else Compare(a[1..], b[1..])
  }

  /** It is 0 exactly for equal strings, and changes its sign with the order of the two. */
  lemma {:induction false} CompareLaws(a: Text, b: Text)
    ensures Compare(a, b) == 0 <==> a == b
    ensures Compare(b, a) == -Compare(a, b)
    decreases |a|
  {
    if a != [] && b != [] && a[0] == b[0] {
      CompareLaws(a[1..], b[1..]);
      assert a == [a[0]] + a[1..] && b == [b[0]] + b[1..];
    }
  }

  /** What the loop of strcmp returns where it stops. */
  lemma {:induction false} CompareAt(a: Text, b: Text, i: nat)
    requires i <= |a| && i <= |b| && a[..i] == b[..i]
    requires i < |a| && i < |b| ==> a[i] != b[i]
    ensures Compare(a, b) == (if i < |a| then a[i] as int else 0) - (if i < |b| then b[i] as int else 0)
    decreases i
  {
    if i > 0 {
      assert a[0] == a[..i][0] == b[..i][0] == b[0];
      assert a[1..][..i - 1] == a[..i][1..] == b[..i][1..] == b[1..][..i - 1];
      CompareAt(a[1..], b[1..], i - 1);
    }
  }

  method Strcmp(s1: seq<Byte>, s2: seq<Byte>) returns (r: int)
    requires 0 in s1 && 0 in s2
    ensures r == Compare(Str(s1), Str(s2))
    ensures r == 0 <==> Str(s1) == Str(s2)
  {
    hide Compare, Str;
    StrAt(s1);
    StrAt(s2);
    CompareLaws(Str(s1), Str(s2));
    var i := 0;
    while s1[i] != 0 && s1[i] == s2[i]
      invariant i <= |Str(s1)| && i <= |Str(s2)|
      invariant Str(s1)[..i] == Str(s2)[..i]
      decreases |s1| - i
    {
      i := i + 1;
    }
    CompareAt(Str(s1), Str(s2), i);
    r := s1[i] as int - s2[i] as int;
  }

  method Strcpy(dest: array<Byte>, src: seq<Byte>)
    requires 0 in src && |Str(src)| < dest.Length
    modifies dest
    ensures 0 in dest[..] && Str(dest[..]) == Str(src)
  {
    StrAt(src);
    var t := Str(src);
    var i := 0;
    while src[i] != 0
      invariant i <= |t|
      invariant dest[..i] == t[..i]
      decreases |src| - i
    {
      dest[i] := src[i];
      i := i + 1;
    }
    dest[i] := 0;
    assert dest[..][..|t|] == dest[..i] == t;
    assert dest[..][|t|] == 0;
    HoldsStr(dest[..], t);
  }

  method Strcat(dest: array<Byte>, src: seq<Byte>)
    requires 0 in dest[..] && 0 in src
    requires |Str(dest[..])| + |Str(src)| < dest.Length
    modifies dest
    ensures 0 in dest[..] && Str(dest[..]) == old(Str(dest[..])) + Str(src)
  {
    StrAt(dest[..]);
    StrAt(src);
    ghost var a, b := Str(dest[..]), Str(src);
    var p := 0;
    while dest[p] != 0
      invariant p <= |a|
      invariant dest[..] == old(dest[..])
      decreases dest.Length - p
    {
      p := p + 1;
    }
    var i := 0;
    while src[i] != 0
      invariant i <= |b| && p == |a| + i
      invariant dest[..p] == a + b[..i]
      decreases |src| - i
    {
      dest[p] := src[i];
      p := p + 1;
      i := i + 1;
    }
    dest[p] := 0;
    assert dest[..][..|a + b|] == dest[..p] == a + b;
    assert dest[..][|a + b|] == 0;
    HoldsStr(dest[..], a + b);
  }
}
