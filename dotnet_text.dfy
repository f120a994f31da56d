/** The .NET string operations the editor relies on, with the meaning the
    framework gives them. A C# string that is null is not modelled: every
    string here is a value. */
module DotNetText {

  /** `char.IsWhiteSpace`: the Unicode space, line and paragraph separators,
      the control characters U+0009 to U+000D, and U+0085. */
  predicate IsWhiteSpace(c: char): (r: bool)
    ensures c == ' ' || c == '\t' || c == '\n' || c == '\r' ==> r
    ensures '0' <= c <= '9' || 'A' <= c <= 'Z' || 'a' <= c <= 'z' ==> !r
  {
    || c == ' '
    || ('\t' <= c <= '\r')
    || c == '\U{85}'
    || c == '\U{A0}'
    || c == '\U{1680}'
    || ('\U{2000}' <= c <= '\U{200A}')
    || c == '\U{2028}'
    || c == '\U{2029}'
    || c == '\U{202F}'
    || c == '\U{205F}'
    || c == '\U{3000}'
  }

  /** `string.IsNullOrWhiteSpace`. */
  predicate IsNullOrWhiteSpace(s: string): (r: bool)
    ensures IsNullOrEmpty(s) ==> r
    ensures r <==> forall c :: c in s ==> IsWhiteSpace(c)
  {
    forall i :: 0 <= i < |s| ==> IsWhiteSpace(s[i])
  }

  /** `string.IsNullOrEmpty`. */
  predicate IsNullOrEmpty(s: string): (r: bool)
    ensures r <==> s == ""
  {
    |s| == 0
  }

  /** Leading white space removed. */
  function TrimStart(s: string): (r: string)
    ensures |r| <= |s| && r == s[|s| - |r|..]
    ensures r == [] || !IsWhiteSpace(r[0])
    ensures forall i :: 0 <= i < |s| - |r| ==> IsWhiteSpace(s[i])
  {
    if s != [] && IsWhiteSpace(s[0]) then TrimStart(s[1..]) else s
  }

  /** Trailing white space removed. */
  function TrimEnd(s: string): (r: string)
    ensures |r| <= |s| && r == s[..|r|]
    ensures r == [] || !IsWhiteSpace(r[|r| - 1])
    ensures forall i :: |r| <= i < |s| ==> IsWhiteSpace(s[i])
  {
    if s != [] && IsWhiteSpace(s[|s| - 1]) then TrimEnd(s[..|s| - 1]) else s
  }

  /** How many white-space characters `TrimStart` drops. */
  function LeadingWhiteSpace(s: string): (n: nat)
    ensures n <= |s|
  {
    |s| - |TrimStart(s)|
  }

  /** `string.Trim()`: the infix left after dropping the white space at both
      ends; it neither starts nor ends with white space, and it is empty
      exactly when the whole string is white space. */
  function Trim(s: string): (r: string)
    ensures LeadingWhiteSpace(s) + |r| <= |s|
    ensures r == s[LeadingWhiteSpace(s)..LeadingWhiteSpace(s) + |r|]
    ensures forall i :: 0 <= i < LeadingWhiteSpace(s) ==> IsWhiteSpace(s[i])
    ensures forall i :: LeadingWhiteSpace(s) + |r| <= i < |s| ==> IsWhiteSpace(s[i])
    ensures r != [] ==> !IsWhiteSpace(r[0]) && !IsWhiteSpace(r[|r| - 1])
    ensures r == [] <==> IsNullOrWhiteSpace(s)
  {
    var t := TrimStart(s);
    var r := TrimEnd(t);
    r
  }

  /** The case mapping of `StringComparison.OrdinalIgnoreCase`, restricted to
      ASCII letters. */
  function UpperAscii(c: char): (u: char)
    ensures 'a' <= c <= 'z' ==> 'A' <= u <= 'Z' && u as int == c as int - 32
    ensures !('a' <= c <= 'z') ==> u == c
  {
    if 'a' <= c <= 'z' then (c as int - 32) as char else c
  }

  /** `a.Equals(b, StringComparison.OrdinalIgnoreCase)` for ASCII case. */
  predicate EqualsIgnoreCase(a: string, b: string): (r: bool)
    ensures a == b ==> r
    ensures r ==> |a| == |b|
    ensures r && a != b ==> exists i :: 0 <= i < |a| && a[i] != b[i] && ('a' <= a[i] <= 'z' || 'a' <= b[i] <= 'z')
  {
    |a| == |b| && forall i :: 0 <= i < |a| ==> UpperAscii(a[i]) == UpperAscii(b[i])
  }

  /** `a` and `b` are the same string up to the case of ASCII letters: at
      every position the characters are equal, or one is a lower-case letter
      and the other its upper-case form. */
  predicate CaseVariants(a: string, b: string) {
    && |a| == |b|
    && forall i :: 0 <= i < |a| ==>
      || a[i] == b[i]
      || ('a' <= a[i] <= 'z' && b[i] as int == a[i] as int - 32)
      || ('a' <= b[i] <= 'z' && a[i] as int == b[i] as int - 32)
  }

  /** Two strings match ignoring case exactly when they differ only in the
      case of ASCII letters. */
  lemma EqualsIgnoreCaseIff(a: string, b: string)
    ensures EqualsIgnoreCase(a, b) <==> CaseVariants(a, b)
  {
    if EqualsIgnoreCase(a, b) {
      forall i | 0 <= i < |a|
        ensures || a[i] == b[i]
                || ('a' <= a[i] <= 'z' && b[i] as int == a[i] as int - 32)
                || ('a' <= b[i] <= 'z' && a[i] as int == b[i] as int - 32)
      {
        assert UpperAscii(a[i]) == UpperAscii(b[i]);
      }
    }
    if CaseVariants(a, b) {
      forall i | 0 <= i < |a| ensures UpperAscii(a[i]) == UpperAscii(b[i]) {
      }
    }
  }

  /** Matching ignoring case is symmetric and transitive. */
  lemma EqualsIgnoreCaseSymmetric(a: string, b: string)
    requires EqualsIgnoreCase(a, b)
    ensures EqualsIgnoreCase(b, a)
  {
  }

  lemma EqualsIgnoreCaseTransitive(a: string, b: string, c: string)
    requires EqualsIgnoreCase(a, b) && EqualsIgnoreCase(b, c)
    ensures EqualsIgnoreCase(a, c)
  {
    forall i | 0 <= i < |a| ensures UpperAscii(a[i]) == UpperAscii(c[i]) {
      assert UpperAscii(a[i]) == UpperAscii(b[i]) == UpperAscii(c[i]);
    }
  }

  /** Paths that differ in the case of a letter match; paths that differ in
      a letter do not. */
  lemma EqualsIgnoreCaseExamples()
    ensures EqualsIgnoreCase("App_EN.arb", "app_en.ARB")
    ensures !EqualsIgnoreCase("app_en.arb", "app_de.arb")
  {
    EqualsIgnoreCaseIff("App_EN.arb", "app_en.ARB");
    assert UpperAscii("app_en.arb"[5]) != UpperAscii("app_de.arb"[5]);
  }

  /** `string.Join(separator, parts)`. */
  function Join(separator: string, parts: seq<string>): (r: string)
    ensures parts == [] ==> r == ""
    ensures |parts| == 1 ==> r == parts[0]
    ensures |parts| >= 1 ==> parts[0] <= r
  {
    if parts == [] then ""
    else if |parts| == 1 then parts[0]
    else parts[0] + separator + Join(separator, parts[1..])
  }

  /** The separator goes between consecutive parts: joining one more part
      appends the separator and then that part. */
  lemma {:induction false} JoinAppend(separator: string, parts: seq<string>, p: string)
    requires parts != []
    ensures Join(separator, parts + [p]) == Join(separator, parts) + separator + p
  {
    if |parts| > 1 {
      assert (parts + [p])[1..] == parts[1..] + [p];
      JoinAppend(separator, parts[1..], p);
    }
  }
}
