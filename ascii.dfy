/** ASCII case mapping, for the enum names the conversions upper- and
    lower-case (Go's strings.ToUpper / strings.ToLower on these names). */
module Ascii {

  function UpperChar(c: char): char {
    if 'a' <= c <= 'z' then (c as int - 32) as char else c
  }

  function LowerChar(c: char): char {
    if 'A' <= c <= 'Z' then (c as int + 32) as char else c
  }

  function ToUpper(s: string): (r: string)
    ensures |r| == |s|
    ensures forall i :: 0 <= i < |s| ==> r[i] == UpperChar(s[i])
  {
    if s == [] then [] else [UpperChar(s[0])] + ToUpper(s[1..])
  }

  function ToLower(s: string): (r: string)
    ensures |r| == |s|
    ensures forall i :: 0 <= i < |s| ==> r[i] == LowerChar(s[i])
  {
    if s == [] then [] else [LowerChar(s[0])] + ToLower(s[1..])
  }

  /** Only upper-case ASCII letters and underscores, as in the enum names. */
  predicate IsUpperName(s: string) {
    forall i :: 0 <= i < |s| ==> ('A' <= s[i] <= 'Z' || s[i] == '_')
  }

  /** Only lower-case ASCII letters and underscores. */
  predicate IsLowerName(s: string) {
    forall i :: 0 <= i < |s| ==> ('a' <= s[i] <= 'z' || s[i] == '_')
  }

  /** Lower-casing an upper-case name and upper-casing it again gives it back. */
  lemma UpperOfLower(s: string)
    requires IsUpperName(s)
    ensures IsLowerName(ToLower(s)) && ToUpper(ToLower(s)) == s
  {
  }

  /** Upper-casing a lower-case name and lower-casing it again gives it back. */
  lemma LowerOfUpper(s: string)
    requires IsLowerName(s)
    ensures IsUpperName(ToUpper(s)) && ToLower(ToUpper(s)) == s
  {
  }

  /** A lower-case name is its own lower case. */
  lemma LowerOfLower(s: string)
    requires IsLowerName(s)
    ensures ToLower(s) == s
  {
  }
}
