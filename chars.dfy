/** Character classes and the ASCII case mappings that JavaScript's
    `toLowerCase` and `toUpperCase` apply to the characters the string
    utilities keep. */
module Chars {

  predicate IsAscii(c: char) { c as int < 0x80 }

  predicate IsUpper(c: char) { 'A' <= c <= 'Z' }

  predicate IsLower(c: char) { 'a' <= c <= 'z' }

  predicate IsDigit(c: char) { '0' <= c <= '9' }

  /** Lower-cases an ASCII capital; every other character is left alone. */
  function LowerChar(c: char): (r: char)
    ensures !IsUpper(r)
    ensures IsUpper(c) ==> IsLower(r) && r as int == c as int + 32
    ensures !IsUpper(c) ==> r == c
    ensures IsAscii(c) ==> IsAscii(r)
  {
    if IsUpper(c) then (c as int + 32) as char else c
  }

  /** Upper-cases an ASCII small letter; every other character is left alone. */
  function UpperChar(c: char): (r: char)
    ensures !IsLower(r)
    ensures IsLower(c) ==> IsUpper(r) && r as int == c as int - 32
    ensures !IsLower(c) ==> r == c
  {
    if IsLower(c) then (c as int - 32) as char else c
  }

  /** The string lower-cased character by character: no capital is left,
      each capital becomes its small letter, every other character stays. */
  function Lower(s: string): (r: string)
    ensures |r| == |s|
    ensures forall i :: 0 <= i < |s| ==>
      && !IsUpper(r[i])
      && (IsUpper(s[i]) ==> IsLower(r[i]) && r[i] as int == s[i] as int + 32)
      && (!IsUpper(s[i]) ==> r[i] == s[i])
  {
    seq(|s|, i requires 0 <= i < |s| => LowerChar(s[i]))
  }

  /** The string upper-cased character by character: no small letter is
      left, each becomes its capital, every other character stays. */
  function Upper(s: string): (r: string)
    ensures |r| == |s|
    ensures forall i :: 0 <= i < |s| ==>
      && !IsLower(r[i])
      && (IsLower(s[i]) ==> IsUpper(r[i]) && r[i] as int == s[i] as int - 32)
      && (!IsLower(s[i]) ==> r[i] == s[i])
  {
    seq(|s|, i requires 0 <= i < |s| => UpperChar(s[i]))
  }

  /** Lower-casing changes exactly the capitals: a string without them is
      its own lower-case form. */
  lemma LowerWithoutCapitals(s: string)
    requires forall i :: 0 <= i < |s| ==> !IsUpper(s[i])
    ensures Lower(s) == s
  {
    assert forall i :: 0 <= i < |s| ==> Lower(s)[i] == s[i];
  }

  /** A string without small letters is its own upper-case form, and
      conversely. */
  lemma UpperFixedIff(s: string)
    ensures Upper(s) == s <==> forall i :: 0 <= i < |s| ==> !IsLower(s[i])
  {
    if forall i :: 0 <= i < |s| ==> !IsLower(s[i]) {
      assert forall i :: 0 <= i < |s| ==> Upper(s)[i] == s[i];
    } else {
      var i :| 0 <= i < |s| && IsLower(s[i]);
      assert Upper(s)[i] != s[i];
    }
  }
}
