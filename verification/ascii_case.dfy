/**
 * ASCII model of the JavaScript case mappings applied to e-mail subjects
 * (`toUpperCase` and `toLocaleLowerCase`). Characters outside `A`-`Z` and
 * `a`-`z` are left unchanged.
 */
module AsciiCase {

  predicate IsUpper(c: char) { 'A' <= c <= 'Z' }

  predicate IsLower(c: char) { 'a' <= c <= 'z' }

  predicate IsLetter(c: char) { IsUpper(c) || IsLower(c) }

  function Upper(c: char): char
  {
    if IsLower(c) then (c as int - 32) as char else c
  }

  function Lower(c: char): char
  {
    if IsUpper(c) then (c as int + 32) as char else c
  }

  /** Lower-cases every character of a string. */
  function LowerAll(s: string): string
  {
    seq(|s|, i requires 0 <= i < |s| => Lower(s[i]))
  }

  /** Both mappings change letters only, keep them letters, and agree up to case. */
  lemma CaseMappingFacts(c: char)
    ensures !IsLetter(c) ==> Upper(c) == c && Lower(c) == c
    ensures IsLetter(Upper(c)) <==> IsLetter(c)
    ensures IsLetter(Lower(c)) <==> IsLetter(c)
    ensures Lower(Upper(c)) == Lower(c) && Lower(Lower(c)) == Lower(c)
  {
  }
}
