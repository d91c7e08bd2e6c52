/** `capitalizeFirstLetter` (src/Utils/capitalizeFirstLetter.ts), with
    upper-casing restricted to ASCII letters. */
module Capitalize {

  predicate IsLower(c: char) {
    'a' <= c <= 'z'
  }

  /** `toUpperCase` on one ASCII character. */
  function ToUpper(c: char): (u: char)
    ensures !IsLower(u)
    ensures IsLower(c) ==> u as int == c as int - 32
    ensures !IsLower(c) ==> u == c
  {
    if IsLower(c) then (c as int - 32) as char else c
  }

  /** `s.charAt(0).toUpperCase() + s.slice(1)`: the first character
      upper-cased and the rest kept; on the empty string both parts are
      empty. */
  function CapitalizeFirstLetter(s: string): (r: string)
    ensures |r| == |s|
    ensures s != [] ==> r[0] == ToUpper(s[0]) && r[1..] == s[1..]
    ensures r == [] || !IsLower(r[0])
  {
    if s == [] then "" else [ToUpper(s[0])] + s[1..]
  }

  /** Only a lower-case first letter changes: the strings left unchanged
      are exactly those not starting with one. */
  lemma CapitalizeChangesOnlyFirst(s: string)
    ensures CapitalizeFirstLetter(s) == s <==> (s == [] || !IsLower(s[0]))
  {
  }

  /** Capitalising twice is capitalising once. */
  lemma CapitalizeIdempotent(s: string)
    ensures CapitalizeFirstLetter(CapitalizeFirstLetter(s)) == CapitalizeFirstLetter(s)
  {
    CapitalizeChangesOnlyFirst(CapitalizeFirstLetter(s));
  }
}
