/** Small shared vocabulary: optional values, results with an error, and the
    upper-casing that both builders' callers apply to words. */
module Common {

  datatype Option<+T> = None | Some(value: T) {
    function GetOr(default: T): T {
      match this
      case Some(v) => v
      case None => default
    }
  }

  datatype Result<+T, +E> = Ok(value: T) | Err(error: E)

  function Min(a: int, b: int): int {
    if a <= b then a else b
  }

  predicate IsLower(c: char) {
    'a' <= c <= 'z'
  }

  /** Upper-casing of one character, restricted to the ASCII letters. */
  function UpperChar(c: char): (u: char)
    ensures !IsLower(u)
    ensures !IsLower(c) ==> u == c
  {
    if IsLower(c) then (c as int - 32) as char else c
  }

  /** `toUpperCase()` / `upper()` on a word, character by character. */
  function Upper(s: string): (u: string)
    ensures |u| == |s|
    ensures forall i :: 0 <= i < |s| ==>
      if IsLower(s[i]) then u[i] as int == s[i] as int - 32 else u[i] == s[i]
  {
    seq(|s|, i requires 0 <= i < |s| => UpperChar(s[i]))
  }

  /** Lower-casing of one character, restricted to the ASCII letters. */
  function LowerChar(c: char): (l: char)
    ensures !('A' <= l <= 'Z')
    ensures !('A' <= c <= 'Z') ==> l == c
  {
    if 'A' <= c <= 'Z' then (c as int + 32) as char else c
  }

  /** `lower()` on a word, character by character. */
  function Lower(s: string): (l: string)
    ensures |l| == |s|
    ensures forall i :: 0 <= i < |s| ==>
      if 'A' <= s[i] <= 'Z' then l[i] as int == s[i] as int + 32 else l[i] == s[i]
  {
    seq(|s|, i requires 0 <= i < |s| => LowerChar(s[i]))
  }

  predicate IsUpperWord(s: string) {
    forall i :: 0 <= i < |s| ==> !IsLower(s[i])
  }

  /** Upper-casing produces an upper-case word and leaves one unchanged. */
  lemma UpperIsIdempotent(s: string)
    ensures IsUpperWord(Upper(s))
    ensures Upper(Upper(s)) == Upper(s)
    ensures IsUpperWord(s) ==> Upper(s) == s
  {
  }
}
