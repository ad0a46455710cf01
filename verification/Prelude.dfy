/** Vocabulary shared by several modules: optional values, fallible results and text helpers. */
module Prelude {

  datatype Option<+T> = None | Some(value: T)

  datatype Result<+T, +E> = Ok(value: T) | Err(error: E)

  /** The text has character `c` at index `k`. */
  predicate At(s: string, k: nat, c: char) {
    k < |s| && s[k] == c
  }

  /** `str.isspace` of Python 3 for one character. */
  predicate IsSpace(c: char) {
    var u := c as int;
    9 <= u <= 13 || 28 <= u <= 32 || u == 0x85 || u == 0xA0 || u == 0x1680
    || 0x2000 <= u <= 0x200A || u == 0x2028 || u == 0x2029 || u == 0x202F || u == 0x205F || u == 0x3000
  }

  /** Its white space, by the codes of the characters. */
  lemma SpacesAre(c: char)
    ensures var u := c as int;
            IsSpace(c) <==> u in {9, 10, 11, 12, 13, 28, 29, 30, 31, 32, 133, 160, 5760, 8232, 8233, 8239, 8287, 12288}
                            || 8192 <= u < 8203
  {
  }

  /** Number of leading whitespace characters. */
  function Spaces(s: string): (n: nat)
    ensures n <= |s|
    ensures forall k :: 0 <= k < n ==> IsSpace(s[k])
    ensures n < |s| ==> !IsSpace(s[n])
  {
    if s != "" && IsSpace(s[0]) then 1 + Spaces(s[1..]) else 0
  }

  /** The suffix from index `n`, empty when `n` is past the end. */
  function Drop(s: string, n: nat): string {
    if n <= |s| then s[n..] else ""
  }

  predicate HasPrefix(s: string, p: string) {
    |p| <= |s| && s[..|p|] == p
  }

  /** Index of the first occurrence of `pat`, as `str.find` computes it. */
  function Find(s: string, pat: string): (r: Option<nat>)
    requires pat != ""
    ensures r.Some? ==> r.value + |pat| <= |s| && HasPrefix(s[r.value..], pat)
  {
    if HasPrefix(s, pat) then Some(0)
    else if s == "" then None
    else
      match Find(s[1..], pat)
      case None => None
      case Some(k) => Some(k + 1)
  }

  lemma {:induction false} FindIsFirst(s: string, pat: string)
    requires pat != ""
    ensures Find(s, pat).Some? ==> forall k :: 0 <= k < Find(s, pat).value ==> !HasPrefix(s[k..], pat)
    ensures Find(s, pat).None? ==> forall k :: 0 <= k < |s| ==> !HasPrefix(s[k..], pat)
  {
    assert s[0..] == s;
    if !HasPrefix(s, pat) && s != "" {
      FindIsFirst(s[1..], pat);
      assert forall k :: 0 < k <= |s| ==> s[1..][k - 1..] == s[k..];
    }
  }

  /** An occurrence found in a text is still the first one when text is appended. */
  lemma {:induction false} FindLocal(s: string, b: string, pat: string)
    requires pat != "" && Find(s, pat).Some?
    ensures Find(s + b, pat) == Find(s, pat)
  {
    if HasPrefix(s, pat) {
      assert (s + b)[..|pat|] == s[..|pat|];
    } else {
      assert (s + b)[1..] == s[1..] + b;
      FindLocal(s[1..], b, pat);
      assert |pat| <= |s|;
      assert (s + b)[..|pat|] == s[..|pat|];
    }
  }
}
