/** The few JavaScript string primitives the webjump code relies on. */
module JsString {
  import opened Wrappers

  /** `pat` occurs in `s` starting at index `i`. */
  predicate OccursAt(s: string, pat: string, i: nat) {
    i + |pat| <= |s| && s[i..i + |pat|] == pat
  }

  /** `String.prototype.indexOf(pat)`: the first index at which `pat` occurs;
      None stands for the result -1. */
  function IndexOf(s: string, pat: string): (r: Option<nat>)
    ensures r.Some? ==> OccursAt(s, pat, r.value)
    ensures r.Some? ==> forall j: nat :: j < r.value ==> !OccursAt(s, pat, j)
    ensures r.None? ==> forall j: nat :: !OccursAt(s, pat, j)
  {
    IndexOfFrom(s, pat, 0)
  }

  /** The first occurrence of `pat` in `s` at an index no smaller than `from`. */
  function IndexOfFrom(s: string, pat: string, from: nat): (r: Option<nat>)
    ensures r.Some? ==> from <= r.value && OccursAt(s, pat, r.value)
    ensures r.Some? ==> forall j: nat :: from <= j < r.value ==> !OccursAt(s, pat, j)
    ensures r.None? ==> forall j: nat :: from <= j ==> !OccursAt(s, pat, j)
    decreases |s| - from
  {
    if from + |pat| > |s| then None
    else if s[from..from + |pat|] == pat then Some(from)
    else IndexOfFrom(s, pat, from + 1)
  }

  /** A character matched by `\s` in an ECMAScript regular expression:
      WhiteSpace (tab, vertical tab, form feed, space, no-break space,
      byte order mark, the other space separators) or LineTerminator. */
  predicate IsJsWhitespace(c: char) {
    || c == '\t' || c == '\n' || c == '\U{000B}' || c == '\U{000C}' || c == '\r'
    || c == ' ' || c == '\U{00A0}' || c == '\U{1680}'
    || ('\U{2000}' <= c <= '\U{200A}')
    || c == '\U{2028}' || c == '\U{2029}' || c == '\U{202F}' || c == '\U{205F}'
    || c == '\U{3000}' || c == '\U{FEFF}'
  }

  /** `/^\s*$/.test(s)`: the string is empty or consists of whitespace only. */
  predicate AllWhitespace(s: string) {
    forall i :: 0 <= i < |s| ==> IsJsWhitespace(s[i])
  }

  /** `s.substring(0, n)`: JavaScript clamps the end index into [0, |s|]. */
  function SubstringTo(s: string, n: int): (r: string)
    ensures r <= s
    ensures |r| == if n < 0 then 0 else if n > |s| then |s| else n
  {
    if n < 0 then "" else if n > |s| then s else s[..n]
  }

  /** The prefix test `k.substring(0, key.length) == key` holds exactly when
      `key` is a prefix of `k`, also when `key` is longer than `k`. */
  lemma SubstringPrefixTest(k: string, key: string)
    ensures SubstringTo(k, |key|) == key <==> key <= k
  {
  }
}
