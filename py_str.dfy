/**
 * The two Python string operations the known-face loader relies on:
 * `str.lower()` and `str.endswith(...)`, including the tuple form.
 */
module PyStr {

  /** `str.lower()` on one character. Only the ASCII letters are mapped. */
  function LowerChar(c: char): char {
    if 'A' <= c <= 'Z' then (c as int + 32) as char else c
  }

  /** `str.lower()`: every character lower-cased, the length unchanged. */
  function Lower(s: string): (r: string)
    ensures |r| == |s|
  {
    seq(|s|, i requires 0 <= i < |s| => LowerChar(s[i]))
  }

  /** `s.endswith(suffix)`. */
  predicate EndsWith(s: string, suffix: string) {
    |suffix| <= |s| && s[|s| - |suffix|..] == suffix
  }

  /** `s.endswith(suffixes)` with a tuple: true when any one of them is a suffix. */
  predicate EndsWithAny(s: string, suffixes: seq<string>) {
    |suffixes| > 0 && (EndsWith(s, suffixes[0]) || EndsWithAny(s, suffixes[1..]))
  }

  /** The tuple form of endswith tries every suffix, none is skipped. */
  lemma {:induction false} EndsWithAnyIff(s: string, suffixes: seq<string>)
    ensures EndsWithAny(s, suffixes) <==> exists k :: 0 <= k < |suffixes| && EndsWith(s, suffixes[k])
  {
    if |suffixes| > 0 {
      var rest := suffixes[1..];
      EndsWithAnyIff(s, rest);
      if EndsWithAny(s, rest) {
        var k :| 0 <= k < |rest| && EndsWith(s, rest[k]);
        assert EndsWith(s, suffixes[k + 1]);
      }
      if exists k :: 0 <= k < |suffixes| && EndsWith(s, suffixes[k]) {
        var k :| 0 <= k < |suffixes| && EndsWith(s, suffixes[k]);
        if k > 0 {
          assert rest[k - 1] == suffixes[k];
        }
      }
    }
  }

  /** Lower-casing commutes with taking a suffix. */
  lemma LowerSuffix(s: string, i: nat)
    requires i <= |s|
    ensures Lower(s[i..]) == Lower(s)[i..]
  {
  }

  /** Lower-casing never creates or removes a '.' (or any other non-letter). */
  lemma LowerKeepsDots(s: string, k: nat)
    requires k < |s|
    ensures Lower(s)[k] == '.' <==> s[k] == '.'
  {
  }
}
