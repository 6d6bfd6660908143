/** The two JavaScript string operations the core relies on. */
module JsString {
  import opened Wrappers

  /** `pattern` occurs in `s` starting at index `k`. */
  predicate MatchesAt(s: string, pattern: string, k: nat) {
    k + |pattern| <= |s| && s[k..k + |pattern|] == pattern
  }

  /** `s.indexOf(pattern, from)`, with `None` standing for -1. */
  function IndexOfFrom(s: string, pattern: string, from: nat): (r: Option<nat>)
    ensures r.Some? ==> from <= r.value && MatchesAt(s, pattern, r.value)
    ensures r.Some? ==> forall k :: from <= k < r.value ==> !MatchesAt(s, pattern, k)
    ensures r.None? ==> forall k :: from <= k ==> !MatchesAt(s, pattern, k)
    decreases |s| - from
  {
    if from + |pattern| > |s| then None
    else if s[from..from + |pattern|] == pattern then Some(from)
    else IndexOfFrom(s, pattern, from + 1)
  }

  /** `s.replace(pattern, '')` with a string pattern: only the first occurrence is removed,
      wherever it is, and `s` is returned unchanged when there is none. */
  function RemoveFirst(s: string, pattern: string): (r: string)
    ensures (forall k: nat :: !MatchesAt(s, pattern, k)) ==> r == s
    ensures forall k: nat :: MatchesAt(s, pattern, k) && (forall j: nat :: j < k ==> !MatchesAt(s, pattern, j)) ==>
      r == s[..k] + s[k + |pattern|..]
  {
    match IndexOfFrom(s, pattern, 0)
    case None => s
    case Some(k) => s[..k] + s[k + |pattern|..]
  }

  /** Removing a pattern from a string that starts with it leaves exactly the rest. */
  lemma RemoveFirstOfPrefixed(pattern: string, rest: string)
    ensures RemoveFirst(pattern + rest, pattern) == rest
  {
    var s := pattern + rest;
    assert s[0..|pattern|] == pattern;
    assert MatchesAt(s, pattern, 0);
    assert s[|pattern|..] == rest;
  }

  /** When the pattern cannot start at the first character, its first occurrence in
      `[c] + pattern + rest` is the one right after `c`. */
  lemma RemoveFirstAfterChar(c: char, pattern: string, rest: string)
    requires pattern != [] && c != pattern[0]
    ensures RemoveFirst([c] + pattern + rest, pattern) == [c] + rest
  {
    var s := [c] + pattern + rest;
    assert s[0..|pattern|][0] == c;
    assert !MatchesAt(s, pattern, 0);
    assert s[1..1 + |pattern|] == pattern;
    assert MatchesAt(s, pattern, 1);
    assert s[..1] + s[1 + |pattern|..] == [c] + rest;
  }

  /** JavaScript's `s.length`: the number of UTF-16 code units, two for a character outside the
      Basic Multilingual Plane. */
  function Utf16Length(s: string): (n: nat)
    ensures |s| <= n <= 2 * |s|
    ensures n == |s| <==> forall i :: 0 <= i < |s| ==> s[i] as int < 0x1_0000
  {
    if s == [] then 0
    else (if s[0] as int < 0x1_0000 then 1 else 2) + Utf16Length(s[1..])
  }

  lemma {:induction false} Utf16LengthAppend(s: string, t: string)
    ensures Utf16Length(s + t) == Utf16Length(s) + Utf16Length(t)
  {
    if s != [] {
      assert (s + t)[0] == s[0];
      assert (s + t)[1..] == s[1..] + t;
      Utf16LengthAppend(s[1..], t);
    } else {
      assert s + t == t;
    }
  }
}
