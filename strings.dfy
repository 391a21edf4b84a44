/**
 * The JavaScript string operations the template engine relies on. The
 * delimiter tests are `RegExp.prototype.test` and `String.prototype.search`
 * with an escaped delimiter, so they look for the delimiter as literal text:
 * `search` is `IndexOf`, `test` is `Contains`, and `IndexOfFrom` is the scan
 * behind both. The substitution is `replace` with a string pattern,
 * including the `$` patterns that `replace` expands in its replacement text.
 */
module Strings {
  import opened Wrappers

  /** `pat` occurs in `s` starting at index `i` (the empty pattern occurs at every index up to `|s|`). */
  predicate OccursAt(s: string, i: nat, pat: string) {
    i + |pat| <= |s| && s[i..i + |pat|] == pat
  }

  /** A slice of a slice is a slice of the original. */
  lemma SliceOfSlice(s: string, lo: nat, hi: nat, a: nat, b: nat)
    requires lo <= hi <= |s| && a <= b <= hi - lo
    ensures s[lo..hi][a..b] == s[lo + a..lo + b]
  {
    var x, y := s[lo..hi][a..b], s[lo + a..lo + b];
    forall j | 0 <= j < |x| ensures x[j] == y[j] {
      assert x[j] == s[lo + a + j];
    }
  }

  /** `t` is a suffix of `s`. */
  predicate IsSuffix(t: string, s: string) {
    |t| <= |s| && s[|s| - |t|..] == t
  }

  /** The first index at or after `from` where `pat` occurs in `s`. */
  function IndexOfFrom(s: string, pat: string, from: nat): (r: Option<nat>)
    decreases |s| - from
    ensures r.Some? ==> from <= r.value && OccursAt(s, r.value, pat)
    ensures forall j :: from <= j && (r.None? || j < r.value) ==> !OccursAt(s, j, pat)
  {
    if from + |pat| > |s| then None
    else if OccursAt(s, from, pat) then Some(from)
    else IndexOfFrom(s, pat, from + 1)
  }

  /** The first index where `pat` occurs in `s`: `s.search(p)` for a pattern `p` that matches exactly `pat`. */
  function IndexOf(s: string, pat: string): Option<nat> {
    IndexOfFrom(s, pat, 0)
  }

  /** `pat` occurs somewhere in `s`: `p.test(s)` from index 0 for a pattern `p` that matches exactly `pat`. */
  predicate Contains(s: string, pat: string) {
    IndexOf(s, pat).Some?
  }

  /** `Contains` is exactly "occurs at some index". */
  lemma ContainsIff(s: string, pat: string)
    ensures Contains(s, pat) <==> exists i: nat :: OccursAt(s, i, pat)
  {
    if Contains(s, pat) {
      assert OccursAt(s, IndexOf(s, pat).value, pat);
    }
  }

  /** An occurrence inside the slice `s[lo..hi]` is an occurrence in `s`. */
  lemma {:induction false} ContainsSlice(s: string, lo: nat, hi: nat, pat: string)
    requires lo <= hi <= |s|
    requires Contains(s[lo..hi], pat)
    ensures Contains(s, pat)
  {
    var t := s[lo..hi];
    var i := IndexOf(t, pat).value;
    SliceOfSlice(s, lo, hi, i, i + |pat|);
    assert OccursAt(s, lo + i, pat);
    ContainsIff(s, pat);
  }

  /**
   * The text that `String.prototype.replace` inserts for the replacement
   * `template` when the pattern is a string (so there are no capture groups):
   * `$$` is a dollar sign, `$&` the matched text, `` $` `` the text before the
   * match, `$'` the text after it; every other `$` (including `$1` and `$<`)
   * stands for itself.
   */
  function Expand(template: string, matched: string, before: string, after: string): string
    decreases |template|
  {
    if |template| == 0 then ""
    else if template[0] == '$' && |template| >= 2 && template[1] in {'$', '&', '`', '\''} then
      var inserted :=
        if template[1] == '$' then "$"
        else if template[1] == '&' then matched
        else if template[1] == '`' then before
        else after;
      inserted + Expand(template[2..], matched, before, after)
    else
      [template[0]] + Expand(template[1..], matched, before, after)
  }

  /** A replacement without `$` is inserted as it is. */
  lemma {:induction false} ExpandWithoutDollar(template: string, matched: string, before: string, after: string)
    requires '$' !in template
    ensures Expand(template, matched, before, after) == template
  {
    if |template| > 0 {
      assert '$' !in template[1..] by {
        forall i | 0 <= i < |template[1..]| ensures template[1..][i] != '$' {
          assert template[1..][i] == template[i + 1];
        }
      }
      ExpandWithoutDollar(template[1..], matched, before, after);
    }
  }

  /**
   * `s.replace(pat, replacement)` with a string `pat`: the first occurrence of
   * `pat` is replaced by the expansion of `replacement`; without an occurrence
   * `s` is returned unchanged.
   */
  function ReplaceFirst(s: string, pat: string, replacement: string): string {
    match IndexOf(s, pat)
    case None => s
    case Some(q) =>
      s[..q] + Expand(replacement, pat, s[..q], s[q + |pat|..]) + s[q + |pat|..]
  }

  /** Without `$`, the replacement lands exactly where the first occurrence was. */
  lemma ReplaceFirstLiteral(s: string, pat: string, replacement: string, q: nat)
    requires '$' !in replacement
    requires IndexOf(s, pat) == Some(q)
    ensures ReplaceFirst(s, pat, replacement) == s[..q] + replacement + s[q + |pat|..]
  {
    ExpandWithoutDollar(replacement, pat, s[..q], s[q + |pat|..]);
  }

  /** A string replaced as a whole by a replacement without `$` becomes that replacement. */
  lemma ReplaceWhole(s: string, replacement: string)
    requires '$' !in replacement
    ensures ReplaceFirst(s, s, replacement) == replacement
  {
    assert s[0..|s|] == s;
    assert IndexOf(s, s) == Some(0);
    ReplaceFirstLiteral(s, s, replacement, 0);
    assert s[..0] + replacement + s[|s|..] == replacement;
  }

  /**
   * If `pat` occurs at index `p`, replacing its first occurrence leaves
   * everything after that occurrence in place: the first occurrence is at or
   * before `p`, so the text after `p + |pat|` is a suffix of the result.
   */
  lemma ReplaceFirstKeepsSuffix(s: string, pat: string, replacement: string, p: nat)
    requires OccursAt(s, p, pat)
    ensures IsSuffix(s[p + |pat|..], ReplaceFirst(s, pat, replacement))
  {
    var q := IndexOf(s, pat).value;
    assert q <= p;
    var r := ReplaceFirst(s, pat, replacement);
    var e := Expand(replacement, pat, s[..q], s[q + |pat|..]);
    assert r == s[..q] + e + s[q + |pat|..];
    var tail := s[p + |pat|..];
    assert s[q + |pat|..] == s[q + |pat|..p + |pat|] + tail;
    assert r == (s[..q] + e + s[q + |pat|..p + |pat|]) + tail;
  }

  /** A suffix of `s` that carries an occurrence of `pat` makes `s` contain `pat`. */
  lemma SuffixOccurrence(t: string, s: string, i: nat, pat: string)
    requires IsSuffix(t, s)
    requires OccursAt(t, i, pat)
    ensures Contains(s, pat)
  {
    var d := |s| - |t|;
    assert s[d + i..d + i + |pat|] == t[i..i + |pat|];
    assert OccursAt(s, d + i, pat);
    ContainsIff(s, pat);
  }

  /** A string that lacks the first character of `pat` does not contain `pat`. */
  lemma MissingFirstChar(s: string, pat: string)
    requires |pat| > 0 && pat[0] !in s
    ensures !Contains(s, pat)
  {
  }
}
