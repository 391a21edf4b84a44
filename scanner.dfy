/**
 * The entry scanner: what `matchAll` yields for the pattern
 * `open(.+?)close` (global flag, no `s` flag) over the engine's buffer.
 */
module Scanner {
  import opened Wrappers
  import opened Strings

  /** The characters `.` does not match without the `s` flag. */
  predicate IsLineTerminator(c: char) {
    c == '\n' || c == '\r' || c == '\U{2028}' || c == '\U{2029}'
  }

  /** One match: the full matched text, the captured expression, and where it starts. */
  datatype Entry = Entry(text: string, expression: string, index: nat)

  /** The index just past the entry. */
  function End(e: Entry): nat {
    e.index + |e.text|
  }

  /**
   * The relational reading of "the pattern matches at `p` with result `e`":
   * the open sequence, a non-empty expression without line terminators, and
   * the first close sequence that follows at least one expression character.
   */
  predicate IsMatchAt(s: string, open: string, close: string, p: nat, e: Entry) {
    e.index == p &&
    |e.expression| >= 1 &&
    e.text == open + e.expression + close &&
    OccursAt(s, p, e.text) &&
    (forall i :: 0 <= i < |e.expression| ==> !IsLineTerminator(e.expression[i])) &&
    (forall i :: p + |open| + 1 <= i < p + |open| + |e.expression| ==> !OccursAt(s, i, close))
  }

  /** The pieces of a match, located in `s`. */
  lemma MatchParts(s: string, open: string, close: string, p: nat, e: Entry)
    requires IsMatchAt(s, open, close, p, e)
    ensures OccursAt(s, p, open)
    ensures s[p + |open|..p + |open| + |e.expression|] == e.expression
    ensures OccursAt(s, p + |open| + |e.expression|, close)
  {
    var q, m := p + |open|, |e.expression|;
    var t := s[p..p + |e.text|];
    assert t[..|open|] == open;
    assert t[|open|..|open| + m] == e.expression;
    assert t[|open| + m..] == close;
    SliceOfSlice(s, p, p + |e.text|, 0, |open|);
    SliceOfSlice(s, p, p + |e.text|, |open|, |open| + m);
    SliceOfSlice(s, p, p + |e.text|, |open| + m, |e.text|);
  }

  /** The lazy `(.+?)`: try expression lengths `k`, `k + 1`, ... after the open sequence at `p`. */
  function LazyMatch(s: string, open: string, close: string, p: nat, k: nat): (r: Option<Entry>)
    requires 1 <= k
    requires OccursAt(s, p, open)
    requires p + |open| + k - 1 <= |s|
    requires forall i :: p + |open| <= i < p + |open| + k - 1 ==> !IsLineTerminator(s[i])
    requires forall i :: p + |open| + 1 <= i < p + |open| + k ==> !OccursAt(s, i, close)
    decreases |s| - k
    ensures r.Some? ==> IsMatchAt(s, open, close, p, r.value)
    ensures r.None? ==> forall e :: !IsMatchAt(s, open, close, p, e)
  {
    var q := p + |open|;
    if q + k > |s| || IsLineTerminator(s[q + k - 1]) then
      assert forall e :: !IsMatchAt(s, open, close, p, e) by {
        forall e | IsMatchAt(s, open, close, p, e) ensures false {
          MatchIsLongEnough(s, open, close, p, k, e);
        }
      }
      None
    else if OccursAt(s, q + k, close) then
      FoundMatch(s, open, close, p, k);
      Some(Entry(s[p..q + k + |close|], s[q..q + k], p))
    else
      LazyMatch(s, open, close, p, k + 1)
  }

  /** A match at `p` when no close sequence follows the first expression character before `k`: its expression has at least `k` characters. */
  lemma MatchIsLongEnough(s: string, open: string, close: string, p: nat, k: nat, e: Entry)
    requires 1 <= k
    requires IsMatchAt(s, open, close, p, e)
    requires forall i :: p + |open| + 1 <= i < p + |open| + k ==> !OccursAt(s, i, close)
    ensures k <= |e.expression| && p + |open| + |e.expression| + |close| <= |s|
    ensures s[p + |open| + k - 1] == e.expression[k - 1]
  {
    MatchParts(s, open, close, p, e);
    var m := |e.expression|;
    if m < k {
      assert false;
    }
    assert s[p + |open|..p + |open| + m][k - 1] == s[p + |open| + k - 1];
  }

  /** The lazy match stops at the first close sequence: the pieces found make a match. */
  lemma FoundMatch(s: string, open: string, close: string, p: nat, k: nat)
    requires 1 <= k
    requires OccursAt(s, p, open)
    requires p + |open| + k <= |s|
    requires forall i :: p + |open| <= i < p + |open| + k - 1 ==> !IsLineTerminator(s[i])
    requires !IsLineTerminator(s[p + |open| + k - 1])
    requires forall i :: p + |open| + 1 <= i < p + |open| + k ==> !OccursAt(s, i, close)
    requires OccursAt(s, p + |open| + k, close)
    ensures IsMatchAt(s, open, close, p, Entry(s[p..p + |open| + k + |close|], s[p + |open|..p + |open| + k], p))
  {
    var q := p + |open|;
    var e := Entry(s[p..q + k + |close|], s[q..q + k], p);
    assert s[p..q + k + |close|] == s[p..q] + s[q..q + k] + s[q + k..q + k + |close|];
    forall i | 0 <= i < |e.expression| ensures !IsLineTerminator(e.expression[i]) {
      assert e.expression[i] == s[q + i];
      if i < k - 1 {
        assert !IsLineTerminator(s[q + i]);
      }
    }
  }

  /** The match of the pattern at exactly index `p`, if any. */
  function MatchAt(s: string, open: string, close: string, p: nat): (r: Option<Entry>)
    ensures r.Some? ==> r.value.index == p && |r.value.text| > |open| + |close|
  {
    if OccursAt(s, p, open) then LazyMatch(s, open, close, p, 1) else None
  }

  /** `MatchAt` finds a match at `p` exactly when there is one, and then finds that one. */
  lemma MatchAtSpec(s: string, open: string, close: string, p: nat)
    ensures MatchAt(s, open, close, p).Some? ==> IsMatchAt(s, open, close, p, MatchAt(s, open, close, p).value)
    ensures MatchAt(s, open, close, p).None? ==> forall e :: !IsMatchAt(s, open, close, p, e)
  {
    if !OccursAt(s, p, open) {
      forall e | IsMatchAt(s, open, close, p, e) ensures false {
        MatchParts(s, open, close, p, e);
      }
    }
  }

  /** The pattern matches at `p` in at most one way. */
  lemma MatchDeterministic(s: string, open: string, close: string, p: nat, e1: Entry, e2: Entry)
    requires IsMatchAt(s, open, close, p, e1) && IsMatchAt(s, open, close, p, e2)
    ensures e1 == e2
  {
    MatchParts(s, open, close, p, e1);
    MatchParts(s, open, close, p, e2);
    var q := p + |open|;
    if |e1.expression| == |e2.expression| {
      assert e1.expression == s[q..q + |e1.expression|] == e2.expression;
    }
  }

  /** The global scan: every non-overlapping match, left to right, from index `from` on. */
  function EntriesFrom(s: string, open: string, close: string, from: nat): seq<Entry>
    decreases |s| + 1 - from
  {
    if from > |s| then []
    else match MatchAt(s, open, close, from)
      case Some(e) => [e] + EntriesFrom(s, open, close, End(e))
      case None => EntriesFrom(s, open, close, from + 1)
  }

  /** `buffer.matchAll(entryRegExp)`. */
  function Entries(s: string, open: string, close: string): seq<Entry> {
    EntriesFrom(s, open, close, 0)
  }

  /** Where the search for entry `j` of `es` starts: `from`, or the end of entry `j - 1`. */
  function ScanStart(from: nat, es: seq<Entry>, j: nat): nat
    requires j <= |es|
  {
    if j == 0 then from else End(es[j - 1])
  }

  /** The pattern matches nowhere in `[lo, hi)`. */
  predicate NoMatchBetween(s: string, open: string, close: string, lo: nat, hi: nat) {
    forall p :: lo <= p < hi ==> MatchAt(s, open, close, p).None?
  }

  /** The pattern matches nowhere at or after `lo`. */
  ghost predicate NoMatchFrom(s: string, open: string, close: string, lo: nat) {
    forall p :: lo <= p ==> MatchAt(s, open, close, p).None?
  }

  /** Each entry is a match at its own index. */
  ghost predicate AllMatch(s: string, open: string, close: string, es: seq<Entry>) {
    forall j :: 0 <= j < |es| ==> IsMatchAt(s, open, close, es[j].index, es[j])
  }

  /** Each entry starts at or after the point where its search began. */
  predicate InOrder(from: nat, es: seq<Entry>) {
    forall j :: 0 <= j < |es| ==> ScanStart(from, es, j) <= es[j].index
  }

  /** No match starts between the point where a search began and the entry it found. */
  ghost predicate GapsEmpty(s: string, open: string, close: string, from: nat, es: seq<Entry>) {
    forall j :: 0 <= j < |es| ==> NoMatchBetween(s, open, close, ScanStart(from, es, j), es[j].index)
  }

  /**
   * The reference reading of a global scan from `from`: each entry is a match
   * at its own index, it starts at or after the end of the previous one, no
   * match starts in the gap before it, and none starts after the last one.
   */
  ghost predicate LeftmostScan(s: string, open: string, close: string, from: nat, es: seq<Entry>) {
    AllMatch(s, open, close, es) &&
    InOrder(from, es) &&
    GapsEmpty(s, open, close, from, es) &&
    NoMatchFrom(s, open, close, ScanStart(from, es, |es|))
  }

  /** A scan whose first search fails at `from` is the scan from `from + 1`. */
  lemma {:induction false} ScanSkip(s: string, open: string, close: string, from: nat, es: seq<Entry>)
    requires MatchAt(s, open, close, from).None?
    requires LeftmostScan(s, open, close, from + 1, es)
    ensures LeftmostScan(s, open, close, from, es)
  {
    GapsSkip(s, open, close, from, es);
    if |es| > 0 {
      assert ScanStart(from, es, |es|) == ScanStart(from + 1, es, |es|);
    }
  }

  lemma {:induction false} GapsSkip(s: string, open: string, close: string, from: nat, es: seq<Entry>)
    requires MatchAt(s, open, close, from).None?
    requires GapsEmpty(s, open, close, from + 1, es)
    requires InOrder(from + 1, es)
    ensures GapsEmpty(s, open, close, from, es)
    ensures InOrder(from, es)
  {
    forall j | 0 <= j < |es|
      ensures NoMatchBetween(s, open, close, ScanStart(from, es, j), es[j].index)
    {
      assert NoMatchBetween(s, open, close, ScanStart(from + 1, es, j), es[j].index);
      if j == 0 {
        assert ScanStart(from, es, j) == from;
      } else {
        assert ScanStart(from, es, j) == ScanStart(from + 1, es, j);
      }
    }
    forall j | 0 <= j < |es|
      ensures ScanStart(from, es, j) <= es[j].index
    {
      assert ScanStart(from + 1, es, j) <= es[j].index;
    }
  }

  /** A scan that starts with a match `e` at `from` is `e` followed by the scan from its end. */
  lemma {:induction false} ScanCons(s: string, open: string, close: string, from: nat, e: Entry, rest: seq<Entry>)
    requires MatchAt(s, open, close, from) == Some(e)
    requires LeftmostScan(s, open, close, End(e), rest)
    ensures LeftmostScan(s, open, close, from, [e] + rest)
  {
    var es := [e] + rest;
    MatchAtSpec(s, open, close, from);
    AllMatchCons(s, open, close, e, rest);
    GapsCons(s, open, close, from, e, rest);
    assert ScanStart(from, es, |es|) == ScanStart(End(e), rest, |rest|);
  }

  lemma {:induction false} AllMatchCons(s: string, open: string, close: string, e: Entry, rest: seq<Entry>)
    requires IsMatchAt(s, open, close, e.index, e)
    requires AllMatch(s, open, close, rest)
    ensures AllMatch(s, open, close, [e] + rest)
  {
    var es := [e] + rest;
    forall j | 0 <= j < |es|
      ensures IsMatchAt(s, open, close, es[j].index, es[j])
    {
      if j > 0 {
        assert es[j] == rest[j - 1];
      }
    }
  }

  lemma {:induction false} GapsCons(s: string, open: string, close: string, from: nat, e: Entry, rest: seq<Entry>)
    requires e.index == from
    requires GapsEmpty(s, open, close, End(e), rest)
    requires InOrder(End(e), rest)
    ensures GapsEmpty(s, open, close, from, [e] + rest)
    ensures InOrder(from, [e] + rest)
  {
    var es := [e] + rest;
    forall j | 0 <= j < |es|
      ensures NoMatchBetween(s, open, close, ScanStart(from, es, j), es[j].index)
      ensures ScanStart(from, es, j) <= es[j].index
    {
      if j > 0 {
        assert es[j] == rest[j - 1];
        assert ScanStart(from, es, j) == ScanStart(End(e), rest, j - 1);
        assert NoMatchBetween(s, open, close, ScanStart(End(e), rest, j - 1), rest[j - 1].index);
        assert ScanStart(End(e), rest, j - 1) <= rest[j - 1].index;
      }
    }
  }

  /** The scan `matchAll` performs meets the reference reading, from any start index. */
  lemma {:induction false} EntriesFromIsLeftmostScan(s: string, open: string, close: string, from: nat)
    ensures LeftmostScan(s, open, close, from, EntriesFrom(s, open, close, from))
    ensures forall e :: e in EntriesFrom(s, open, close, from) ==> from <= e.index
    decreases |s| + 1 - from
  {
    if from > |s| {
      forall p | from <= p ensures MatchAt(s, open, close, p).None? {
        assert !OccursAt(s, p, open);
      }
    } else {
      match MatchAt(s, open, close, from)
      case Some(e) =>
        EntriesFromIsLeftmostScan(s, open, close, End(e));
        ScanCons(s, open, close, from, e, EntriesFrom(s, open, close, End(e)));
      case None =>
        EntriesFromIsLeftmostScan(s, open, close, from + 1);
        ScanSkip(s, open, close, from, EntriesFrom(s, open, close, from + 1));
    }
  }

  /** The entries after the first one form the scan that starts at the first one's end. */
  lemma {:induction false} ScanTail(s: string, open: string, close: string, from: nat, es: seq<Entry>)
    requires |es| > 0
    requires LeftmostScan(s, open, close, from, es)
    ensures LeftmostScan(s, open, close, End(es[0]), es[1..])
  {
    var rest := es[1..];
    forall j | 0 <= j < |rest|
      ensures IsMatchAt(s, open, close, rest[j].index, rest[j])
      ensures ScanStart(End(es[0]), rest, j) == ScanStart(from, es, j + 1)
    {
      assert rest[j] == es[j + 1];
    }
    forall j | 0 <= j < |rest|
      ensures NoMatchBetween(s, open, close, ScanStart(End(es[0]), rest, j), rest[j].index)
      ensures ScanStart(End(es[0]), rest, j) <= rest[j].index
    {
      assert rest[j] == es[j + 1];
      assert NoMatchBetween(s, open, close, ScanStart(from, es, j + 1), es[j + 1].index);
      assert ScanStart(from, es, j + 1) <= es[j + 1].index;
    }
    assert ScanStart(End(es[0]), rest, |rest|) == ScanStart(from, es, |es|);
  }

  /** A match at or after `from` means the scan is not empty and starts no later than it. */
  lemma FirstMatchOfScan(s: string, open: string, close: string, from: nat, es: seq<Entry>, e: Entry)
    requires LeftmostScan(s, open, close, from, es)
    requires from <= e.index && IsMatchAt(s, open, close, e.index, e)
    ensures |es| > 0 && es[0].index <= e.index
  {
    MatchAtSpec(s, open, close, e.index);
    assert MatchAt(s, open, close, e.index).Some?;
  }

  /** Two leftmost scans from the same index start alike. */
  lemma ScanHeads(s: string, open: string, close: string, from: nat, es1: seq<Entry>, es2: seq<Entry>)
    requires LeftmostScan(s, open, close, from, es1)
    requires LeftmostScan(s, open, close, from, es2)
    ensures |es1| == 0 <==> |es2| == 0
    ensures |es1| > 0 ==> es1[0] == es2[0]
  {
    if |es1| > 0 {
      FirstMatchOfScan(s, open, close, from, es2, es1[0]);
    }
    if |es2| > 0 {
      FirstMatchOfScan(s, open, close, from, es1, es2[0]);
    }
    if |es1| > 0 && |es2| > 0 {
      MatchDeterministic(s, open, close, es1[0].index, es1[0], es2[0]);
    }
  }

  /**
   * The reference reading pins the scan down: there is exactly one list of
   * entries that is a leftmost scan, so `matchAll` is characterised by it.
   */
  lemma {:induction false} ScanUnique(s: string, open: string, close: string, from: nat, es1: seq<Entry>, es2: seq<Entry>)
    requires LeftmostScan(s, open, close, from, es1)
    requires LeftmostScan(s, open, close, from, es2)
    ensures es1 == es2
    decreases |es1|, 0
  {
    ScanHeads(s, open, close, from, es1, es2);
    if |es1| > 0 {
      var e, rest1, rest2 := es1[0], es1[1..], es2[1..];
      ScanTail(s, open, close, from, es1);
      ScanTail(s, open, close, from, es2);
      SameTails(s, open, close, End(e), rest1, rest2);
      assert es1 == [e] + rest1;
      assert es2 == [e] + rest2;
    }
  }

  lemma {:induction false} SameTails(s: string, open: string, close: string, from: nat, rest1: seq<Entry>, rest2: seq<Entry>)
    requires LeftmostScan(s, open, close, from, rest1)
    requires LeftmostScan(s, open, close, from, rest2)
    ensures rest1 == rest2
    decreases |rest1|, 1
  {
    ScanUnique(s, open, close, from, rest1, rest2);
  }

  /** `matchAll` over the whole buffer is the leftmost scan from index 0, and the only one. */
  lemma EntriesCharacterised(s: string, open: string, close: string, es: seq<Entry>)
    requires LeftmostScan(s, open, close, 0, es)
    ensures Entries(s, open, close) == es
  {
    EntriesFromIsLeftmostScan(s, open, close, 0);
    ScanUnique(s, open, close, 0, Entries(s, open, close), es);
  }
}
