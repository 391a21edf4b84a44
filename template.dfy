/**
 * One pass of the template engine over its buffer, as pure functions: the
 * entry substitution loop, the end of a call, and runs over many chunks.
 */
module Template {
  import opened Wrappers
  import opened Strings
  import opened Scanner

  /** The delimiters used when the configuration names none. */
  const DefaultOpen: string := "{{"
  const DefaultClose: string := "}}"

  /** The message of the error raised when a close sequence survives substitution. */
  const InvalidFormat: string := "Invalid template format."

  /** The resolver: replacement text for an expression, or `None` when it throws. */
  type Resolver = string -> Option<string>

  /**
   * The state after the substitution loop: the buffer, the expressions handed
   * to the resolver (in call order), and whether every call succeeded.
   */
  datatype Pass = Pass(buffer: string, resolved: seq<string>, complete: bool)

  /** The expressions of `entries`, in order. */
  function Expressions(entries: seq<Entry>): seq<string> {
    seq(|entries|, j requires 0 <= j < |entries| => entries[j].expression)
  }

  /**
   * The `for ... of` loop over the entries: resolve each expression in turn
   * and replace the first occurrence of the entry's text in the current
   * buffer; a failing resolver call ends the loop. The resolver sees a prefix
   * of the expressions, in order: all of them when every call succeeds, and
   * otherwise up to the first one it fails on.
   */
  function Substitute(buffer: string, entries: seq<Entry>, resolve: Resolver): (p: Pass)
    decreases |entries|
    ensures |p.resolved| <= |entries| && p.resolved <= Expressions(entries)
    ensures p.complete ==> p.resolved == Expressions(entries)
    ensures forall j :: 0 <= j < |p.resolved| - 1 ==> resolve(p.resolved[j]).Some?
    ensures p.complete ==> forall j :: 0 <= j < |p.resolved| ==> resolve(p.resolved[j]).Some?
    ensures !p.complete ==> |p.resolved| > 0 && resolve(p.resolved[|p.resolved| - 1]).None?
  {
    if entries == [] then Pass(buffer, [], true)
    else match resolve(entries[0].expression)
      case None => Pass(buffer, [entries[0].expression], false)
      case Some(replacement) =>
        var rest := Substitute(ReplaceFirst(buffer, entries[0].text, replacement), entries[1..], resolve);
        assert Expressions(entries) == [entries[0].expression] + Expressions(entries[1..]);
        Pass(rest.buffer, [entries[0].expression] + rest.resolved, rest.complete)
  }

  /** Entries that sit in `s` at their own indices, left to right, without overlap. */
  ghost predicate Placed(s: string, entries: seq<Entry>) {
    (forall j :: 0 <= j < |entries| ==> OccursAt(s, entries[j].index, entries[j].text)) &&
    (forall j :: 0 <= j < |entries| - 1 ==> End(entries[j]) <= entries[j + 1].index)
  }

  /**
   * The buffer left by a pass over `entries` still ends with the snapshot `s`
   * from the entry that failed on, or after the last entry when all resolved.
   */
  ghost predicate KeepsPending(s: string, entries: seq<Entry>, p: Pass) {
    |entries| > 0 && 0 < |p.resolved| <= |entries| &&
    (p.complete ==> End(entries[|entries| - 1]) <= |s| && IsSuffix(s[End(entries[|entries| - 1])..], p.buffer)) &&
    (!p.complete ==> entries[|p.resolved| - 1].index <= |s| && IsSuffix(s[entries[|p.resolved| - 1].index..], p.buffer))
  }

  /** A later slice of `s` is a suffix of an earlier one. */
  lemma SliceSuffix(s: string, i: nat, j: nat, b: string)
    requires i <= j <= |s|
    requires IsSuffix(s[i..], b)
    ensures IsSuffix(s[j..], b)
  {
    assert s[i..][j - i..] == s[j..];
  }

  /**
   * Replacing the first occurrence of an entry's text, when the buffer ends
   * with the snapshot's text from that entry on, leaves the buffer ending with
   * the snapshot's text after the entry.
   */
  lemma ReplaceEntryKeepsRest(s: string, e: Entry, buffer: string, replacement: string)
    requires OccursAt(s, e.index, e.text)
    requires IsSuffix(s[e.index..], buffer)
    ensures End(e) <= |s| && IsSuffix(s[End(e)..], ReplaceFirst(buffer, e.text, replacement))
  {
    var d := |buffer| - (|s| - e.index);
    assert buffer[d..] == s[e.index..];
    assert buffer[d..d + |e.text|] == buffer[d..][..|e.text|] == s[e.index..][..|e.text|] == e.text;
    ReplaceFirstKeepsSuffix(buffer, e.text, replacement, d);
    assert buffer[d + |e.text|..] == buffer[d..][|e.text|..] == s[e.index..][|e.text|..] == s[End(e)..];
  }

  /** The entries after the first are placed too. */
  lemma PlacedTail(s: string, entries: seq<Entry>)
    requires |entries| > 0 && Placed(s, entries)
    ensures Placed(s, entries[1..])
  {
    var rest := entries[1..];
    forall j | 0 <= j < |rest| - 1 ensures End(rest[j]) <= rest[j + 1].index {
      assert rest[j] == entries[j + 1] && rest[j + 1] == entries[j + 2];
    }
  }

  /**
   * The substitution loop never touches the text from the entry it is about to
   * resolve onwards: replacing the first occurrence of an entry's text can only
   * hit that entry or something before it. So when a resolver call fails, the
   * snapshot's text from the failed entry on is still the end of the buffer,
   * and when all succeed, the snapshot's text after the last entry is.
   */
  lemma {:induction false} SubstituteKeepsPending(s: string, entries: seq<Entry>, buffer: string, resolve: Resolver)
    requires |entries| > 0
    requires Placed(s, entries)
    requires entries[0].index <= |s| && IsSuffix(s[entries[0].index..], buffer)
    ensures KeepsPending(s, entries, Substitute(buffer, entries, resolve))
    decreases |entries|
  {
    var e := entries[0];
    var p := Substitute(buffer, entries, resolve);
    match resolve(e.expression)
    case None =>
      assert p == Pass(buffer, [e.expression], false);
    case Some(replacement) =>
      var next := ReplaceFirst(buffer, e.text, replacement);
      assert OccursAt(s, e.index, e.text);
      ReplaceEntryKeepsRest(s, e, buffer, replacement);
      var rest := entries[1..];
      var q := Substitute(next, rest, resolve);
      assert p == Pass(q.buffer, [e.expression] + q.resolved, q.complete);
      if |rest| == 0 {
        assert q == Pass(next, [], true);
      } else {
        assert End(e) <= rest[0].index;
        SliceSuffix(s, End(e), rest[0].index, next);
        PlacedTail(s, entries);
        SubstituteKeepsPending(s, rest, next, resolve);
        assert rest[|rest| - 1] == entries[|entries| - 1];
        if !q.complete {
          assert rest[|q.resolved| - 1] == entries[|p.resolved| - 1];
        }
      }
  }

  /** The entries `matchAll` yields sit in the buffer in order and apart. */
  lemma EntriesPlaced(s: string, open: string, close: string)
    ensures Placed(s, Entries(s, open, close))
  {
    var es := Entries(s, open, close);
    EntriesFromIsLeftmostScan(s, open, close, 0);
    forall j | 0 <= j < |es| - 1 ensures End(es[j]) <= es[j + 1].index {
      assert ScanStart(0, es, j + 1) <= es[j + 1].index;
    }
  }

  /** A buffer without a close sequence holds no entry. */
  lemma NoCloseNoEntries(s: string, open: string, close: string)
    requires !Contains(s, close)
    ensures Entries(s, open, close) == []
  {
    var es := Entries(s, open, close);
    EntriesFromIsLeftmostScan(s, open, close, 0);
    if |es| > 0 {
      MatchParts(s, open, close, es[0].index, es[0]);
      ContainsIff(s, close);
    }
  }

  /** What one call of `_transform` produces: an emitted string or the format error. */
  datatype Outcome = Emitted(text: string) | Failed(message: string)

  /** The outcome of one call and the buffer it leaves behind. */
  datatype StepResult = StepResult(outcome: Outcome, buffer: string)

  /** The buffer after appending `chunk` and running the substitution loop over the entries of that snapshot. */
  function Substituted(open: string, close: string, buffer: string, chunk: string, resolve: Resolver): string {
    var working := buffer + chunk;
    Substitute(working, Entries(working, open, close), resolve).buffer
  }

  /**
   * The end of one call of `_transform`, given the substituted buffer `b`, as
   * the code has it: fail when a close sequence survives, emit everything when
   * there is no open sequence (and keep the buffer as it is), otherwise emit up
   * to the first open sequence and keep the rest.
   */
  function Finish(open: string, close: string, b: string): StepResult {
    if Contains(b, close) then StepResult(Failed(InvalidFormat), b)
    else match IndexOf(b, open)
      case None => StepResult(Emitted(b), b)
      case Some(i) => StepResult(Emitted(b[..i]), b[i..])
  }

  /** One call of `_transform`: append, substitute, then `Finish`. */
  function Step(open: string, close: string, buffer: string, chunk: string, resolve: Resolver): StepResult {
    Finish(open, close, Substituted(open, close, buffer, chunk, resolve))
  }

  /**
   * Cutting `b` at the first open sequence, when `b` has no close sequence:
   * the two parts put together give `b` back, the second starts with the open
   * sequence, neither holds a close sequence, and the first holds no open
   * sequence.
   */
  lemma SplitAtFirstOpen(open: string, close: string, b: string)
    requires !Contains(b, close) && Contains(b, open)
    ensures var i := IndexOf(b, open).value;
      b[..i] + b[i..] == b &&
      OccursAt(b[i..], 0, open) &&
      !Contains(b[i..], close) &&
      !Contains(b[..i], close) &&
      (open != [] ==> !Contains(b[..i], open))
  {
    var i := IndexOf(b, open).value;
    assert b[..i] + b[i..] == b;
    assert b[i..][..|open|] == b[i..i + |open|];
    if Contains(b[i..], close) {
      assert b[i..|b|] == b[i..];
      ContainsSlice(b, i, |b|, close);
    }
    if Contains(b[..i], close) {
      ContainsSlice(b, 0, i, close);
    }
    if open != [] {
      forall j: nat ensures !OccursAt(b[..i], j, open) {
        if j + |open| <= i {
          assert j < i && !OccursAt(b, j, open);
          assert b[..i][j..j + |open|] == b[j..j + |open|];
        }
      }
      ContainsIff(b[..i], open);
    }
  }

  /**
   * What one call does with the substituted buffer `b`: it fails exactly when
   * `b` holds a close sequence; otherwise, with an open sequence in `b`, it
   * cuts at the first one: it emits the text before it (which holds neither
   * delimiter) and keeps the rest, which starts with the open sequence and holds no close
   * sequence; with no open sequence it emits all of `b` and keeps all of `b`.
   */
  lemma FinishOutcome(open: string, close: string, b: string)
    ensures var r := Finish(open, close, b);
      (r.outcome.Failed? <==> Contains(b, close)) &&
      (r.outcome.Failed? ==> r.outcome.message == InvalidFormat && r.buffer == b) &&
      (r.outcome.Emitted? && Contains(b, open) ==>
        r.outcome.text == b[..IndexOf(b, open).value] &&
        r.outcome.text + r.buffer == b &&
        OccursAt(r.buffer, 0, open) &&
        !Contains(r.buffer, close) &&
        !Contains(r.outcome.text, close) &&
        (open != [] ==> !Contains(r.outcome.text, open))) &&
      (r.outcome.Emitted? && !Contains(b, open) ==> r.outcome.text == b && r.buffer == b)
  {
    if !Contains(b, close) && Contains(b, open) {
      SplitAtFirstOpen(open, close, b);
    }
  }

  /** A buffer that ends with the snapshot's text from an entry on holds a close sequence. */
  lemma PendingEntryHoldsClose(s: string, open: string, close: string, e: Entry, b: string)
    requires IsMatchAt(s, open, close, e.index, e)
    requires e.index <= |s| && IsSuffix(s[e.index..], b)
    ensures Contains(b, close)
  {
    MatchParts(s, open, close, e.index, e);
    var t := s[e.index..];
    var k := |open| + |e.expression|;
    assert t[k..k + |close|] == s[e.index + k..e.index + k + |close|];
    assert OccursAt(t, k, close);
    SuffixOccurrence(t, b, k, close);
  }

  /**
   * If the resolver fails for some entry, the loop stops at the first failing
   * entry, having handed the resolver the expressions of the entries up to it
   * in order and none after it.
   */
  lemma ResolverFailureStops(s: string, entries: seq<Entry>, resolve: Resolver, k: nat)
    requires k < |entries|
    requires resolve(entries[k].expression).None?
    ensures var p := Substitute(s, entries, resolve);
      !p.complete && 0 < |p.resolved| <= k + 1 &&
      (forall j :: 0 <= j < |p.resolved| ==> p.resolved[j] == entries[j].expression)
  {
    var p := Substitute(s, entries, resolve);
    var xs := Expressions(entries);
    assert resolve(xs[k]).None?;
    forall j | 0 <= j < |p.resolved| ensures p.resolved[j] == entries[j].expression {
      assert p.resolved[j] == xs[j];
    }
  }

  /**
   * ... and then that entry's text (with its close sequence) is still in the
   * buffer, so the call ends with the format error.
   */
  lemma ResolverFailureIsFormatError(open: string, close: string, buffer: string, chunk: string, resolve: Resolver, k: nat)
    requires k < |Entries(buffer + chunk, open, close)|
    requires resolve(Entries(buffer + chunk, open, close)[k].expression).None?
    ensures Step(open, close, buffer, chunk, resolve).outcome == Failed(InvalidFormat)
  {
    var working := buffer + chunk;
    ResolverFailureStops(working, Entries(working, open, close), resolve, k);
    FailedPassKeepsClose(working, open, close, resolve);
  }

  /** A pass that stopped on a failing resolver call leaves a close sequence in the buffer. */
  lemma FailedPassKeepsClose(s: string, open: string, close: string, resolve: Resolver)
    requires !Substitute(s, Entries(s, open, close), resolve).complete
    ensures Contains(Substitute(s, Entries(s, open, close), resolve).buffer, close)
  {
    var entries := Entries(s, open, close);
    var p := Substitute(s, entries, resolve);
    EntriesPlaced(s, open, close);
    SubstituteKeepsPending(s, entries, s, resolve);
    EntriesFromIsLeftmostScan(s, open, close, 0);
    var e := entries[|p.resolved| - 1];
    assert IsMatchAt(s, open, close, e.index, e);
    PendingEntryHoldsClose(s, open, close, e, p.buffer);
  }

  /** After an emitting call, the buffer that is kept holds no entry. */
  lemma RetainedBufferHasNoEntries(open: string, close: string, b: string)
    requires Finish(open, close, b).outcome.Emitted?
    ensures Entries(Finish(open, close, b).buffer, open, close) == []
  {
    FinishOutcome(open, close, b);
    NoCloseNoEntries(Finish(open, close, b).buffer, open, close);
  }

  /** A call over text without any close sequence resolves nothing and works on `buffer + chunk` as it is. */
  lemma LiteralTextIsNotRewritten(open: string, close: string, buffer: string, chunk: string, resolve: Resolver)
    requires !Contains(buffer + chunk, close)
    ensures Substituted(open, close, buffer, chunk, resolve) == buffer + chunk
  {
    NoCloseNoEntries(buffer + chunk, open, close);
  }

  /** The concatenation of a list of strings. */
  function Concat(ss: seq<string>): string {
    if ss == [] then "" else ss[0] + Concat(ss[1..])
  }

  /** The outputs of a run over many chunks, the buffer left at its end, and whether it ended in the error. */
  datatype Run = Run(outputs: seq<string>, buffer: string, failed: bool)

  /** A run over many chunks with any per-call step. */
  function RunWith(step: (string, string) -> StepResult, buffer: string, chunks: seq<string>): Run
    decreases |chunks|
  {
    if chunks == [] then Run([], buffer, false)
    else
      var r := step(buffer, chunks[0]);
      match r.outcome
      case Failed(_) => Run([], r.buffer, true)
      case Emitted(text) =>
        var rest := RunWith(step, r.buffer, chunks[1..]);
        Run([text] + rest.outputs, rest.buffer, rest.failed)
  }

  /** Feeds `chunks` one by one through `Step`; the stream stops at the first error. */
  function RunChunks(open: string, close: string, buffer: string, chunks: seq<string>, resolve: Resolver): Run {
    RunWith((b, c) => Step(open, close, b, c, resolve), buffer, chunks)
  }

  /**
   * The code as written emits text twice: two chunks of plain text `x` and
   * `y`, with no delimiter at all, come out as `x` followed by `x + y`,
   * because the buffer emitted in the no-open branch is kept and the next
   * chunk is appended to it. With `x` non-empty the outputs put together are
   * longer than the input.
   */
  lemma RunRepeatsEmittedText(open: string, close: string, x: string, y: string, resolve: Resolver)
    requires !Contains(x + y, close) && !Contains(x + y, open)
    ensures var r := RunChunks(open, close, "", [x, y], resolve);
      r == Run([x, x + y], x + y, false) && Concat(r.outputs) == x + x + y
    ensures x != "" ==> Concat(RunChunks(open, close, "", [x, y], resolve).outputs) != Concat([x, y])
  {
    NoCloseInParts(x + y, x, y, close);
    NoCloseInParts(x + y, x, y, open);
    assert "" + x == x;
    LiteralStep(open, close, "", x, resolve);
    LiteralStep(open, close, x, y, resolve);
    assert [x, y][1..] == [y] && [y][1..] == [];
    RunChunksEmits(open, close, x, [y], resolve);
    assert RunChunks(open, close, x + y, [], resolve) == Run([], x + y, false);
    assert [x + y] + [] == [x + y];
    RunChunksEmits(open, close, "", [x, y], resolve);
    assert [x] + [x + y] == [x, x + y];
    ConcatPair(x, x + y);
    ConcatPair(x, y);
  }

  /** Unfolding `RunChunks` over a call that emits. */
  lemma RunChunksEmits(open: string, close: string, buffer: string, chunks: seq<string>, resolve: Resolver)
    requires chunks != [] && Step(open, close, buffer, chunks[0], resolve).outcome.Emitted?
    ensures var r := Step(open, close, buffer, chunks[0], resolve);
      var rest := RunChunks(open, close, r.buffer, chunks[1..], resolve);
      RunChunks(open, close, buffer, chunks, resolve) == Run([r.outcome.text] + rest.outputs, rest.buffer, rest.failed)
  {
  }

  /** `Concat` of two strings. */
  lemma ConcatPair(x: string, y: string)
    ensures Concat([x, y]) == x + y
  {
    assert [x, y][1..] == [y] && [y][1..] == [];
    assert Concat([y]) == y + "" == y;
    assert Concat([x, y]) == x + Concat([y]);
  }

  /** A call whose substituted buffer still holds a close sequence fails and keeps that buffer. */
  lemma CloseSurvivesFails(open: string, close: string, buffer: string, chunk: string, resolve: Resolver, b: string)
    requires Substituted(open, close, buffer, chunk, resolve) == b && Contains(b, close)
    ensures Step(open, close, buffer, chunk, resolve) == StepResult(Failed(InvalidFormat), b)
  {
  }

  /** Text with neither delimiter is emitted whole and kept whole. */
  lemma LiteralFinish(open: string, close: string, b: string)
    requires !Contains(b, close) && !Contains(b, open)
    ensures Finish(open, close, b) == StepResult(Emitted(b), b)
  {
  }

  /** A call whose text holds exactly one entry, which resolves: the pass replaces that entry's first occurrence. */
  lemma SingleEntrySubstituted(open: string, close: string, buffer: string, chunk: string, resolve: Resolver, e: Entry, replacement: string)
    requires Entries(buffer + chunk, open, close) == [e]
    requires resolve(e.expression) == Some(replacement)
    ensures Substituted(open, close, buffer, chunk, resolve) == ReplaceFirst(buffer + chunk, e.text, replacement)
  {
    var b := ReplaceFirst(buffer + chunk, e.text, replacement);
    assert [e][1..] == [];
    assert Substitute(b, [], resolve) == Pass(b, [], true);
    assert Substitute(buffer + chunk, [e], resolve).buffer == b;
  }

  /** A call over text with neither delimiter emits all of it and keeps all of it. */
  lemma LiteralStep(open: string, close: string, buffer: string, chunk: string, resolve: Resolver)
    requires !Contains(buffer + chunk, close) && !Contains(buffer + chunk, open)
    ensures Step(open, close, buffer, chunk, resolve) == StepResult(Emitted(buffer + chunk), buffer + chunk)
  {
    LiteralTextIsNotRewritten(open, close, buffer, chunk, resolve);
  }

  /** The evidently intended end of a call: as `Finish`, but the no-open branch empties the buffer after emitting it. */
  function FinishCleared(open: string, close: string, b: string): StepResult {
    if Contains(b, close) then StepResult(Failed(InvalidFormat), b)
    else match IndexOf(b, open)
      case None => StepResult(Emitted(b), "")
      case Some(i) => StepResult(Emitted(b[..i]), b[i..])
  }

  /** One call with the corrected ending. */
  function StepCleared(open: string, close: string, buffer: string, chunk: string, resolve: Resolver): StepResult {
    FinishCleared(open, close, Substituted(open, close, buffer, chunk, resolve))
  }

  /**
   * The corrected ending never duplicates and fails only on a close sequence:
   * what it emits followed by what it keeps is the substituted buffer. It cuts
   * where the code does, at the first open sequence, but with no open sequence
   * it emits the whole buffer and keeps nothing.
   */
  lemma FinishClearedConserves(open: string, close: string, b: string)
    ensures FinishCleared(open, close, b).outcome.Failed? <==> Contains(b, close)
    ensures var r := FinishCleared(open, close, b);
      r.outcome.Emitted? ==> r.outcome.text + r.buffer == b
    ensures var r := FinishCleared(open, close, b);
      r.outcome.Emitted? && Contains(b, open) ==> r.outcome.text == b[..IndexOf(b, open).value]
    ensures var r := FinishCleared(open, close, b);
      r.outcome.Emitted? && !Contains(b, open) ==> r.outcome.text == b && r.buffer == ""
  {
    if IndexOf(b, open).Some? {
      var i := IndexOf(b, open).value;
      assert b[..i] + b[i..] == b;
    }
  }

  /** `RunChunks` with the corrected step. */
  function RunChunksCleared(open: string, close: string, buffer: string, chunks: seq<string>, resolve: Resolver): Run {
    RunWith((b, c) => StepCleared(open, close, b, c, resolve), buffer, chunks)
  }

  /** The parts of a text without a close sequence have none either. */
  lemma NoCloseInParts(whole: string, x: string, y: string, close: string)
    requires whole == x + y && !Contains(whole, close)
    ensures !Contains(x, close) && !Contains(y, close)
  {
    assert whole[..|x|] == x && whole[|x|..] == y;
    if Contains(x, close) {
      ContainsSlice(whole, 0, |x|, close);
    }
    if Contains(y, close) {
      assert whole[|x|..|whole|] == y;
      ContainsSlice(whole, |x|, |whole|, close);
    }
  }

  /**
   * When every call over text without a close sequence emits, and what it
   * emits followed by what it keeps is exactly that text, a run over such text
   * does not fail and loses or repeats nothing.
   */
  lemma {:induction false} RunConservesLiteralText(step: (string, string) -> StepResult, close: string, buffer: string, chunks: seq<string>)
    requires forall b, c {:trigger step(b, c)} :: !Contains(b + c, close) ==>
      step(b, c).outcome.Emitted? && step(b, c).outcome.text + step(b, c).buffer == b + c
    requires !Contains(buffer + Concat(chunks), close)
    ensures var r := RunWith(step, buffer, chunks);
      !r.failed && Concat(r.outputs) + r.buffer == buffer + Concat(chunks)
    decreases |chunks|
  {
    if chunks != [] {
      var whole := buffer + Concat(chunks);
      var later := Concat(chunks[1..]);
      assert whole == (buffer + chunks[0]) + later;
      NoCloseInParts(whole, buffer + chunks[0], later, close);
      var r := step(buffer, chunks[0]);
      var t := r.outcome.text;
      assert whole == t + (r.buffer + later);
      NoCloseInParts(whole, t, r.buffer + later, close);
      RunConservesLiteralText(step, close, r.buffer, chunks[1..]);
      var rest := RunWith(step, r.buffer, chunks[1..]);
      var run := RunWith(step, buffer, chunks);
      assert run == Run([t] + rest.outputs, rest.buffer, rest.failed);
      assert ([t] + rest.outputs)[1..] == rest.outputs;
      assert Concat(run.outputs) == t + Concat(rest.outputs);
      calc {
        Concat(run.outputs) + run.buffer;
        t + (Concat(rest.outputs) + rest.buffer);
        t + (r.buffer + later);
        whole;
      }
    } else {
      assert RunWith(step, buffer, chunks) == Run([], buffer, false);
      assert Concat(chunks) == [];
      assert buffer + [] == buffer;
    }
  }

  /**
   * With the corrected step, text that holds no close sequence streams through
   * unchanged however it is cut into chunks: the outputs followed by the kept
   * buffer are exactly the starting buffer followed by all the chunks.
   */
  lemma ClearedRunReproducesLiteralText(open: string, close: string, buffer: string, chunks: seq<string>, resolve: Resolver)
    requires !Contains(buffer + Concat(chunks), close)
    ensures var r := RunChunksCleared(open, close, buffer, chunks, resolve);
      !r.failed && Concat(r.outputs) + r.buffer == buffer + Concat(chunks)
  {
    var step := (b, c) => StepCleared(open, close, b, c, resolve);
    forall b, c | !Contains(b + c, close)
      ensures step(b, c).outcome.Emitted? && step(b, c).outcome.text + step(b, c).buffer == b + c
    {
      ClearedStepOnLiteral(open, close, b, c, resolve);
    }
    RunConservesLiteralText(step, close, buffer, chunks);
  }

  /** A corrected call over text without a close sequence emits, and loses or repeats nothing. */
  lemma ClearedStepOnLiteral(open: string, close: string, buffer: string, chunk: string, resolve: Resolver)
    requires !Contains(buffer + chunk, close)
    ensures var r := StepCleared(open, close, buffer, chunk, resolve);
      r.outcome.Emitted? && r.outcome.text + r.buffer == buffer + chunk
  {
    LiteralTextIsNotRewritten(open, close, buffer, chunk, resolve);
    FinishClearedConserves(open, close, buffer + chunk);
  }

  // The code cuts the substituted buffer, so replacement text after the first
  // open sequence is carried into the next call and scanned again there. The
  // corrected call below substitutes in the same way but carries raw input only.

  /** Where the text after the last entry of a scan starts: 0 when there is no entry. */
  function TailStart(entries: seq<Entry>): nat {
    if entries == [] then 0 else End(entries[|entries| - 1])
  }

  /**
   * The corrected cut, made in the raw text `w` rather than in the substituted
   * buffer: at the first open sequence after the last entry, or at the end of
   * `w` when there is none.
   */
  function RawCut(open: string, close: string, w: string): (c: nat)
    ensures c <= |w|
  {
    match IndexOfFrom(w, open, TailStart(Entries(w, open, close)))
    case Some(i) => i
    case None => |w|
  }

  /** The corrected cut is never inside an entry. */
  lemma RawCutAfterEntries(open: string, close: string, w: string)
    ensures TailStart(Entries(w, open, close)) <= RawCut(open, close, w)
  {
    EntriesEndInside(w, open, close);
  }

  /** Every entry of a scan ends inside the scanned text. */
  lemma EntriesEndInside(w: string, open: string, close: string)
    ensures TailStart(Entries(w, open, close)) <= |w|
  {
    var es := Entries(w, open, close);
    if es != [] {
      EntriesFromIsLeftmostScan(w, open, close, 0);
      assert IsMatchAt(w, open, close, es[|es| - 1].index, es[|es| - 1]);
    }
  }

  /** A pass that leaves no close sequence resolved every entry. */
  lemma CloseFreePassIsComplete(w: string, open: string, close: string, resolve: Resolver)
    requires !Contains(Substitute(w, Entries(w, open, close), resolve).buffer, close)
    ensures Substitute(w, Entries(w, open, close), resolve).complete
  {
    if !Substitute(w, Entries(w, open, close), resolve).complete {
      FailedPassKeepsClose(w, open, close, resolve);
    }
  }

  /**
   * After a pass that leaves no close sequence, the raw text from the corrected
   * cut on is still the end of the substituted buffer: substitution touched
   * nothing after the last entry.
   */
  lemma RawTailIsKept(open: string, close: string, w: string, resolve: Resolver)
    requires !Contains(Substitute(w, Entries(w, open, close), resolve).buffer, close)
    ensures IsSuffix(w[RawCut(open, close, w)..], Substitute(w, Entries(w, open, close), resolve).buffer)
  {
    var es := Entries(w, open, close);
    var p := Substitute(w, es, resolve);
    var c := RawCut(open, close, w);
    RawCutAfterEntries(open, close, w);
    if es == [] {
      assert p.buffer == w;
      assert w[|w| - |w[c..]|..] == w[c..];
    } else {
      CloseFreePassIsComplete(w, open, close, resolve);
      EntriesPlaced(w, open, close);
      assert w[es[0].index..] == w[es[0].index..];
      assert IsSuffix(w[es[0].index..], w);
      SubstituteKeepsPending(w, es, w, resolve);
      SliceSuffix(w, TailStart(es), c, p.buffer);
    }
  }

  /** `s` without its last `n` characters (empty when it is shorter). */
  function DropLast(s: string, n: nat): string {
    if n <= |s| then s[..|s| - n] else []
  }

  /**
   * The evidently intended call: substitute as the code does and fail on a
   * surviving close sequence, but carry over only raw input, from the first
   * open sequence after the last entry on, so that replacement text is emitted
   * and never scanned again (and nothing is carried when there is no such
   * open sequence).
   */
  function StepRaw(open: string, close: string, buffer: string, chunk: string, resolve: Resolver): StepResult {
    var w := buffer + chunk;
    var b := Substitute(w, Entries(w, open, close), resolve).buffer;
    if Contains(b, close) then StepResult(Failed(InvalidFormat), b)
    else
      var c := RawCut(open, close, w);
      StepResult(Emitted(DropLast(b, |w| - c)), w[c..])
  }

  /**
   * What an emitting corrected call over the raw text `w` with substituted
   * buffer `b` promises: the emitted text followed by the kept text is `b`;
   * the kept text is a suffix of `w` that is empty or starts with the open
   * sequence and holds no entry; and it starts at the first open sequence at
   * or after the end of the last entry: not inside an entry, and with no open
   * sequence between that end and the cut.
   */
  ghost predicate RawEmitted(open: string, close: string, w: string, b: string, text: string, kept: string) {
    var from := TailStart(Entries(w, open, close));
    text + kept == b &&
    IsSuffix(kept, w) &&
    (kept == [] || OccursAt(kept, 0, open)) &&
    Entries(kept, open, close) == [] &&
    from <= |w| - |kept| &&
    (forall j :: from <= j < |w| - |kept| ==> !OccursAt(w, j, open))
  }

  /**
   * The corrected call fails exactly when the code's call fails, and an
   * emitting call emits the substituted buffer up to the raw tail of the input
   * that starts at the first open sequence after the last entry.
   */
  lemma RawStepOutcome(open: string, close: string, buffer: string, chunk: string, resolve: Resolver)
    ensures var r := StepRaw(open, close, buffer, chunk, resolve);
      (r.outcome.Failed? <==> Step(open, close, buffer, chunk, resolve).outcome.Failed?) &&
      (r.outcome.Emitted? ==>
        RawEmitted(open, close, buffer + chunk, Substituted(open, close, buffer, chunk, resolve), r.outcome.text, r.buffer))
  {
    var b := Substituted(open, close, buffer, chunk, resolve);
    FinishOutcome(open, close, b);
    if !Contains(b, close) {
      RawStepEmits(open, close, buffer, chunk, resolve);
    }
  }

  /** The emitting case of `RawStepOutcome`. */
  lemma RawStepEmits(open: string, close: string, buffer: string, chunk: string, resolve: Resolver)
    requires !Contains(Substituted(open, close, buffer, chunk, resolve), close)
    ensures var r := StepRaw(open, close, buffer, chunk, resolve);
      r.outcome.Emitted? &&
      RawEmitted(open, close, buffer + chunk, Substituted(open, close, buffer, chunk, resolve), r.outcome.text, r.buffer)
  {
    var w := buffer + chunk;
    var b := Substituted(open, close, buffer, chunk, resolve);
    var c := RawCut(open, close, w);
    RawTailIsKept(open, close, w, resolve);
    assert StepRaw(open, close, buffer, chunk, resolve) == StepResult(Emitted(b[..|b| - |w[c..]|]), w[c..]);
    CutAtSuffix(b, w[c..], close);
    RawCutStartsWithOpen(open, close, w);
    SliceIsSuffix(w, c);
    NoCloseNoEntries(w[c..], open, close);
    RawCutAfterEntries(open, close, w);
    RawCutIsFirstOpen(open, close, w);
  }

  /** No open sequence starts between the end of the last entry and the corrected cut. */
  lemma RawCutIsFirstOpen(open: string, close: string, w: string)
    ensures forall j :: TailStart(Entries(w, open, close)) <= j < RawCut(open, close, w) ==> !OccursAt(w, j, open)
  {
  }

  /** Cutting a close-free text just before one of its suffixes: the parts rejoin, and the suffix holds no close sequence. */
  lemma CutAtSuffix(b: string, kept: string, close: string)
    requires IsSuffix(kept, b) && !Contains(b, close)
    ensures b[..|b| - |kept|] + kept == b && !Contains(kept, close)
  {
    assert b[..|b| - |kept|] + b[|b| - |kept|..] == b;
    NoCloseInParts(b, b[..|b| - |kept|], kept, close);
  }

  /** The raw text from the corrected cut is empty or starts with the open sequence. */
  lemma RawCutStartsWithOpen(open: string, close: string, w: string)
    ensures var c := RawCut(open, close, w);
      w[c..] == [] || OccursAt(w[c..], 0, open)
  {
    var c := RawCut(open, close, w);
    if IndexOfFrom(w, open, TailStart(Entries(w, open, close))).Some? {
      assert w[c..][..|open|] == w[c..c + |open|];
    }
  }

  /** Every slice to the end is a suffix. */
  lemma SliceIsSuffix(w: string, c: nat)
    requires c <= |w|
    ensures IsSuffix(w[c..], w)
  {
    assert w[|w| - |w[c..]|..] == w[c..];
  }

  /** `RunChunks` with the corrected call that carries raw input only. */
  function RunChunksRaw(open: string, close: string, buffer: string, chunks: seq<string>, resolve: Resolver): Run {
    RunWith((b, c) => StepRaw(open, close, b, c, resolve), buffer, chunks)
  }

  /** What an emitting corrected call keeps is a suffix of its input. */
  lemma RawStepKeepsInput(open: string, close: string, buffer: string, chunk: string, resolve: Resolver)
    ensures var r := StepRaw(open, close, buffer, chunk, resolve);
      r.outcome.Emitted? ==> IsSuffix(r.buffer, buffer + chunk)
  {
    RawStepOutcome(open, close, buffer, chunk, resolve);
  }

  /** A suffix of a suffix is a suffix, and appending keeps a suffix. */
  lemma SuffixThenAppend(t: string, s: string, u: string, more: string)
    requires IsSuffix(t, s)
    requires IsSuffix(u, t + more)
    ensures IsSuffix(u, s + more)
  {
    assert (s + more)[|s + more| - |t + more|..] == t + more;
    assert (s + more)[|s + more| - |u|..] == (t + more)[|t + more| - |u|..];
  }

  /**
   * When every call that emits keeps only a suffix of its input, a run that
   * does not fail ends with a suffix of everything it was given.
   */
  lemma {:induction false} RunKeepsSuffix(step: (string, string) -> StepResult, buffer: string, chunks: seq<string>)
    requires forall b, c :: step(b, c).outcome.Emitted? ==> IsSuffix(step(b, c).buffer, b + c)
    ensures var r := RunWith(step, buffer, chunks);
      !r.failed ==> IsSuffix(r.buffer, buffer + Concat(chunks))
    decreases |chunks|
  {
    if chunks == [] {
      assert buffer + Concat(chunks) == buffer;
      assert buffer[|buffer| - |buffer|..] == buffer;
    } else {
      var r := step(buffer, chunks[0]);
      if r.outcome.Emitted? {
        RunKeepsSuffix(step, r.buffer, chunks[1..]);
        var rest := RunWith(step, r.buffer, chunks[1..]);
        if !rest.failed {
          SuffixThenAppend(r.buffer, buffer + chunks[0], rest.buffer, Concat(chunks[1..]));
          assert (buffer + chunks[0]) + Concat(chunks[1..]) == buffer + Concat(chunks);
        }
      }
    }
  }

  /**
   * With the corrected call, the buffer carried between calls is always raw
   * input: in a run that does not fail it is a suffix of the starting buffer
   * followed by every chunk. So each call scans only text that came from the
   * input, and a replacement is never scanned for entries again, however the
   * input is cut into chunks.
   */
  lemma RawRunCarriesOnlyInput(open: string, close: string, buffer: string, chunks: seq<string>, resolve: Resolver)
    ensures var r := RunChunksRaw(open, close, buffer, chunks, resolve);
      !r.failed ==> IsSuffix(r.buffer, buffer + Concat(chunks))
  {
    var step := (b, c) => StepRaw(open, close, b, c, resolve);
    forall b, c
      ensures step(b, c).outcome.Emitted? ==> IsSuffix(step(b, c).buffer, b + c)
    {
      RawStepKeepsInput(open, close, b, c, resolve);
    }
    RunKeepsSuffix(step, buffer, chunks);
  }

  // The code replaces the first textual occurrence of each entry's text, which
  // can lie before the entry, inside text an earlier replacement produced. The
  // corrected pass below replaces every entry at its own position in the
  // snapshot, so a replacement never lands anywhere else.

  /** `entries` lie in `s` from `from` on, left to right and without overlap. */
  predicate Spans(s: string, from: nat, entries: seq<Entry>)
    decreases |entries|
  {
    from <= |s| &&
    (entries != [] ==>
      from <= entries[0].index && End(entries[0]) <= |s| && Spans(s, End(entries[0]), entries[1..]))
  }

  /** `s` from `from` on, with the span of each entry replaced by the replacement at the same position. */
  function SpanReplace(s: string, from: nat, entries: seq<Entry>, replacements: seq<string>): string
    requires Spans(s, from, entries) && |replacements| == |entries|
    decreases |entries|
  {
    if entries == [] then s[from..]
    else s[from..entries[0].index] + replacements[0] + SpanReplace(s, End(entries[0]), entries[1..], replacements[1..])
  }

  /**
   * The replacements for the longest prefix of `entries` whose resolver calls
   * all succeed: the calls stop at the first one that fails, as in the code.
   */
  function Replacements(entries: seq<Entry>, resolve: Resolver): (rs: seq<string>)
    decreases |entries|
    ensures |rs| <= |entries|
    ensures forall j :: 0 <= j < |rs| ==> resolve(entries[j].expression) == Some(rs[j])
    ensures |rs| < |entries| ==> resolve(entries[|rs|].expression).None?
  {
    if entries == [] then []
    else match resolve(entries[0].expression)
      case None => []
      case Some(r) => [r] + Replacements(entries[1..], resolve)
  }

  /** The corrected loop: each resolved entry is replaced where it was found. */
  function SubstituteInPlace(s: string, entries: seq<Entry>, resolve: Resolver): string
    requires Spans(s, 0, entries)
  {
    var rs := Replacements(entries, resolve);
    SpansPrefix(s, 0, entries, |rs|);
    SpanReplace(s, 0, entries[..|rs|], rs)
  }

  /** The first `n` entries of a span list are a span list. */
  lemma {:induction false} SpansPrefix(s: string, from: nat, entries: seq<Entry>, n: nat)
    requires Spans(s, from, entries) && n <= |entries|
    ensures Spans(s, from, entries[..n])
    decreases n
  {
    if n > 0 {
      SpansPrefix(s, End(entries[0]), entries[1..], n - 1);
      assert entries[..n][1..] == entries[1..][..n - 1];
    }
  }

  /**
   * The corrected loop calls the resolver exactly as the code's loop does: the
   * code's pass is complete exactly when every entry got a replacement, and it
   * calls the resolver once more than there are replacements when it stops on
   * a failure.
   */
  lemma {:induction false} ReplacementsFollowPass(buffer: string, entries: seq<Entry>, resolve: Resolver)
    ensures var p := Substitute(buffer, entries, resolve);
      var rs := Replacements(entries, resolve);
      (p.complete <==> |rs| == |entries|) &&
      |p.resolved| == (if p.complete then |rs| else |rs| + 1)
    decreases |entries|
  {
    if entries != [] && resolve(entries[0].expression).Some? {
      ReplacementsFollowPass(ReplaceFirst(buffer, entries[0].text, resolve(entries[0].expression).value), entries[1..], resolve);
    }
  }

  /** Placed entries are a span list from any point before the first of them. */
  lemma {:induction false} PlacedSpans(s: string, from: nat, entries: seq<Entry>)
    requires Placed(s, entries) && from <= |s|
    requires entries != [] ==> from <= entries[0].index
    ensures Spans(s, from, entries)
    decreases |entries|
  {
    if entries != [] {
      assert OccursAt(s, entries[0].index, entries[0].text);
      PlacedTail(s, entries);
      if |entries| > 1 {
        assert End(entries[0]) <= entries[1].index && entries[1..][0] == entries[1];
      }
      PlacedSpans(s, End(entries[0]), entries[1..]);
    }
  }

  /** The entries of the code's scan are a span list, so the corrected pass applies to them. */
  lemma EntriesSpans(s: string, open: string, close: string)
    ensures Spans(s, 0, Entries(s, open, close))
  {
    EntriesPlaced(s, open, close);
    PlacedSpans(s, 0, Entries(s, open, close));
  }

  /** Regrouping a concatenation of five strings. */
  lemma Regroup(a: string, b: string, c: string, d: string, f: string)
    ensures a + b + (c + d + f) == (a + b + c) + d + f
  {
  }

  /** Cutting a span list at entry `k`: the entries before it lie in the text before it, and the rest after it. */
  lemma {:induction false} SpansCut(s: string, from: nat, entries: seq<Entry>, k: nat)
    requires Spans(s, from, entries) && k < |entries|
    ensures End(entries[k]) <= |s| && Spans(s, End(entries[k]), entries[k + 1..])
    ensures Spans(s[..entries[k].index], from, entries[..k])
    decreases k
  {
    if k == 0 {
      assert entries[1..] == entries[k + 1..];
    } else {
      var e, tail := entries[0], entries[1..];
      SpansCut(s, End(e), tail, k - 1);
      assert tail[k - 1] == entries[k] && tail[k..] == entries[k + 1..];
      var before := entries[..k];
      assert before[0] == e && before[1..] == tail[..k - 1];
    }
  }

  /**
   * Corrected pass, in place: the replacement for entry `k` sits exactly
   * between the corrected text before that entry and the corrected text
   * after it. No replacement moves another, and the text between entries
   * stays where it was.
   */
  lemma {:induction false} SpanReplaceSplit(s: string, from: nat, entries: seq<Entry>, replacements: seq<string>, k: nat)
    requires Spans(s, from, entries) && |replacements| == |entries| && k < |entries|
    ensures End(entries[k]) <= |s| && Spans(s, End(entries[k]), entries[k + 1..])
    ensures Spans(s[..entries[k].index], from, entries[..k])
    ensures SpanReplace(s, from, entries, replacements) ==
      SpanReplace(s[..entries[k].index], from, entries[..k], replacements[..k]) + replacements[k] +
      SpanReplace(s, End(entries[k]), entries[k + 1..], replacements[k + 1..])
    decreases k
  {
    SpansCut(s, from, entries, k);
    if k == 0 {
      assert entries[1..] == entries[k + 1..];
      assert s[..entries[0].index][from..] == s[from..entries[0].index];
    } else {
      var e, tail, tailRs := entries[0], entries[1..], replacements[1..];
      SpanReplaceSplit(s, End(e), tail, tailRs, k - 1);
      assert tail[k - 1] == entries[k] && tail[k..] == entries[k + 1..] && tailRs[k..] == replacements[k + 1..];
      var t := s[..entries[k].index];
      var before, beforeRs := entries[..k], replacements[..k];
      assert before[0] == e && before[1..] == tail[..k - 1] && beforeRs[0] == replacements[0] && beforeRs[1..] == tailRs[..k - 1];
      var after := SpanReplace(s, End(entries[k]), entries[k + 1..], replacements[k + 1..]);
      var mid := SpanReplace(t, End(e), tail[..k - 1], tailRs[..k - 1]);
      assert SpanReplace(t, from, before, beforeRs) == t[from..e.index] + replacements[0] + mid;
      assert t[from..e.index] == s[from..e.index];
      var whole := SpanReplace(s, from, entries, replacements);
      assert whole == s[from..e.index] + replacements[0] + SpanReplace(s, End(e), tail, tailRs);
      assert SpanReplace(s, End(e), tail, tailRs) == mid + replacements[k] + after;
      Regroup(s[from..e.index], replacements[0], mid, replacements[k], after);
    }
  }
}
