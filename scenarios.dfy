/**
 * Concrete calls that pin down edge cases of the engine: the empty
 * expression, an entry split across two chunks, a replacement that itself
 * looks like an entry, and a replacement put in the wrong place. They use the
 * default delimiters, except the `Hash` and `MisplacedReplacement` scenarios,
 * which use `##` as both the open and the close sequence.
 */
module Scenarios {
  import opened Wrappers
  import opened Strings
  import opened Scanner
  import opened Template

  /** `{{}}` is not an entry (`.+?` needs a character), so its close sequence survives and the call fails. */
  lemma EmptyExpressionIsRejected(resolve: Resolver)
    ensures Entries("{{}}", DefaultOpen, DefaultClose) == []
    ensures Step(DefaultOpen, DefaultClose, "", "{{}}", resolve) == StepResult(Failed(InvalidFormat), "{{}}")
  {
    assert "" + "{{}}" == "{{}}";
    assert "{{}}"[2..4] == DefaultClose;
    assert OccursAt("{{}}", 2, DefaultClose);
  }

  /** The resolver used by the split-entry run: `ex` resolves to `Z`, anything else fails. */
  function ResolveEx(expression: string): Option<string> {
    if expression == "ex" then Some("Z") else None
  }

  /** The first chunk `A{{e` has an open sequence but no entry: `A` is emitted and `{{e` kept. */
  lemma SplitEntryFirstChunk()
    ensures Step(DefaultOpen, DefaultClose, "", "A{{e", ResolveEx) == StepResult(Emitted("A"), "{{e")
  {
    var s := "A{{e";
    assert "" + s == s;
    MissingFirstChar(s, DefaultClose);
    LiteralTextIsNotRewritten(DefaultOpen, DefaultClose, "", s, ResolveEx);
    SplitEntryFirstFinish();
  }

  lemma SplitEntryFirstFinish()
    ensures Finish(DefaultOpen, DefaultClose, "A{{e") == StepResult(Emitted("A"), "{{e")
  {
    var s := "A{{e";
    MissingFirstChar(s, DefaultClose);
    assert s[0..2][0] == 'A';
    assert !OccursAt(s, 0, DefaultOpen);
    assert s[1..3] == DefaultOpen;
    assert IndexOf(s, DefaultOpen) == Some(1);
    assert s[..1] == "A" && s[1..] == "{{e";
  }

  /** With the kept `{{e`, the second chunk completes the entry `{{ex}}`, the only one in `{{ex}}B`. */
  lemma SplitEntryIsFound()
    ensures Entries("{{ex}}B", DefaultOpen, DefaultClose) == [Entry("{{ex}}", "ex", 0)]
  {
    var s := "{{ex}}B";
    assert s[0..2] == DefaultOpen;
    assert s[3..5][0] == 'x' != DefaultClose[0];
    assert !OccursAt(s, 3, DefaultClose);
    assert s[4..6] == DefaultClose;
    assert s[0..6] == "{{ex}}" && s[2..4] == "ex";
    assert LazyMatch(s, DefaultOpen, DefaultClose, 0, 2) == Some(Entry("{{ex}}", "ex", 0));
    assert MatchAt(s, DefaultOpen, DefaultClose, 0) == Some(Entry("{{ex}}", "ex", 0));
    assert EntriesFrom(s, DefaultOpen, DefaultClose, 6) == [];
  }

  /**
   * `A{{ex}}B` in the chunks `A{{e` and `x}}B` comes out as `A` then `ZB`;
   * with no open sequence left, `ZB` is also kept as the buffer.
   */
  lemma SplitEntryRun()
    ensures RunChunks(DefaultOpen, DefaultClose, "", ["A{{e", "x}}B"], ResolveEx) == Run(["A", "ZB"], "ZB", false)
  {
    SplitEntryFirstChunk();
    SplitEntrySecondChunk();
    assert ["A{{e", "x}}B"][1..] == ["x}}B"];
    assert ["x}}B"][1..] == [];
  }

  /** The second chunk: the entry `{{ex}}` becomes `Z`, and `ZB` is emitted. */
  lemma SplitEntrySecondChunk()
    ensures Step(DefaultOpen, DefaultClose, "{{e", "x}}B", ResolveEx) == StepResult(Emitted("ZB"), "ZB")
  {
    var s := "{{ex}}B";
    assert "{{e" + "x}}B" == s;
    SplitEntryIsFound();
    SingleEntrySubstituted(DefaultOpen, DefaultClose, "{{e", "x}}B", ResolveEx, Entry("{{ex}}", "ex", 0), "Z");
    assert s[0..6] == "{{ex}}";
    assert IndexOf(s, "{{ex}}") == Some(0);
    ReplaceFirstLiteral(s, "{{ex}}", "Z", 0);
    assert s[..0] + "Z" + s[6..] == "ZB";
    assert DefaultClose[0] !in "ZB" && DefaultOpen[0] !in "ZB";
    MissingFirstChar("ZB", DefaultClose);
    MissingFirstChar("ZB", DefaultOpen);
    LiteralFinish(DefaultOpen, DefaultClose, "ZB");
  }

  /** A resolver whose every result looks like an entry. */
  function ResolveToEntry(expression: string): Option<string> {
    Some("{{x}}")
  }

  /** The replacement `{{x}}` of the entry `{{a}}` is not scanned again; its close sequence fails the call. */
  lemma ReplacementIsNotExpanded()
    ensures Step(DefaultOpen, DefaultClose, "", "{{a}}", ResolveToEntry).outcome == Failed(InvalidFormat)
  {
    ReplacementIsSubstituted();
    EndsInClose('x');
    CloseSurvivesFails(DefaultOpen, DefaultClose, "", "{{a}}", ResolveToEntry, "{{x}}");
  }

  /** The one entry of `{{a}}` is replaced by `{{x}}`, and nothing else happens in the pass. */
  lemma ReplacementIsSubstituted()
    ensures Substituted(DefaultOpen, DefaultClose, "", "{{a}}", ResolveToEntry) == "{{x}}"
  {
    var s := "{{a}}";
    assert "" + s == s;
    SingleCharEntry('a');
    SingleEntrySubstituted(DefaultOpen, DefaultClose, "", s, ResolveToEntry, Entry(s, "a", 0), "{{x}}");
    ReplaceWhole(s, "{{x}}");
  }

  /** `{{x}}` holds the close sequence. */
  lemma EndsInClose(x: char)
    ensures Contains(['{', '{', x, '}', '}'], DefaultClose)
  {
    var b := ['{', '{', x, '}', '}'];
    assert b[3..5] == DefaultClose;
    assert OccursAt(b, 3, DefaultClose);
    ContainsIff(b, DefaultClose);
  }

  /** `{{x}}` is one entry with expression `x`, for any character `x` that does not end a line. */
  lemma SingleCharEntry(x: char)
    requires !IsLineTerminator(x)
    ensures Entries(['{', '{', x, '}', '}'], DefaultOpen, DefaultClose) == [Entry(['{', '{', x, '}', '}'], [x], 0)]
  {
    var s := ['{', '{', x, '}', '}'];
    assert s[0..2] == DefaultOpen && s[3..5] == DefaultClose && s[0..5] == s && s[2..3] == [x];
    assert LazyMatch(s, DefaultOpen, DefaultClose, 0, 1) == Some(Entry(s, [x], 0));
    assert MatchAt(s, DefaultOpen, DefaultClose, 0) == Some(Entry(s, [x], 0));
    assert EntriesFrom(s, DefaultOpen, DefaultClose, 5) == [];
  }

  /** A resolver whose result for `a` is the start of another entry: `a` gives `{{b`, `b` gives `B`. */
  function ResolveChain(expression: string): Option<string> {
    if expression == "a" then Some("{{b") else if expression == "b" then Some("B") else None
  }

  /** `{{a}}` becomes `{{b`; nothing is emitted and `{{b` is kept, open sequence first. */
  lemma ChainFirstChunk()
    ensures Step(DefaultOpen, DefaultClose, "", "{{a}}", ResolveChain) == StepResult(Emitted(""), "{{b")
  {
    var s := "{{a}}";
    var b := "{{b";
    assert "" + s == s;
    SingleCharEntry('a');
    SingleEntrySubstituted(DefaultOpen, DefaultClose, "", s, ResolveChain, Entry(s, "a", 0), b);
    ReplaceWhole(s, b);
    MissingFirstChar(b, DefaultClose);
    assert b[0..2] == DefaultOpen;
    assert IndexOf(b, DefaultOpen) == Some(0);
    assert b[..0] == "" && b[0..] == b;
  }

  /** The kept `{{b` and the chunk `}}` form the entry `{{b}}`, which becomes `B`. */
  lemma ChainSecondChunk()
    ensures Step(DefaultOpen, DefaultClose, "{{b", "}}", ResolveChain) == StepResult(Emitted("B"), "B")
  {
    var s := "{{b}}";
    assert "{{b" + "}}" == s;
    SingleCharEntry('b');
    SingleEntrySubstituted(DefaultOpen, DefaultClose, "{{b", "}}", ResolveChain, Entry(s, "b", 0), "B");
    ReplaceWhole(s, "B");
    MissingFirstChar("B", DefaultClose);
    MissingFirstChar("B", DefaultOpen);
    LiteralFinish(DefaultOpen, DefaultClose, "B");
  }

  /** In `{{a}}}}` the lazy entry is `{{a}}`; the `}}` after it starts no entry. */
  lemma EntryBeforeSurplusClose()
    ensures Entries("{{a}}}}", DefaultOpen, DefaultClose) == [Entry("{{a}}", "a", 0)]
  {
    var s := "{{a}}}}";
    assert s[0..2] == DefaultOpen && s[3..5] == DefaultClose && s[0..5] == "{{a}}" && s[2..3] == "a";
    assert LazyMatch(s, DefaultOpen, DefaultClose, 0, 1) == Some(Entry("{{a}}", "a", 0));
    assert MatchAt(s, DefaultOpen, DefaultClose, 0) == Some(Entry("{{a}}", "a", 0));
    assert s[5..7][0] == '}';
    assert EntriesFrom(s, DefaultOpen, DefaultClose, 7) == [];
    assert EntriesFrom(s, DefaultOpen, DefaultClose, 6) == [];
    assert EntriesFrom(s, DefaultOpen, DefaultClose, 5) == [];
  }

  /** In one chunk, `{{a}}}}` becomes `{{b}}`, whose close sequence fails the call. */
  lemma ChainInOneChunk()
    ensures Step(DefaultOpen, DefaultClose, "", "{{a}}}}", ResolveChain).outcome == Failed(InvalidFormat)
  {
    ChainInOneChunkSubstituted();
    EndsInClose('b');
    CloseSurvivesFails(DefaultOpen, DefaultClose, "", "{{a}}}}", ResolveChain, "{{b}}");
  }

  /** The pass over `{{a}}}}` replaces its one entry `{{a}}` by `{{b`. */
  lemma ChainInOneChunkSubstituted()
    ensures Substituted(DefaultOpen, DefaultClose, "", "{{a}}}}", ResolveChain) == "{{b}}"
  {
    var s := "{{a}}}}";
    assert "" + s == s;
    EntryBeforeSurplusClose();
    SingleEntrySubstituted(DefaultOpen, DefaultClose, "", s, ResolveChain, Entry("{{a}}", "a", 0), "{{b");
    SurplusCloseReplaced();
  }

  /** Replacing `{{a}}` in `{{a}}}}` by `{{b` gives `{{b}}`. */
  lemma SurplusCloseReplaced()
    ensures ReplaceFirst("{{a}}}}", "{{a}}", "{{b") == "{{b}}"
  {
    var s := "{{a}}}}";
    assert s[0..5] == "{{a}}";
    assert IndexOf(s, "{{a}}") == Some(0);
    ReplaceFirstLiteral(s, "{{a}}", "{{b", 0);
    assert s[..0] + "{{b" + s[5..] == "{{b}}";
  }

  /**
   * The code scans replacement text again once it is carried into the next
   * call, so the result depends on where the input is cut: `{{a}}` then `}}`
   * emits `B`, while the same `{{a}}}}` in one chunk is rejected.
   */
  lemma ReplacementRescannedAcrossChunks()
    ensures RunChunks(DefaultOpen, DefaultClose, "", ["{{a}}", "}}"], ResolveChain) == Run(["", "B"], "B", false)
    ensures Step(DefaultOpen, DefaultClose, "", "{{a}}}}", ResolveChain).outcome == Failed(InvalidFormat)
  {
    ChainFirstChunk();
    ChainSecondChunk();
    assert ["{{a}}", "}}"][1..] == ["}}"];
    assert ["}}"][1..] == [];
    ChainInOneChunk();
  }

  /** With `##` as both delimiters: `x` resolves to `A#`, and `#` to `B`. */
  function ResolveHash(expression: string): Option<string> {
    if expression == "x" then Some("A#") else if expression == "#" then Some("B") else None
  }

  /** `##x#######d` holds the entries `##x##` at 0 and `#####` (expression `#`) at 5. */
  lemma HashEntries()
    ensures Entries("##x#######d", "##", "##") == [Entry("##x##", "x", 0), Entry("#####", "#", 5)]
  {
    var s := "##x#######d";
    HashFirstMatch();
    HashSecondMatch();
    assert EntriesFrom(s, "##", "##", 11) == [];
    assert EntriesFrom(s, "##", "##", 10) == [];
    assert EntriesFrom(s, "##", "##", 5) == [Entry("#####", "#", 5)];
  }

  /** At 0, the lazy match is `##x##`. */
  lemma HashFirstMatch()
    ensures MatchAt("##x#######d", "##", "##", 0) == Some(Entry("##x##", "x", 0))
  {
    var s := "##x#######d";
    assert s[0..2] == "##" && s[3..5] == "##" && s[0..5] == "##x##" && s[2..3] == "x";
    assert LazyMatch(s, "##", "##", 0, 1) == Some(Entry("##x##", "x", 0));
  }

  /** At 5, the lazy match is `#####`, with the expression `#`. */
  lemma HashSecondMatch()
    ensures MatchAt("##x#######d", "##", "##", 5) == Some(Entry("#####", "#", 5))
  {
    var s := "##x#######d";
    assert s[5..7] == "##" && s[8..10] == "##" && s[5..10] == "#####" && s[7..8] == "#";
    assert LazyMatch(s, "##", "##", 5, 1) == Some(Entry("#####", "#", 5));
  }

  /** The first replace puts `A#` where `##x##` was. */
  lemma HashFirstReplace()
    ensures ReplaceFirst("##x#######d", "##x##", "A#") == "A######d"
  {
    var s := "##x#######d";
    assert s[0..5] == "##x##";
    assert IndexOf(s, "##x##") == Some(0);
    ReplaceFirstLiteral(s, "##x##", "A#", 0);
    assert s[..0] + "A#" + s[5..] == "A######d";
  }

  /** The second replace finds `#####` at 1, starting inside the first replacement. */
  lemma HashSecondReplace()
    ensures ReplaceFirst("A######d", "#####", "B") == "AB#d"
  {
    var t := "A######d";
    assert t[0..5][0] == 'A';
    assert t[1..6] == "#####";
    assert IndexOf(t, "#####") == Some(1);
    ReplaceFirstLiteral(t, "#####", "B", 1);
    assert t[..1] + "B" + t[6..] == "AB#d";
  }

  /** The code's loop over `##x#######d` gives `AB#d`. */
  lemma HashSubstituted()
    ensures Substituted("##", "##", "", "##x#######d", ResolveHash) == "AB#d"
  {
    var s := "##x#######d";
    var es := [Entry("##x##", "x", 0), Entry("#####", "#", 5)];
    assert "" + s == s;
    HashEntries();
    HashFirstReplace();
    HashSecondReplace();
    assert es[1..] == [es[1]] && [es[1]][1..] == [];
    assert Substitute("AB#d", [], ResolveHash) == Pass("AB#d", [], true);
    assert Substitute("A######d", [es[1]], ResolveHash).buffer == "AB#d";
  }

  /** `AB#d` holds no `##`. */
  lemma NoDoubleHash()
    ensures !Contains("AB#d", "##")
  {
    var b := "AB#d";
    forall i: nat ensures !OccursAt(b, i, "##") {
      if i + 2 <= |b| {
        assert b[i..i + 2][0] == b[i] && b[i..i + 2][1] == b[i + 1];
      }
    }
    ContainsIff(b, "##");
  }

  /**
   * As written, a replacement can land in the wrong place: in `##x#######d`,
   * `##x##` becomes `A#`, and the first occurrence of the second entry's text
   * `#####` then starts at that `#`. The call succeeds and emits `AB#d`, where
   * replacing each entry in place gives `A#Bd`.
   */
  lemma MisplacedReplacement()
    ensures Step("##", "##", "", "##x#######d", ResolveHash) == StepResult(Emitted("AB#d"), "AB#d")
    ensures Spans("##x#######d", 0, Entries("##x#######d", "##", "##"))
    ensures SubstituteInPlace("##x#######d", Entries("##x#######d", "##", "##"), ResolveHash) == "A#Bd"
  {
    HashStep();
    HashEntries();
    HashInPlace();
  }

  /** The call over `##x#######d` emits and keeps `AB#d`: no `##` is left. */
  lemma HashStep()
    ensures Step("##", "##", "", "##x#######d", ResolveHash) == StepResult(Emitted("AB#d"), "AB#d")
  {
    HashSubstituted();
    NoDoubleHash();
    LiteralFinish("##", "##", "AB#d");
  }

  /** The corrected loop replaces `##x##` by `A#` and `#####` by `B`, each where it was. */
  lemma HashInPlace()
    ensures Spans("##x#######d", 0, [Entry("##x##", "x", 0), Entry("#####", "#", 5)])
    ensures SubstituteInPlace("##x#######d", [Entry("##x##", "x", 0), Entry("#####", "#", 5)], ResolveHash) == "A#Bd"
  {
    var s := "##x#######d";
    var es := [Entry("##x##", "x", 0), Entry("#####", "#", 5)];
    assert es[1..] == [es[1]] && [es[1]][1..] == [];
    assert Spans(s, 10, []);
    assert Spans(s, 5, [es[1]]);
    var rs := Replacements(es, ResolveHash);
    assert Replacements([es[1]], ResolveHash) == ["B"];
    assert rs == ["A#", "B"];
    assert es[..2] == es && rs[1..] == ["B"];
    assert SpanReplace(s, 10, [], []) == "d";
    assert SpanReplace(s, 5, [es[1]], ["B"]) == "Bd";
    assert SpanReplace(s, 0, es, rs) == "" + "A#" + "Bd";
  }
}
