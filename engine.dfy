/**
 * `TemplateEngine`: the stream transform that owns the carry-over buffer.
 * Each call of `Process` is one `_transform`: append the chunk, resolve and
 * substitute the entries, reject a surviving close sequence, then emit what
 * is safe and keep the rest.
 */
module Engine {
  import opened Wrappers
  import opened Strings
  import opened RegExpEscape
  import opened Scanner
  import opened Template

  /** The constructor's configuration: each delimiter is either given or absent. */
  datatype Config = Config(openSequence: Option<string>, closeSequence: Option<string>)

  class TemplateEngine {
    /** The delimiters, fixed at construction. */
    const openSequence: string
    const closeSequence: string

    /** The escaped regular-expression sources the delimiters are matched with. */
    const openPattern: string
    const closePattern: string

    /** The carry-over buffer. */
    var buffer: string

    /**
     * Delimiters default to `{{` and `}}`, and a delimiter given in the
     * configuration replaces its default; the patterns built from them match
     * exactly the delimiters; the buffer starts empty.
     */
    constructor (config: Config)
      ensures openSequence == (if config.openSequence.Some? then config.openSequence.value else DefaultOpen)
      ensures closeSequence == (if config.closeSequence.Some? then config.closeSequence.value else DefaultClose)
      ensures config == Config(None, None) ==> openSequence == "{{" && closeSequence == "}}"
      ensures Literal(openPattern) == Some(openSequence) && Literal(closePattern) == Some(closeSequence)
      ensures buffer == ""
    {
      openSequence := config.openSequence.GetOr(DefaultOpen);
      closeSequence := config.closeSequence.GetOr(DefaultClose);
      openPattern := Escape(config.openSequence.GetOr(DefaultOpen));
      closePattern := Escape(config.closeSequence.GetOr(DefaultClose));
      buffer := "";
      new;
      LiteralOfEscape(openSequence);
      LiteralOfEscape(closeSequence);
    }

    /**
     * One call of `_transform` with `resolve` as the compiler function. The
     * result is the format error exactly when a close sequence survives
     * substitution; otherwise what is emitted and what is kept are the
     * substituted buffer cut at its first open sequence, or, without one, the
     * whole substituted buffer is emitted and also kept.
     */
    method Process(chunk: string, resolve: Resolver) returns (r: Outcome)
      modifies this
      ensures StepResult(r, buffer) == Step(openSequence, closeSequence, old(buffer), chunk, resolve)
      ensures var b := Substituted(openSequence, closeSequence, old(buffer), chunk, resolve);
        (r.Failed? <==> Contains(b, closeSequence)) &&
        (r.Failed? ==> r.message == InvalidFormat && buffer == b) &&
        (r.Emitted? && Contains(b, openSequence) ==>
          r.text == b[..IndexOf(b, openSequence).value] &&
          r.text + buffer == b &&
          OccursAt(buffer, 0, openSequence) &&
          !Contains(buffer, closeSequence)) &&
        (r.Emitted? && !Contains(b, openSequence) ==> r.text == b && buffer == b)
    {
      buffer := buffer + chunk;
      ghost var working := buffer;
      var entries := Entries(buffer, openSequence, closeSequence);
      var i := 0;
      while i < |entries|
        invariant i <= |entries|
        invariant Substitute(buffer, entries[i..], resolve).buffer == Substitute(working, entries, resolve).buffer
      {
        var replacement := resolve(entries[i].expression);
        if replacement.None? {
          assert entries[i..][0] == entries[i];
          break;
        }
        assert entries[i..][1..] == entries[i + 1..];
        buffer := ReplaceFirst(buffer, entries[i].text, replacement.value);
        i := i + 1;
      }
      FinishOutcome(openSequence, closeSequence, buffer);
      if Contains(buffer, closeSequence) {
        r := Failed(InvalidFormat);
        return;
      }
      var index := IndexOf(buffer, openSequence);
      if index.None? {
        r := Emitted(buffer);
        return;
      }
      var processed := buffer[..index.value];
      buffer := buffer[index.value..];
      r := Emitted(processed);
    }
  }
}
