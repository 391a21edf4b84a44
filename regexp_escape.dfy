/**
 * `_regExpEscape`: turns a delimiter into a regular-expression source that
 * matches that delimiter literally, by putting a backslash before every
 * character the pattern syntax treats specially.
 */
module RegExpEscape {
  import opened Wrappers

  /** The characters of the class `[.*+?^${}()|[\]\\]`. */
  predicate IsSpecial(c: char) {
    c in {'.', '*', '+', '?', '^', '$', '{', '}', '(', ')', '|', '[', ']', '\\'}
  }

  /** Every special character gets a backslash in front of it; the rest is copied. */
  function Escape(s: string): string {
    if s == [] then []
    else (if IsSpecial(s[0]) then ['\\', s[0]] else [s[0]]) + Escape(s[1..])
  }

  /** How many special characters `s` holds. */
  function CountSpecial(s: string): nat {
    if s == [] then 0 else (if IsSpecial(s[0]) then 1 else 0) + CountSpecial(s[1..])
  }

  /**
   * Reads a pattern made only of literal atoms back into the string it matches:
   * a backslash followed by a special character stands for that character, any
   * other non-special character for itself. A bare special character (an
   * operator) or any other escape is not a literal atom, and gives `None`.
   */
  function Literal(p: string): Option<string>
    decreases |p|
  {
    if p == [] then Some([])
    else if p[0] == '\\' then
      if |p| >= 2 && IsSpecial(p[1]) then
        match Literal(p[2..])
        case Some(rest) => Some([p[1]] + rest)
        case None => None
      else None
    else if IsSpecial(p[0]) then None
    else
      match Literal(p[1..])
      case Some(rest) => Some([p[0]] + rest)
      case None => None
  }

  /** The escaped string is one character longer per special character. */
  lemma {:induction false} EscapeLength(s: string)
    ensures |Escape(s)| == |s| + CountSpecial(s)
  {
    if s != [] {
      EscapeLength(s[1..]);
    }
  }

  /**
   * Removing the inserted backslashes gives the input back: the escaped
   * pattern is a literal pattern, and the text it matches is exactly `s`.
   */
  lemma {:induction false} LiteralOfEscape(s: string)
    ensures Literal(Escape(s)) == Some(s)
  {
    if s != [] {
      LiteralOfEscape(s[1..]);
      var head: string := if IsSpecial(s[0]) then ['\\', s[0]] else [s[0]];
      assert Escape(s) == head + Escape(s[1..]);
      assert (head + Escape(s[1..]))[|head|..] == Escape(s[1..]);
      assert [s[0]] + s[1..] == s;
    }
  }

  /**
   * Conversely, a literal pattern for `s` is the escape of `s`: the escape is
   * the only way to write `s` as literal atoms, so no two delimiters share a pattern.
   */
  lemma {:induction false} EscapeOfLiteral(p: string, s: string)
    requires Literal(p) == Some(s)
    ensures Escape(s) == p
  {
    if p != [] {
      if p[0] == '\\' {
        var rest := Literal(p[2..]).value;
        EscapeOfLiteral(p[2..], rest);
        assert s == [p[1]] + rest;
        assert s[1..] == rest;
        assert p == [p[0], p[1]] + p[2..];
      } else {
        var rest := Literal(p[1..]).value;
        EscapeOfLiteral(p[1..], rest);
        assert s == [p[0]] + rest;
        assert s[1..] == rest;
        assert p == [p[0]] + p[1..];
      }
    }
  }

  /** Two delimiters with the same escaped pattern are the same delimiter. */
  lemma EscapeInjective(s: string, t: string)
    requires Escape(s) == Escape(t)
    ensures s == t
  {
    LiteralOfEscape(s);
    LiteralOfEscape(t);
  }
}
