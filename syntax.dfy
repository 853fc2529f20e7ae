/**
 * The part of the C# syntax tree that the region analyzer and its code fix
 * look at: tokens with their leading trivia, nodes with their children, and
 * the two tree operations they rely on (the first descendant token, and a
 * copy of a subtree whose first token carries new leading trivia).
 *
 * Trees are values: an edit returns a new element and leaves the old one as
 * it was, as Roslyn's immutable syntax trees do.
 */
module Syntax {

  datatype Option<+T> = None | Some(value: T)

  /** The trivia kinds the analyzer and the fix distinguish. A `#region`
      directive keeps the preprocessing message that follows the keyword
      (its name) when there is one; `Other` stands for every remaining kind
      (other directives, disabled text, skipped tokens, ...). */
  datatype Trivia =
    | Whitespace
    | EndOfLine
    | SingleLineComment
    | SingleLineDocComment
    | MultiLineComment
    | MultiLineDocComment
    | Region(message: Option<string>)
    | EndRegion
    | Other

  /** `#region` or `#endregion`: the trivia both directive scans react to. */
  predicate IsRegionDirective(t: Trivia) {
    t.Region? || t.EndRegion?
  }

  /** The text Roslyn writes for a region directive built with a
      `\r\n` end of line. */
  function DirectiveText(t: Trivia): (s: string)
    requires IsRegionDirective(t)
    ensures |s| >= 9 && s[0] == '#' && s[|s| - 2..] == "\r\n"
  {
    match t
    case Region(None) => "#region\r\n"
    case Region(Some(m)) => "#region " + m + "\r\n"
    case EndRegion => "#endregion\r\n"
  }

  /** Different directives are written as different texts. */
  lemma DirectiveTextInjective(t1: Trivia, t2: Trivia)
    requires IsRegionDirective(t1) && IsRegionDirective(t2)
    ensures DirectiveText(t1) == DirectiveText(t2) <==> t1 == t2
  {
    var s1, s2 := DirectiveText(t1), DirectiveText(t2);
    if s1 == s2 {
      if t1.EndRegion? || t2.EndRegion? {
        // "#endregion" differs from "#region" in its second character
        assert s1[1] == s2[1];
      } else if t1.message.Some? && t2.message.Some? {
        var m1, m2 := t1.message.value, t2.message.value;
        assert |m1| == |m2|;
        assert m1 == s1[8..|s1| - 2];
        assert m2 == s2[8..|s2| - 2];
      }
    }
  }

  /** A token (its leading trivia, its text, its trailing trivia) or a node
      (its children, in document order). */
  datatype Element =
    | Token(leading: seq<Trivia>, text: string, trailing: seq<Trivia>)
    | Node(children: seq<Element>)

  /** Every token of `e` in document order: Roslyn's `DescendantTokens()`,
      with a token counting as its own only descendant. */
  function Tokens(e: Element): (ts: seq<Element>)
    ensures forall k :: 0 <= k < |ts| ==> ts[k].Token?
  {
    match e
    case Token(_, _, _) => [e]
    case Node(children) => TokensOf(children)
  }

  function TokensOf(es: seq<Element>): (ts: seq<Element>)
    ensures forall k :: 0 <= k < |ts| ==> ts[k].Token?
  {
    if es == [] then [] else Tokens(es[0]) + TokensOf(es[1..])
  }

  /** The leading trivia of the first token of `e`. */
  function FirstLeading(e: Element): seq<Trivia>
    requires Tokens(e) != []
  {
    Tokens(e)[0].leading
  }

  /** `e` with the leading trivia of its first token replaced by `leading`:
      the token sequence stays the same except for that one list, and the
      shape of the tree does not change. */
  function WithFirstLeading(e: Element, leading: seq<Trivia>): (r: Element)
    requires Tokens(e) != []
    ensures Tokens(r) == Tokens(e)[0 := Tokens(e)[0].(leading := leading)]
    ensures r.Token? <==> e.Token?
  {
    match e
    case Token(_, text, trailing) => Token(leading, text, trailing)
    case Node(children) => Node(WithFirstLeadingOf(children, leading))
  }

  function WithFirstLeadingOf(es: seq<Element>, leading: seq<Trivia>): (r: seq<Element>)
    requires TokensOf(es) != []
    ensures |r| == |es|
    ensures TokensOf(r) == TokensOf(es)[0 := TokensOf(es)[0].(leading := leading)]
  {
    if Tokens(es[0]) != [] then
      var r := [WithFirstLeading(es[0], leading)] + es[1..];
      assert r[1..] == es[1..];
      r
    else
      var r := [es[0]] + WithFirstLeadingOf(es[1..], leading);
      assert r[1..] == WithFirstLeadingOf(es[1..], leading);
      r
  }

  /** Writing back the leading trivia the first token already has gives the
      same element. */
  lemma {:induction false} WithOwnFirstLeading(e: Element)
    requires Tokens(e) != []
    ensures WithFirstLeading(e, FirstLeading(e)) == e
  {
    match e
    case Token(_, _, _) =>
    case Node(children) => WithOwnFirstLeadingOf(children);
  }

  lemma {:induction false} WithOwnFirstLeadingOf(es: seq<Element>)
    requires TokensOf(es) != []
    ensures WithFirstLeadingOf(es, TokensOf(es)[0].leading) == es
  {
    if Tokens(es[0]) != [] {
      WithOwnFirstLeading(es[0]);
    } else {
      WithOwnFirstLeadingOf(es[1..]);
    }
  }

  /** A second edit of the first token's leading trivia overrides the first
      one; with the previous edit this says an edit can be undone, so it
      changes nothing else in the tree. */
  lemma {:induction false} WithFirstLeadingTwice(e: Element, a: seq<Trivia>, b: seq<Trivia>)
    requires Tokens(e) != []
    ensures WithFirstLeading(WithFirstLeading(e, a), b) == WithFirstLeading(e, b)
  {
    match e
    case Token(_, _, _) =>
    case Node(children) => WithFirstLeadingOfTwice(children, a, b);
  }

  lemma {:induction false} WithFirstLeadingOfTwice(es: seq<Element>, a: seq<Trivia>, b: seq<Trivia>)
    requires TokensOf(es) != []
    ensures WithFirstLeadingOf(WithFirstLeadingOf(es, a), b) == WithFirstLeadingOf(es, b)
  {
    var ea := WithFirstLeadingOf(es, a);
    if Tokens(es[0]) != [] {
      WithFirstLeadingTwice(es[0], a, b);
      assert ea[0] == WithFirstLeading(es[0], a);
    } else {
      assert ea[0] == es[0] && ea[1..] == WithFirstLeadingOf(es[1..], a);
      WithFirstLeadingOfTwice(es[1..], a, b);
    }
  }

  /** Undoing an edit: restoring the original leading trivia gives back
      the original element. */
  lemma WithFirstLeadingRestores(e: Element, leading: seq<Trivia>)
    requires Tokens(e) != []
    ensures WithFirstLeading(WithFirstLeading(e, leading), FirstLeading(e)) == e
  {
    WithFirstLeadingTwice(e, leading, FirstLeading(e));
    WithOwnFirstLeading(e);
  }
}
