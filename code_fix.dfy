/**
 * The RegionTogether code fix (`MakeRegion`): it wraps a declaration in
 * `#region <name>` / `#endregion`, or renames the opening directive of a
 * pair that is already there, so that the analyzer no longer reports it.
 *
 * Every edit returns a new child list for the declaration's parent; the
 * old one is left as it was.
 */
module CodeFix {
  import opened Syntax
  import opened Analyzer

  // ---------------------------------------------------------------------
  // The directives the fix builds

  /** `#region <name>\r\n` for the declaration's canonical name. */
  function NewRegionDirective(a: Accessibility, identifier: string): (t: Trivia)
    ensures t.Region? && RegionName(t) == CreateRegionName(a, identifier)
    ensures DirectiveText(t) == "#region " + CreateRegionName(a, identifier) + "\r\n"
  {
    Region(Some(CreateRegionName(a, identifier)))
  }

  /** `#endregion\r\n`: an end-of-region directive whose end-of-directive
      token is followed by a `\r\n` line break. */
  function NewEndRegionDirective(): (t: Trivia)
    ensures t.EndRegion? && DirectiveText(t) == "#endregion\r\n"
  {
    EndRegion
  }

  /** A `#region` whose name is the canonical one is exactly the directive
      the fix would build, so renaming it changes nothing. */
  lemma CanonicalRegionIsNewRegion(t: Trivia, a: Accessibility, identifier: string)
    requires t.Region? && RegionName(t) == CreateRegionName(a, identifier)
    ensures t == NewRegionDirective(a, identifier)
  {
  }

  // ---------------------------------------------------------------------
  // The comment run before the declaration

  /** The comment kinds the reverse scan collects: line, documentation-line,
      block and documentation-block comments. */
  function IsLeadingComment(t: Trivia): (b: bool)
    // a comment never opens or closes a region
    ensures b ==> !IsRegionDirective(t)
  {
    t.SingleLineComment? || t.SingleLineDocComment? || t.MultiLineComment? || t.MultiLineDocComment?
  }

  /** The condition as the source writes it: the documentation-line test
      appears twice and no documentation-block test appears. */
  function IsLeadingCommentAsWritten(t: Trivia): (b: bool)
    // the same kinds as `IsLeadingComment`, less the documentation-block comment
    ensures b <==> IsLeadingComment(t) && !t.MultiLineDocComment?
  {
    t.SingleLineComment? || t.SingleLineDocComment? || t.MultiLineComment? || t.SingleLineDocComment?
  }

  /** A comment test the fix can use: whatever it accepts is neither a
      `#region` nor an `#endregion`, so the comments after the new `#region`
      never close it. The corrected test and the test as written both
      qualify (`CommentTestsQualify`). */
  ghost predicate IsCommentTest(isComment: Trivia -> bool) {
    forall t :: isComment(t) ==> !IsRegionDirective(t)
  }

  lemma CommentTestsQualify()
    ensures IsCommentTest(IsLeadingComment) && IsCommentTest(IsLeadingCommentAsWritten)
  {
  }

  /** `ts[k..n]` is a maximal run of comments ending at `n`. */
  ghost predicate RunStartsAt(ts: seq<Trivia>, n: nat, k: nat, isComment: Trivia -> bool) {
    k < n <= |ts| &&
    (forall j :: k <= j < n ==> isComment(ts[j])) &&
    (k == 0 || !isComment(ts[k - 1]))
  }

  /** Where the run of comments at the end of `ts[..n]` starts, if there is
      one: the last element the reverse scan visits before it stops. */
  function CommentRunStart(ts: seq<Trivia>, n: nat, isComment: Trivia -> bool): (r: Option<nat>)
    requires n <= |ts|
    ensures r.None? <==> n == 0 || !isComment(ts[n - 1])
    ensures r.Some? ==> RunStartsAt(ts, n, r.value, isComment)
  {
    if n == 0 || !isComment(ts[n - 1]) then None
    else match CommentRunStart(ts, n - 1, isComment)
      case None => Some(n - 1)
      case Some(k) => Some(k)
  }

  lemma RunStartUnique(ts: seq<Trivia>, n: nat, k1: nat, k2: nat, isComment: Trivia -> bool)
    requires RunStartsAt(ts, n, k1, isComment) && RunStartsAt(ts, n, k2, isComment)
    ensures k1 == k2
  {
  }

  /** The reverse `foreach` with `break` over the declaration's leading
      trivia: the last comment it visits is the first of the run. The
      comment test is a parameter, so the loop is the same for the
      source's condition and for the corrected one. */
  method FindCommentRun(leading: seq<Trivia>, isComment: Trivia -> bool) returns (commentTrivia: Option<nat>)
    ensures commentTrivia == CommentRunStart(leading, |leading|, isComment)
  {
    commentTrivia := None;
    var k := |leading|;
    while k > 0
      invariant 0 <= k <= |leading|
      invariant forall j :: k <= j < |leading| ==> isComment(leading[j])
      invariant commentTrivia == if k == |leading| then None else Some(k)
    {
      if isComment(leading[k - 1]) {
        commentTrivia := Some(k - 1);
        k := k - 1;
      } else {
        break;
      }
    }
    var spec := CommentRunStart(leading, |leading|, isComment);
    if commentTrivia.Some? {
      RunStartUnique(leading, |leading|, commentTrivia.value, spec.value, isComment);
    }
  }

  /** Where the new `#region` goes in the declaration's leading trivia:
      before the run of comments at its end, or after its last element when
      it does not end in a comment. Everything after that point is a
      comment, and the element before it is not. */
  function OpeningPosition(ts: seq<Trivia>, isComment: Trivia -> bool): (p: nat)
    ensures p <= |ts|
    ensures forall j :: p <= j < |ts| ==> isComment(ts[j])
    ensures p == 0 || !isComment(ts[p - 1])
  {
    match CommentRunStart(ts, |ts|, isComment)
    case Some(k) => k
    case None => |ts|
  }

  /** The declaration's leading trivia after the insertion: the new
      `#region` sits directly before the trailing comments (or the
      declaration), and taking it out again gives back `ts`. */
  function InsertOpening(ts: seq<Trivia>, region: Trivia, isComment: Trivia -> bool): (r: seq<Trivia>)
    ensures |r| == |ts| + 1
    ensures var p := OpeningPosition(ts, isComment);
      && r[p] == region
      && r[..p] + r[p + 1..] == ts
      && (forall j :: p < j < |r| ==> isComment(r[j]))
      && (p == 0 || !isComment(r[p - 1]))
  {
    var p := OpeningPosition(ts, isComment);
    var r := ts[..p] + [region] + ts[p..];
    assert r[..p] == ts[..p] && r[p + 1..] == ts[p..];
    r
  }

  /** Without leading trivia, the new `#region` is the only one. */
  lemma InsertOpeningIntoEmpty(region: Trivia, isComment: Trivia -> bool)
    ensures InsertOpening([], region, isComment) == [region]
  {
  }

  /** Leading trivia that does not end in a comment gets the new `#region`
      appended after its last element. */
  lemma InsertOpeningAppends(ts: seq<Trivia>, region: Trivia, isComment: Trivia -> bool)
    requires ts != [] && !isComment(ts[|ts| - 1])
    ensures InsertOpening(ts, region, isComment) == ts + [region]
  {
  }

  /** The source's condition leaves a documentation-block comment outside
      the region: the `#region` lands between the comment and the member
      it documents, where the evidently intended condition keeps it inside. */
  lemma DocBlockCommentOutsideAsWritten(ts: seq<Trivia>, region: Trivia)
    requires ts != [] && ts[|ts| - 1].MultiLineDocComment?
    ensures OpeningPosition(ts, IsLeadingCommentAsWritten) == |ts|
    ensures InsertOpening(ts, region, IsLeadingCommentAsWritten) == ts + [region]
    ensures OpeningPosition(ts, IsLeadingComment) < |ts|
  {
    InsertOpeningAppends(ts, region, IsLeadingCommentAsWritten);
  }

  /** A `#region` followed only by comments is the one the analyzer's
      forward scan leaves open. */
  lemma OpensBeforeComments(ts: seq<Trivia>, p: nat, isComment: Trivia -> bool)
    requires IsCommentTest(isComment)
    requires p < |ts| && ts[p].Region?
    requires forall j :: p < j < |ts| ==> isComment(ts[j])
    ensures ActiveRegion(ts, |ts|) == Some(p)
  {
    assert OpensAt(ts, |ts|, p);
    var r := ActiveRegion(ts, |ts|);
    OpensAtUnique(ts, |ts|, p, r.value);
  }

  // ---------------------------------------------------------------------
  // The two edits

  /** The rename edit (`ReplaceTrivia`): the `#region` at `k` in the
      declaration's leading trivia becomes `region`; nothing else in the
      parent's child list changes. */
  function Renamed(parent: seq<Element>, i: nat, k: nat, region: Trivia): (r: seq<Element>)
    requires i < |parent| && Tokens(parent[i]) != [] && k < |FirstLeading(parent[i])|
    ensures |r| == |parent| && Tokens(r[i]) != []
    ensures FirstLeading(r[i]) == FirstLeading(parent[i])[k := region]
    // every other token of the declaration stays the same
    ensures Tokens(r[i]) == Tokens(parent[i])[0 := Tokens(parent[i])[0].(leading := FirstLeading(parent[i])[k := region])]
    ensures r[i].Token? <==> parent[i].Token?
    // and so does its shape: writing the old leading trivia back restores it
    ensures WithFirstLeading(r[i], FirstLeading(parent[i])) == parent[i]
    ensures forall j :: 0 <= j < |parent| && j != i ==> r[j] == parent[j]
  {
    WithFirstLeadingRestores(parent[i], FirstLeading(parent[i])[k := region]);
    parent[i := WithFirstLeading(parent[i], FirstLeading(parent[i])[k := region])]
  }

  /** The insertion edit: `region` goes into the declaration's leading
      trivia at `OpeningPosition` for the comment test `isComment`, and
      `#endregion` becomes the first leading trivia of the next sibling's
      first token; nothing else in the parent's child list changes. */
  function Inserted(parent: seq<Element>, i: nat, region: Trivia, isComment: Trivia -> bool): (r: seq<Element>)
    requires i + 1 < |parent| && Tokens(parent[i]) != [] && Tokens(parent[i + 1]) != []
    ensures |r| == |parent| && Tokens(r[i]) != [] && Tokens(r[i + 1]) != []
    ensures FirstLeading(r[i]) == InsertOpening(FirstLeading(parent[i]), region, isComment)
    ensures FirstLeading(r[i + 1]) == [NewEndRegionDirective()] + FirstLeading(parent[i + 1])
    // every other token of the two siblings stays the same
    ensures Tokens(r[i]) == Tokens(parent[i])[0 := Tokens(parent[i])[0].(leading := InsertOpening(FirstLeading(parent[i]), region, isComment))]
    ensures r[i].Token? <==> parent[i].Token?
    ensures Tokens(r[i + 1]) == Tokens(parent[i + 1])[0 := Tokens(parent[i + 1])[0].(leading := [NewEndRegionDirective()] + FirstLeading(parent[i + 1]))]
    ensures r[i + 1].Token? <==> parent[i + 1].Token?
    // and so do their shapes: writing the old leading trivia back restores them
    ensures WithFirstLeading(r[i], FirstLeading(parent[i])) == parent[i]
    ensures WithFirstLeading(r[i + 1], FirstLeading(parent[i + 1])) == parent[i + 1]
    ensures forall j :: 0 <= j < |parent| && j != i && j != i + 1 ==> r[j] == parent[j]
  {
    WithFirstLeadingRestores(parent[i], InsertOpening(FirstLeading(parent[i]), region, isComment));
    WithFirstLeadingRestores(parent[i + 1], [NewEndRegionDirective()] + FirstLeading(parent[i + 1]));
    parent[i := WithFirstLeading(parent[i], InsertOpening(FirstLeading(parent[i]), region, isComment))]
          [i + 1 := WithFirstLeading(parent[i + 1], [NewEndRegionDirective()] + FirstLeading(parent[i + 1]))]
  }

  /** After a rename the pair is still there and carries the canonical
      name; when it already did, the rename changes nothing. */
  lemma RenameIsAccepted(parent: seq<Element>, i: nat, a: Accessibility, identifier: string)
    requires i < |parent| && Tokens(parent[i]) != []
    requires Locate(parent, i).Ok? && Locate(parent, i).value.Found?
    ensures var fixed := Renamed(parent, i, Locate(parent, i).value.region, NewRegionDirective(a, identifier));
      && Reports(fixed, i, a, identifier) == Ok(false)
      && (Locate(parent, i).value.name == CreateRegionName(a, identifier) ==> fixed == parent)
  {
    var leading := FirstLeading(parent[i]);
    var k := Locate(parent, i).value.region;
    var region := NewRegionDirective(a, identifier);
    var fixed := Renamed(parent, i, k, region);
    var newLeading := leading[k := region];
    assert OpensAt(newLeading, |newLeading|, k);
    assert NextToken(fixed, i) == NextToken(parent, i);
    var m :| ClosesAt(NextToken(parent, i).value, 0, m);
    LocateFindsPair(fixed, i, k, m);
    if Locate(parent, i).value.name == CreateRegionName(a, identifier) {
      CanonicalRegionIsNewRegion(leading[k], a, identifier);
      assert newLeading == leading;
      WithOwnFirstLeading(parent[i]);
      assert fixed == parent;
    }
  }

  /** After an insertion the new pair is found and carries the canonical
      name, whichever qualifying comment test placed the `#region`. */
  lemma InsertIsAccepted(parent: seq<Element>, i: nat, a: Accessibility, identifier: string, isComment: Trivia -> bool)
    requires IsCommentTest(isComment)
    requires i + 1 < |parent| && Tokens(parent[i]) != [] && Tokens(parent[i + 1]) != []
    ensures Reports(Inserted(parent, i, NewRegionDirective(a, identifier), isComment), i, a, identifier) == Ok(false)
  {
    var leading := FirstLeading(parent[i]);
    var region := NewRegionDirective(a, identifier);
    var fixed := Inserted(parent, i, region, isComment);
    var p := OpeningPosition(leading, isComment);
    OpensBeforeComments(FirstLeading(fixed[i]), p, isComment);
    assert ClosesAt(FirstLeading(fixed[i + 1]), 0, 0);
    LocateFindsPair(fixed, i, p, 0);
  }

  /** The insertion branch's three cases: before the trailing comment run,
      after the last leading trivia, or as the only leading trivia. */
  method InsertRegionDirective(leading: seq<Trivia>, region: Trivia, isComment: Trivia -> bool)
    returns (newLeading: seq<Trivia>)
    ensures newLeading == InsertOpening(leading, region, isComment)
  {
    if |leading| > 0 {
      var commentTrivia := FindCommentRun(leading, isComment);
      if commentTrivia.Some? {
        newLeading := leading[..commentTrivia.value] + [region] + leading[commentTrivia.value..];
      } else {
        newLeading := leading + [region];
      }
    } else {
      newLeading := [region];
    }
  }

  // ---------------------------------------------------------------------
  // MakeRegion

  /** The fix for `parent[i]`, whose symbol has accessibility `a` and name
      `identifier`. It fails where the locator or the next-token lookup
      fails; otherwise it renames the opening directive of an existing pair,
      or inserts a new pair, and in both cases the analyzer then accepts
      the declaration. `isComment` is the comment test that places a new
      `#region`: `IsLeadingCommentAsWritten` gives the fix as the source
      writes it, `IsLeadingComment` the corrected one. */
  method MakeRegion(parent: seq<Element>, i: nat, a: Accessibility, identifier: string, isComment: Trivia -> bool)
    returns (r: Result<seq<Element>>)
    requires IsCommentTest(isComment)
    requires i < |parent| && Tokens(parent[i]) != []
    ensures r.Err? <==> NextToken(parent, i).Err?
    ensures r.Err? ==> r.failure == NextToken(parent, i).failure
    ensures r.Ok? && Locate(parent, i).Ok? && Locate(parent, i).value.Found? ==>
              r.value == Renamed(parent, i, Locate(parent, i).value.region, NewRegionDirective(a, identifier))
    ensures r.Ok? && Locate(parent, i) == Ok(NotFound) ==>
              r.value == Inserted(parent, i, NewRegionDirective(a, identifier), isComment)
    // a declaration that is already wrapped correctly is left as it is
    ensures (exists k :: Locate(parent, i) == Ok(Found(k, CreateRegionName(a, identifier)))) ==> r == Ok(parent)
    // after the fix the analyzer reports nothing
    ensures r.Ok? ==> |r.value| == |parent| && Tokens(r.value[i]) != []
    ensures r.Ok? ==> Reports(r.value, i, a, identifier) == Ok(false)
  {
    var newRegionDirective := NewRegionDirective(a, identifier);
    var regionDirective := GetLeadingRegionAndName(parent, i);
    if regionDirective.Err? {
      return Err(regionDirective.failure);
    }
    var leading := FirstLeading(parent[i]);
    var newRoot: seq<Element>;
    if regionDirective.value.Found? {
      newRoot := parent[i := WithFirstLeading(parent[i], leading[regionDirective.value.region := newRegionDirective])];
      RenameIsAccepted(parent, i, a, identifier);
    } else {
      var newLeading := InsertRegionDirective(leading, newRegionDirective, isComment);
      newRoot := parent[i := WithFirstLeading(parent[i], newLeading)];

      var nextToken := NextToken(newRoot, i);
      if nextToken.Err? {
        return Err(nextToken.failure);
      }
      var next := nextToken.value;
      var nextLeading;
      if |next| > 0 {
        nextLeading := [NewEndRegionDirective()] + next;
      } else {
        nextLeading := [NewEndRegionDirective()];
      }
      assert newRoot[i + 1] == parent[i + 1];
      assert nextLeading == [NewEndRegionDirective()] + FirstLeading(parent[i + 1]);
      newRoot := newRoot[i + 1 := WithFirstLeading(newRoot[i + 1], nextLeading)];
      assert newRoot == Inserted(parent, i, newRegionDirective, isComment);
      InsertIsAccepted(parent, i, a, identifier, isComment);
    }
    return Ok(newRoot);
  }
}
