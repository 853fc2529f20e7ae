/**
 * The RegionTogether analyzer: a method or property must sit between a
 * `#region <name>` in the leading trivia of its first token and an
 * `#endregion` in the leading trivia of the token that follows it, and
 * `<name>` must be the declaration's accessibility prefix followed by its
 * identifier.
 *
 * A declaration is addressed by its parent's child list `parent` (nodes and
 * tokens, in document order) and its index `i` in that list.
 */
module Analyzer {
  import opened Syntax

  /** Roslyn's `Accessibility` values. */
  datatype Accessibility =
    | NotApplicable
    | Private
    | ProtectedAndInternal
    | Protected
    | Internal
    | ProtectedOrInternal
    | Public

  /** `.First()` on an empty sequence throws; these are the two places the
      locator can reach one. */
  datatype Failure =
    | NoNextSibling          // the declaration is the last child of its parent
    | NoTokenInNextSibling   // the next sibling is a node without any token

  datatype Result<+T> = Ok(value: T) | Err(failure: Failure)

  /** What the locator finds: the index of the opening `#region` in the
      declaration's leading trivia with the name it carries, or nothing
      (the C# returns null and leaves `name` null). */
  datatype Located = Found(region: nat, name: string) | NotFound

  // ---------------------------------------------------------------------
  // Region names

  /** The five prefixes a region name can start with. */
  predicate IsPrefix(p: string) {
    p == "+" || p == "#" || p == "~" || p == "#~" || p == "-"
  }

  function GetAccessibilitySymbol(a: Accessibility): (p: string)
    ensures IsPrefix(p)
    ensures p == "-" <==> a !in {Public, Protected, Internal, ProtectedOrInternal}
  {
    match a
    case Public => "+"
    case Protected => "#"
    case Internal => "~"
    case ProtectedOrInternal => "#~"
    case _ => "-"
  }

  /** The prefix table, value by value. */
  lemma AccessibilitySymbolTable()
    ensures GetAccessibilitySymbol(Public) == "+"
    ensures GetAccessibilitySymbol(Protected) == "#"
    ensures GetAccessibilitySymbol(Internal) == "~"
    ensures GetAccessibilitySymbol(ProtectedOrInternal) == "#~"
    ensures GetAccessibilitySymbol(ProtectedAndInternal) == "-"
    ensures GetAccessibilitySymbol(Private) == "-"
    ensures GetAccessibilitySymbol(NotApplicable) == "-"
  {
  }

  function CreateRegionName(a: Accessibility, identifier: string): (name: string)
    ensures |name| > |identifier|
    ensures name[|name| - |identifier|..] == identifier
    ensures IsPrefix(name[..|name| - |identifier|])
    ensures name[..|name| - |identifier|] == GetAccessibilitySymbol(a)
  {
    GetAccessibilitySymbol(a) + identifier
  }

  /** An identifier as C# writes it never starts with a prefix character. */
  predicate IsIdentifier(identifier: string) {
    identifier != [] && identifier[0] !in "+#~-"
  }

  /** For identifiers, the region name determines both the identifier and
      the prefix: a rename or a change of accessibility class always makes
      a stale name differ from the canonical one. */
  lemma RegionNameDeterminesDeclaration(a1: Accessibility, id1: string, a2: Accessibility, id2: string)
    requires IsIdentifier(id1) && IsIdentifier(id2)
    ensures CreateRegionName(a1, id1) == CreateRegionName(a2, id2) <==>
            GetAccessibilitySymbol(a1) == GetAccessibilitySymbol(a2) && id1 == id2
  {
  }

  /** The name a `#region` carries: the text of its preprocessing message,
      or the empty string when the directive has none. */
  function RegionName(t: Trivia): (name: string)
    requires t.Region?
    ensures t.message.Some? ==> DirectiveText(t) == "#region " + name + "\r\n"
    ensures t.message.None? ==> name == "" && DirectiveText(t) == "#region\r\n"
  {
    match t.message
    case Some(m) => m
    case None => ""
  }

  // ---------------------------------------------------------------------
  // The two directive scans

  /** Within `ts[..n]`, the `#region` at `k` is still open at the end:
      no `#region` or `#endregion` follows it. */
  ghost predicate OpensAt(ts: seq<Trivia>, n: nat, k: nat) {
    k < n <= |ts| && ts[k].Region? &&
    forall j :: k < j < n ==> !IsRegionDirective(ts[j])
  }

  /** Within `ts[i..]`, the `#endregion` at `k` is the first region
      directive. */
  ghost predicate ClosesAt(ts: seq<Trivia>, i: nat, k: nat) {
    i <= k < |ts| && ts[k].EndRegion? &&
    forall j :: i <= j < k ==> !IsRegionDirective(ts[j])
  }

  /** The forward scan over `ts[..n]`: a `#region` becomes the candidate,
      an `#endregion` clears it. Its result is the `#region` still open at
      the end, and there is one exactly when the last region directive is
      a `#region`. */
  function ActiveRegion(ts: seq<Trivia>, n: nat): (r: Option<nat>)
    requires n <= |ts|
    ensures r.Some? ==> OpensAt(ts, n, r.value)
    ensures r.None? ==> forall k :: !OpensAt(ts, n, k)
  {
    if n == 0 then None
    else if ts[n - 1].Region? then Some(n - 1)
    else if ts[n - 1].EndRegion? then
      None
    else
      var r := ActiveRegion(ts, n - 1);
      assert forall k :: OpensAt(ts, n, k) <==> OpensAt(ts, n - 1, k);
      r
  }

  /** The reverse scan over `ts[i..]`: walking from the end towards `i`,
      an `#endregion` becomes the candidate and a `#region` clears it. Its
      result is the leftmost `#endregion` with no `#region` before it, and
      there is one exactly when the first region directive is an
      `#endregion`. */
  function ActiveEndRegion(ts: seq<Trivia>, i: nat): (r: Option<nat>)
    requires i <= |ts|
    ensures r.Some? ==> ClosesAt(ts, i, r.value)
    ensures r.None? ==> forall k :: !ClosesAt(ts, i, k)
    decreases |ts| - i
  {
    if i == |ts| then None
    else if ts[i].EndRegion? then Some(i)
    else if ts[i].Region? then
      None
    else
      var r := ActiveEndRegion(ts, i + 1);
      assert forall k :: ClosesAt(ts, i, k) <==> ClosesAt(ts, i + 1, k);
      r
  }

  /** At most one `#region` is open at the end of a trivia list. */
  lemma OpensAtUnique(ts: seq<Trivia>, n: nat, k1: nat, k2: nat)
    requires OpensAt(ts, n, k1) && OpensAt(ts, n, k2)
    ensures k1 == k2
  {
  }

  /** The cancel-then-restart case: `[#region X, #endregion, #region Y]`
      leaves `#region Y` open. */
  lemma CancelThenRestart()
    ensures ActiveRegion([Region(Some("X")), EndRegion, Region(Some("Y"))], 3) == Some(2)
  {
  }

  // ---------------------------------------------------------------------
  // The locator

  /** The leading trivia of the token after `parent[i]`: the next sibling
      when it is a token, otherwise the first token among its descendants. */
  function NextToken(parent: seq<Element>, i: nat): (r: Result<seq<Trivia>>)
    requires i < |parent|
    ensures i + 1 == |parent| <==> r == Err(NoNextSibling)
    ensures i + 1 < |parent| && parent[i + 1].Token? ==> r == Ok(parent[i + 1].leading)
    ensures i + 1 < |parent| && parent[i + 1].Node? ==>
              r == if Tokens(parent[i + 1]) == [] then Err(NoTokenInNextSibling)
                   else Ok(Tokens(parent[i + 1])[0].leading)
  {
    if i + 1 == |parent| then Err(NoNextSibling)
    else if Tokens(parent[i + 1]) == [] then Err(NoTokenInNextSibling)
    else Ok(FirstLeading(parent[i + 1]))
  }

  /** What `GetLeadingRegionAndName` computes for `parent[i]`. */
  function Locate(parent: seq<Element>, i: nat): (r: Result<Located>)
    requires i < |parent| && Tokens(parent[i]) != []
    ensures var leading := FirstLeading(parent[i]);
      && (r.Err? <==> (exists k :: OpensAt(leading, |leading|, k)) && NextToken(parent, i).Err?)
      && (r.Err? ==> r.failure == NextToken(parent, i).failure)
      && (r.Ok? && r.value.Found? ==>
            && OpensAt(leading, |leading|, r.value.region)
            && NextToken(parent, i).Ok?
            && (exists m :: ClosesAt(NextToken(parent, i).value, 0, m))
            && r.value.name == RegionName(leading[r.value.region]))
      && (r == Ok(NotFound) <==>
            || (forall k :: !OpensAt(leading, |leading|, k))
            || (NextToken(parent, i).Ok? && forall m :: !ClosesAt(NextToken(parent, i).value, 0, m)))
  {
    var leading := FirstLeading(parent[i]);
    match ActiveRegion(leading, |leading|)
    case None => Ok(NotFound)
    case Some(k) =>
      match NextToken(parent, i)
      case Err(f) => Err(f)
      case Ok(next) =>
        if ActiveEndRegion(next, 0).None? then Ok(NotFound)
        else Ok(Found(k, RegionName(leading[k])))
  }

  /** The converse of `Locate`'s contract: an open `#region` in the
      declaration's leading trivia and a closing `#endregion` on the next
      token make a pair, and the pair's name is the opening region's. */
  lemma LocateFindsPair(parent: seq<Element>, i: nat, k: nat, m: nat)
    requires i < |parent| && Tokens(parent[i]) != []
    requires OpensAt(FirstLeading(parent[i]), |FirstLeading(parent[i])|, k)
    requires NextToken(parent, i).Ok? && ClosesAt(NextToken(parent, i).value, 0, m)
    ensures Locate(parent, i) == Ok(Found(k, RegionName(FirstLeading(parent[i])[k])))
  {
  }

  /** Whether the analyzer reports a diagnostic for `parent[i]`, given the
      accessibility and the identifier of its symbol. */
  function Reports(parent: seq<Element>, i: nat, a: Accessibility, identifier: string): (r: Result<bool>)
    requires i < |parent| && Tokens(parent[i]) != []
    ensures r.Err? <==> Locate(parent, i).Err?
    ensures r == Ok(false) <==> exists k :: Locate(parent, i) == Ok(Found(k, CreateRegionName(a, identifier)))
  {
    match Locate(parent, i)
    case Err(f) => Err(f)
    case Ok(NotFound) => Ok(true)
    case Ok(Found(_, name)) => Ok(name != CreateRegionName(a, identifier))
  }

  /** Both scans of the C# locator, loop for loop. */
  method GetLeadingRegionAndName(parent: seq<Element>, i: nat) returns (r: Result<Located>)
    requires i < |parent| && Tokens(parent[i]) != []
    ensures r == Locate(parent, i)
  {
    // forward scan of the declaration's leading trivia
    var leading := FirstLeading(parent[i]);
    var regionDirective: Option<nat> := None;
    for k := 0 to |leading|
      invariant regionDirective == ActiveRegion(leading, k)
    {
      if leading[k].Region? {
        regionDirective := Some(k);
      } else if leading[k].EndRegion? {
        regionDirective := None;
      }
    }
    if regionDirective.None? {
      return Ok(NotFound);
    }

    var nextToken := NextToken(parent, i);
    if nextToken.Err? {
      return Err(nextToken.failure);
    }

    // reverse scan of the next token's leading trivia
    var next := nextToken.value;
    var endRegionDirective: Option<nat> := None;
    var k := |next|;
    while k > 0
      invariant 0 <= k <= |next|
      invariant endRegionDirective == ActiveEndRegion(next, k)
    {
      k := k - 1;
      if next[k].EndRegion? {
        endRegionDirective := Some(k);
      } else if next[k].Region? {
        endRegionDirective := None;
      }
    }
    if endRegionDirective.None? {
      return Ok(NotFound);
    }

    var region := regionDirective.value;
    return Ok(Found(region, RegionName(leading[region])));
  }

  /** The report decision of `AnalyzeSymbol`: a diagnostic when no pair is
      found or the pair's name is not the canonical one. */
  method AnalyzeSymbol(parent: seq<Element>, i: nat, a: Accessibility, identifier: string) returns (report: Result<bool>)
    requires i < |parent| && Tokens(parent[i]) != []
    ensures report.Err? <==> Locate(parent, i).Err?
    ensures report.Ok? ==>
              (report.value <==> Locate(parent, i).value.NotFound? ||
                                 Locate(parent, i).value.name != CreateRegionName(a, identifier))
    ensures report == Reports(parent, i, a, identifier)
  {
    var located := GetLeadingRegionAndName(parent, i);
    if located.Err? {
      return Err(located.failure);
    }
    report := Ok(located.value.NotFound? || located.value.name != CreateRegionName(a, identifier));
  }
}
