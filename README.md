# RegionTogether in Dafny

RegionTogether is a Roslyn analyzer with a code fix for C#. The analyzer
checks every method and property. Each one must sit between a
`#region <name>` directive and an `#endregion` directive, and `<name>` must
be an accessibility prefix followed by the member's identifier: `+` for
public, `#` for protected, `~` for internal, `#~` for protected internal and
`-` for everything else. The code fix writes the missing pair, or renames a
stale opening directive.

This project models the two algorithms behind that, on an abstraction of
the Roslyn syntax tree:

- `syntax.dfy` (module `Syntax`): trivia kinds. `#region` keeps its
  preprocessing message as an optional name. Elements are tokens (leading
  trivia, text, trailing trivia) or nodes (children). `Tokens` flattens an
  element into its tokens, like `DescendantTokens()`. `WithFirstLeading` is
  the copy-on-write edit of a subtree's first token.
- `analyzer.dfy` (module `Analyzer`): the prefix table and the region name.
  It has the two directive scans (forward over the declaration's leading
  trivia, in reverse over the next token's), the next-token lookup and the
  locator `GetLeadingRegionAndName`, with both loops. It also has the report
  decision of `AnalyzeSymbol`.
- `code_fix.dfy` (module `CodeFix`): `MakeRegion`. It covers the built
  directives, the reverse comment-run scan with its `break`, the three
  insertion cases, the `#endregion` insertion and the rename branch. The
  comment test that places a new `#region` is a parameter of the fix, so
  the fix is proved both with the test as written and with the corrected
  one (see Findings).

A declaration is addressed by its parent's child list `parent` (nodes and
tokens in document order) and its index `i`. The next sibling is
`parent[i + 1]`. The C# root is represented by that child list. An edit
returns a new child list, as Roslyn's `ReplaceTrivia`, `InsertTriviaBefore`,
`InsertTriviaAfter` and `ReplaceToken` return new roots. The `.First()`
calls that throw on an empty sequence are results, not preconditions: a
declaration that is the last child gives `Err(NoNextSibling)`, and a next
sibling node without tokens gives `Err(NoTokenInNextSibling)`. The locator
reaches them only when the declaration has an open `#region`. The fix
reaches them in both branches.

The main results:

- The locator finds a pair exactly when two things hold. The last region
  directive in the declaration's leading trivia is a `#region`. The first
  region directive in the next token's leading trivia is an `#endregion`.
  The name is that `#region`'s message, or `""` when it has none.
- After `MakeRegion` succeeds, the analyzer reports nothing for the
  declaration (fix-then-analyze idempotence).
- On an already correct declaration, `MakeRegion` returns the tree
  unchanged.
- An edit touches only the first-token leading trivia of the declaration
  and, when inserting, of the next sibling. Every other token and the shape
  of the tree stay the same.

Three behaviours of the code worth knowing:

- When the leading trivia does not end in a comment, the code appends the
  new `#region` after the last leading trivia
  (CodeFixProvider.cs:107). It does not prepend it.
- Any non-comment trivia ends the comment run, including whitespace and
  line breaks (CodeFixProvider.cs:94-97). A `//` comment on its own line is
  always followed by an end-of-line trivia, indented or not, so it never
  joins the run: the new `#region` goes after it. Only comments with nothing
  between them and the declaration's first token (`/* c */void Foo()`)
  stay inside the new region.
- For a correctly wrapped declaration, the code does not skip the edit. It
  replaces the directive with an equal one. `MakeRegion`'s contract shows
  that the result equals the input.

## Model

| member | source | states |
|---|---|---|
| `Syntax.DirectiveTextInjective` | src/RegionTogether/RegionTogether/CodeFixProvider.cs:59-69 | two region directives have the same text `#region <name>\r\n` / `#region\r\n` / `#endregion\r\n` exactly when they are the same directive, so the written text determines the name |
| `Syntax.Tokens` | src/RegionTogether/RegionTogether/DiagnosticAnalyzer.cs:69 | `DescendantTokens()` of an element yields only tokens |
| `Syntax.TokensOf` | src/RegionTogether/RegionTogether/DiagnosticAnalyzer.cs:69 | the tokens of a child list, in document order, are all tokens |
| `Syntax.WithFirstLeading` | src/RegionTogether/RegionTogether/CodeFixProvider.cs:112 | replacing the first token's leading trivia leaves the token sequence unchanged except for that one list, and keeps tokens as tokens |
| `Syntax.WithFirstLeadingRestores` | src/RegionTogether/RegionTogether/CodeFixProvider.cs:103-112 | putting the old leading trivia back gives back the original element, so the edit changes nothing else in the subtree |
| `Analyzer.GetAccessibilitySymbol` | src/RegionTogether/RegionTogether/DiagnosticAnalyzer.cs:92-107 | the prefix is one of `+ # ~ #~ -`, and it is `-` exactly for the accessibilities other than public, protected, internal and protected-or-internal |
| `Analyzer.AccessibilitySymbolTable` | src/RegionTogether/RegionTogether/DiagnosticAnalyzer.cs:92-107 | the table value by value for all seven accessibilities, including `ProtectedAndInternal`, `Private` and `NotApplicable` giving `-` |
| `Analyzer.CreateRegionName` | src/RegionTogether/RegionTogether/DiagnosticAnalyzer.cs:89-90 | the name is longer than the identifier, ends with the identifier, and starts with the accessibility's prefix |
| `Analyzer.RegionNameDeterminesDeclaration` | src/RegionTogether/RegionTogether/DiagnosticAnalyzer.cs:89-107 | for identifiers, two region names are equal if and only if the prefixes and the identifiers are equal, so a rename or a change of prefix always makes a stale name differ |
| `Analyzer.ActiveRegion` | src/RegionTogether/RegionTogether/DiagnosticAnalyzer.cs:57-62 | the forward scan ends on index `k` exactly when `k` is a `#region` with no region directive after it, and ends on null exactly when no such `#region` exists |
| `Analyzer.ActiveEndRegion` | src/RegionTogether/RegionTogether/DiagnosticAnalyzer.cs:70-75 | the reverse scan ends on the leftmost `#endregion` with no region directive before it, and on null exactly when the first region directive is not an `#endregion` |
| `Analyzer.RegionName` | src/RegionTogether/RegionTogether/DiagnosticAnalyzer.cs:78-84 | the name is the text the directive carries between `#region ` and its line break, and the empty string when the directive has no message |
| `Analyzer.CancelThenRestart` | src/RegionTogether/RegionTogether/DiagnosticAnalyzer.cs:57-62 | `[#region X, #endregion, #region Y]` leaves `#region Y` open |
| `Analyzer.NextToken` | src/RegionTogether/RegionTogether/DiagnosticAnalyzer.cs:66-69 | the next token is the next sibling when that is a token, else the first descendant token of the next sibling node; the two `.First()` failures are errors |
| `Analyzer.Locate` | src/RegionTogether/RegionTogether/DiagnosticAnalyzer.cs:52-87 | an error exactly when an open `#region` exists and the next-token lookup fails; a found pair has an open `#region`, a closing `#endregion` on the next token and that region's name; null (no name) exactly when either side is missing |
| `Analyzer.LocateFindsPair` | src/RegionTogether/RegionTogether/DiagnosticAnalyzer.cs:52-87 | the converse: an open `#region` and a closing `#endregion` always give that pair and the region's name |
| `Analyzer.GetLeadingRegionAndName` | src/RegionTogether/RegionTogether/DiagnosticAnalyzer.cs:52-87 | both loops and the name extraction compute `Locate` |
| `Analyzer.Reports` | src/RegionTogether/RegionTogether/DiagnosticAnalyzer.cs:44-49 | no diagnostic exactly when a pair is found whose name is the canonical name; an error exactly when the locator fails |
| `Analyzer.AnalyzeSymbol` | src/RegionTogether/RegionTogether/DiagnosticAnalyzer.cs:44-49 | reports exactly when no pair is found or the found name differs from `CreateRegionName` |
| `CodeFix.NewRegionDirective` | src/RegionTogether/RegionTogether/CodeFixProvider.cs:59-69 | the built directive is a `#region` whose name, as the analyzer reads it, is the canonical name, and whose text is `#region ` + name + `\r\n` |
| `CodeFix.NewEndRegionDirective` | src/RegionTogether/RegionTogether/CodeFixProvider.cs:119-126 | the built directive is an `#endregion` whose text is `#endregion\r\n` |
| `CodeFix.CanonicalRegionIsNewRegion` | src/RegionTogether/RegionTogether/CodeFixProvider.cs:73-76 | a `#region` that already carries the canonical name equals the directive the fix builds |
| `CodeFix.IsLeadingComment` | src/RegionTogether/RegionTogether/CodeFixProvider.cs:87-90 | the four comment kinds, corrected as described under Findings; a comment is never a region directive |
| `CodeFix.IsLeadingCommentAsWritten` | src/RegionTogether/RegionTogether/CodeFixProvider.cs:87-90 | the condition as written accepts exactly the corrected kinds except the documentation-block comment |
| `CodeFix.CommentTestsQualify` | src/RegionTogether/RegionTogether/CodeFixProvider.cs:87-90 | neither the corrected comment test nor the one as written accepts a region directive, so both may place the new `#region` |
| `CodeFix.CommentRunStart` | src/RegionTogether/RegionTogether/CodeFixProvider.cs:84-98 | null exactly when the trivia is empty or does not end in a comment; otherwise the start of the maximal run of comments at its end |
| `CodeFix.FindCommentRun` | src/RegionTogether/RegionTogether/CodeFixProvider.cs:84-98 | the reverse loop with `break` returns the first element of that maximal run, for any comment test, the written one included |
| `CodeFix.OpeningPosition` | src/RegionTogether/RegionTogether/CodeFixProvider.cs:100-108 | the insertion point is where the trailing comment run starts: everything after it is a comment and the trivia before it is not |
| `CodeFix.InsertOpening` | src/RegionTogether/RegionTogether/CodeFixProvider.cs:100-113 | the list grows by one, the new `#region` sits at the insertion point directly before the trailing comments, and taking it out gives back the original list |
| `CodeFix.InsertOpeningIntoEmpty` | src/RegionTogether/RegionTogether/CodeFixProvider.cs:110-113 | without leading trivia the new `#region` becomes the only leading trivia |
| `CodeFix.InsertOpeningAppends` | src/RegionTogether/RegionTogether/CodeFixProvider.cs:105-108 | leading trivia that does not end in a comment gets the new `#region` after its last element |
| `CodeFix.InsertRegionDirective` | src/RegionTogether/RegionTogether/CodeFixProvider.cs:80-113 | the three insertion cases together compute `InsertOpening`, for any comment test |
| `CodeFix.DocBlockCommentOutsideAsWritten` | src/RegionTogether/RegionTogether/CodeFixProvider.cs:87-90 | with the condition as written, a trailing `/** */` comment is not part of the run, so the `#region` is appended after it; the corrected condition keeps it inside |
| `CodeFix.Renamed` | src/RegionTogether/RegionTogether/CodeFixProvider.cs:73-77 | the rename replaces only the opening directive at its index; the declaration's other tokens, the `#endregion` and every other sibling stay as they are, and writing the old leading trivia back gives back the original declaration, so its shape is unchanged |
| `CodeFix.Inserted` | src/RegionTogether/RegionTogether/CodeFixProvider.cs:100-134 | the declaration's leading trivia becomes `InsertOpening` of it for the given comment test, the next token's leading trivia gets `#endregion` in front; every other token of the two siblings and every other sibling stay as they are, and writing the old leading trivia back gives back both original siblings, so their shapes are unchanged |
| `CodeFix.RenameIsAccepted` | src/RegionTogether/RegionTogether/CodeFixProvider.cs:73-77 | after a rename the analyzer reports nothing, and a rename to the name the directive already has changes nothing |
| `CodeFix.InsertIsAccepted` | src/RegionTogether/RegionTogether/CodeFixProvider.cs:78-135 | after an insertion, placed by any comment test that accepts no region directive, the analyzer finds the new pair with the canonical name and reports nothing |
| `CodeFix.MakeRegion` | src/RegionTogether/RegionTogether/CodeFixProvider.cs:54-138 | fails exactly when the next-token lookup fails; renames when a pair exists and inserts otherwise; leaves a correct declaration unchanged; afterwards the analyzer reports nothing, with the comment test as written and with the corrected one |

## Left out

- Host plumbing is not modelled: `Initialize`, `SupportedDiagnostics`, the
  diagnostic descriptor, the localized resources, `FixableDiagnosticIds`,
  `GetFixAllProvider` and `RegisterCodeFixesAsync`. They are registrations
  with the Roslyn host and hold no logic of their own.
- Symbol lookup is not modelled: the symbol's location, `FindNode`, the
  `MemberDeclarationSyntax` test in `AnalyzeSymbol` and `GetDeclaredSymbol`
  in `MakeRegion`. The accessibility and the identifier are inputs, and the
  model starts from the member declaration.
- `async`, `CancellationToken` and `Document.WithSyntaxRoot` are not
  modelled. They are I/O with the host.
- The span arithmetic that finds the declaration again in the new root
  (CodeFixProvider.cs:115-116) is not modelled. The model keeps the index
  `i`: inserting trivia adds and removes no element, so the same next
  sibling is addressed.
- Only the parent's child list is modelled, not the rest of the file, and
  trivia is addressed by position rather than by Roslyn's node identity.
- Roslyn's `GetFirstToken()` skips zero-width (missing) tokens, while
  `DescendantTokens()` does not. The model takes the first token in both
  places.
- The text of trivia other than the built directives is not modelled. The
  spacing inside a directive is not modelled either.
- `MakeRegion`: on a correct declaration, its contract says the tree is
  unchanged. Roslyn would still rewrite the text of that directive: the
  spacing inside it is normalized (`#region  +Foo` becomes `#region +Foo`),
  and the rebuilt directive always ends in `\r\n`
  (CodeFixProvider.cs:69), so in a file that uses `\n` line breaks the line
  break changes too.
- `Locate`: the check that the `#region` has an end-of-directive token
  (DiagnosticAnalyzer.cs:80) always succeeds for a parsed directive, so a
  found pair always carries a name.

## Findings

| source | as written | input that shows it | evidently intended | confidence | as-written member | corrected member |
|---|---|---|---|---|---|---|
| src/RegionTogether/RegionTogether/CodeFixProvider.cs:87-90 | the comment-run test checks `SingleLineDocumentationCommentTrivia` twice and never `MultiLineDocumentationCommentTrivia` | a member whose leading trivia ends in a documentation-block comment, `/** doc */public void Foo()`: the `#region` is placed after the comment, which separates the comment from the member it documents | the fourth test is `MultiLineDocumentationCommentTrivia`, so the documentation-block comment stays inside the region like the other three comment kinds | medium; not executed | `CodeFix.IsLeadingCommentAsWritten`, exhibited by `CodeFix.DocBlockCommentOutsideAsWritten` | `CodeFix.IsLeadingComment`; `CodeFix.MakeRegion`, `CodeFix.Inserted`, `CodeFix.InsertRegionDirective` and `CodeFix.FindCommentRun` take the comment test as a parameter and are proved for both |
