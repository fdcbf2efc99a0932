# CCG category algebra

A model in Dafny of the category algebra of a CCG parser:
- **Slashes.** A slash is `/`, `\` or `|`, and `|` matches either direction.
- **Categories.** A category is atomic (a type with an optional feature) or a functor of two categories joined by a slash. Either kind can carry a trailing `{semantics}` annotation.
- **The registry.** Categories are interned: `Parse` builds them from text through a registry. The registry maps texts to nodes and hands out ids in construction order. Two categories are equal when their ids are.

The model follows the source's two sides:

- **Pure queries** (`NArgs`, `Arg`, `HeadCat`, `Matches`, `GetSubstitution`, the modifier and type-raising tests, the spine navigation `GetLeft<i>` / `GetRight<i>` / `HasFunctorAt*<i>`, `IsPunct`, `IsNorNP`, `WithBrackets`, `ToStrWithoutFeat`).
  - They are functions over an arena `seq<Node>`. A node refers to its children by id, and `WellFormed` says children have smaller ids than their parent, because the children are parsed, and so numbered, first.
  - `Tree(a, c)` reads the category below node `c` as a tree.
- **The registry** is a class `Registry` with three fields: the arena `nodes`, the cache `cache: map<string, nat>` and the counter `numCats`.
  - `Parse`, `ParseUncached`, `Make`, `Substitute`, `CorrectWildcardFeatures`, `StripFeat` and `Compose` are methods that extend it.
  - Its invariant `Valid` states three things: the arena is well formed, the counter equals the number of nodes, and every cached text denotes the tree of the node it maps to.

What `Parse(s)` returns depends on what was parsed before. On a fresh registry `(((A/B)))` yields an atom named `(A/B)`, but after `Parse("((A/B))")` it yields the functor `A/B`. Parsing is therefore specified by a relation, `Syntax.Denotes(text, tree)`: the result is either what `ParseUncached` builds for the text, or whatever the text with one bracket pair dropped denotes.

Two theorems make this relation a usable specification:
- `Syntax.RoundTrip` proves it is a function on canonical text. For a *plain* category, the canonical text and the bracketed text each denote exactly that category and nothing else. A plain category has no special characters in its types and feature texts, and no semantics.
- Building on it, the methods that re-parse a text (`Make`, `Substitute`, `StripFeat`, `Compose`) are proved to return exactly the tree their tree-level specification gives.

`Compose<Order>` is a template recursion in the source. Here it is a recursive method on a run-time `k`. Its tree-level specification `Rewriting.ComposeSpec` replaces the functor `X|Y` found `k` steps down the tail's left spine by `head op Y`.

The collaborators the source only calls are written out as small definitions with contracts:
- the feature type of feat.h, with a feature kept as its text, as `Features`;
- `utils::DropBrackets`, `utils::FindNonNestedChar` and `utils::ReplaceAll` of utils.h, as `TextUtils`.

Files:
- `wrappers.dfy`: `Option`.
- `slashes.dfy`: `Slashes`.
- `features.dfy`: the feature stand-in.
- `text.dfy`: bracket depth, `DropBrackets`, `FindNonNestedChar`, `Find`, `RFind` and `ReplaceAll`, with their lemmas.
- `syntax.dfy`: trees, canonical text, the `ParseUncached` text steps, `Denotes`, and the round trip.
- `rewriting.dfy`: tree specifications of substitution, feature stripping and composition.
- `categories.dfy`: the arena and the cat.h queries.
- `registry.dfy`: the registry class.

## Model

| member | source | states |
|---|---|---|
| Slashes.Slash.ToStr | src/cat.h:48-59 | every slash prints as one character among `/`, `\`, `|` |
| Slashes.FromStr | src/cat.h:61-69 | accepts exactly the strings `/`, `\`, `|` and rejects every other; an accepted string is the text of the slash returned |
| Slashes.FromStrToStr | src/cat.h:48-69 | `FromStr` inverts `ToStr` for all three slashes |
| Slashes.FromSlashChar | src/cat.cpp:86 | the slash character found by the split always converts to a slash |
| Slashes.Slash.Matches | src/cat.h:71-74 | the slash test itself: `|` on either side matches, otherwise the two slashes must be equal (its properties are `Slashes.MatchesProperties`) |
| Slashes.Slash.IsForward | src/cat.h:78 | holds exactly for the slash written `/`, which matches `/` and not `\` |
| Slashes.Slash.IsBackward | src/cat.h:79 | holds exactly for the slash written `\`, which matches `\` and not `/` |
| Slashes.MatchesProperties | src/cat.h:71-74 | slash matching is symmetric, `|` matches every slash, and two directed slashes match exactly when equal |
| TextUtils.DropBrackets | src/cat.cpp:45 | removes one pair of brackets only when it encloses the whole text, otherwise returns the text unchanged; a change always shortens the text |
| TextUtils.FindNonNestedChar | src/cat.cpp:71-72 | returns the right-most index holding one of the needles at bracket depth 0, or -1 when there is none |
| TextUtils.Find | src/cat.cpp:75-79 | first occurrence of a character, -1 exactly when it is absent |
| TextUtils.RFind | src/cat.cpp:64 | last occurrence of a character, -1 exactly when it is absent |
| TextUtils.WrapEnclosed | src/cat.h:221 | a balanced text wrapped in one bracket pair is balanced, and dropping brackets gives the text back |
| TextUtils.ReplaceFeatureTag | src/cat.cpp:34-35 | rewriting `[w]` in a feature tag `[text]` replaces it exactly when `text` is `w` |
| TextUtils.ReplaceAllSep | src/cat.cpp:34-35 | rewriting commutes with a separator character that the pattern does not contain |
| Syntax.SplitSemantics | src/cat.cpp:63-69 | the corrected semantics split: a text ending in `}` that holds a `{` is the body, `{`, the semantics and `}`, and the semantics hold no `{` (so the cut is at the last `{`); any other text is the whole body with no semantics |
| Syntax.SplitSemanticsAsWritten | src/cat.cpp:63-66 | the split as written: the body is the same as in the corrected split, and a text ending in `}` always gets semantics ending in `}` |
| Syntax.SemanticsEmptyBraces | src/cat.cpp:63-66 | `NP{}` has the body `NP` in both splits; as written its semantics are `}`, corrected they are empty |
| Syntax.SemanticsRoundTrip | src/cat.cpp:63-69 | splitting `x{sem}` gives back `x` and `sem` (the pair the `Category` constructor, src/cat.h:156, joined) |
| Syntax.SemanticsAsWrittenKeepsBrace | src/cat.cpp:63-66 | the split as written returns `sem}` for `x{sem}`, so it differs from the corrected split |
| Syntax.SemanticsAsWrittenExample | src/cat.cpp:63-66 | as written, `NP{x}` has the semantics `x}`; corrected, `x` |
| Syntax.SemanticsAsWrittenNoOpenBrace | src/cat.cpp:63-66 | as written, `NP}` (no `{`) has the semantics `NP}`; corrected, none |
| Syntax.SplitFeature | src/cat.cpp:75-83 | the type is the prefix before the first `[` (the whole text when there is none, with an empty feature); the feature text follows that `[`, holds no `]`, and ends at the next `]` or at the end of the text |
| Syntax.SplitFeatureOfAtom | src/cat.cpp:75-83 | the text of an atomic category splits back into its type and feature text |
| Syntax.StrShape | src/cat.h:277-278 | canonical and bracketed texts of plain categories have balanced brackets |
| Syntax.NoTopLevelSlash | src/cat.h:221 | a bracketed category text has no slash at depth 0, so it is never split |
| Syntax.NotEnclosedStr | src/cat.cpp:70 | dropping brackets leaves a canonical text unchanged |
| Syntax.ClassifiedStr | src/cat.cpp:70-89 | classifying a canonical text finds exactly its category, with the given semantics |
| Syntax.RoundTrip | src/cat.cpp:40-90 | for a plain category, its canonical text and its bracketed text each denote it and only it |
| Syntax.LeftAssociative | src/cat.cpp:71-72 | slash chains are left-associative: `Str(l) + slash + Bracketed(r)`, the left half written without brackets, denotes exactly `l slash r` |
| Syntax.LeftAssociativeExample | src/cat.cpp:71-72 | `A/B/C` denotes exactly `(A/B)/C` |
| Syntax.RoundTripSemantics | src/cat.cpp:60-69 | a plain category's text with a `{sem}` suffix denotes exactly that category carrying `sem` |
| Rewriting.SubstWildProperties | src/cat.cpp:92-95 | substitution leaves no wildcard unless the new feature is the wildcard, and changes nothing without a wildcard |
| Rewriting.SubstituteWildcardStr | src/cat.cpp:94 | rewriting every `[X]` in a plain category's text gives the text of the substituted tree, which stays plain |
| Rewriting.EraseAtomText | src/cat.cpp:33-36 | erasing `[X]` then `[nb]` in an atomic text gives the text of the erased atom |
| Rewriting.EraseProperties | src/cat.cpp:29-38 | erasing removes every wildcard, is idempotent and keeps plain categories plain |
| Rewriting.LeftAt | src/cat.h:193-194 | `i` steps down the left spine exist exactly when `i` is at most the arity |
| Rewriting.ReplaceLeftAtSpine | src/cat.h:173-179 | replacing on the left spine puts the new category at depth `i` and keeps every slash and right argument above it |
| Rewriting.ReplaceLeftAtStep | src/cat.h:177-178 | replacing at depth `k` equals replacing at depth `k - 1` by the functor rebuilt around the new category |
| Rewriting.ComposeSpecShape | src/cat.h:166-179 | composition is defined exactly when the tail has more than `k` arguments; the result has `head op Y` at depth `k`, `head` at depth `k + 1`, arity `k + 1 + NArgs(head)`, and the tail's outer slashes and arguments |
| Rewriting.ComposeSpecStep | src/cat.h:174-178 | one step of the template recursion: composing at `k` is composing `head op Y` at `k - 1` with the slash found there |
| Rewriting.PlainCompose | src/cat.h:173-179 | composing plain categories gives a plain category |
| Rewriting.ComposeExample | src/cat.h:166-171 | `A` into `((B/C)/D)/E` at order 2 gives `((A/C)/D)/E`; at order 3 it fails |
| Categories.ToStr | src/cat.h:155-156 | the text of a node is the canonical text of its tree: `type + feat`, or the bracketed halves around the slash, each followed by `{sem}` when there are semantics |
| Categories.WithBrackets | src/cat.h:221 | a functor's text in one bracket pair, an atom's as it is: the bracketed text of its tree |
| Categories.NArgs | src/cat.h:239 | the arity is 0 exactly for atomic categories |
| Categories.NArgsTree | src/cat.h:239 | the arity is the length of the tree's left spine |
| Categories.Arg | src/cat.h:257-263 | argument `n` counted from the head: defined exactly for `0 <= n <= NArgs`, `None` where an atom is asked for an index other than 0, and the result is numbered at most the start |
| Categories.HeadCat | src/cat.h:265 | the head is atomic and is the node at the bottom of the left spine |
| Categories.ArgSpine | src/cat.h:257-263 | `Arg(n)` is defined exactly for `0 <= n <= NArgs`; `Arg(0)` is the head and `Arg(n)` the right child of the functor `NArgs - n` steps down the left spine |
| Categories.GetLeft | src/cat.h:193-199 | `i` steps down the left spine: defined exactly for `i` up to the arity, `None` when an atom is asked for a child, and otherwise a node numbered at most the start |
| Categories.GetRight | src/cat.h:193-199 | `i` steps down the right spine: defined exactly for `i` up to the depth of the right spine, `None` when an atom is asked for a child, and otherwise a node numbered at most the start |
| Categories.HasFunctorAtLeft | src/cat.h:184-191 | holds exactly when `GetLeft<i>` is defined and reaches a functor |
| Categories.HasFunctorAtRight | src/cat.h:184-191 | holds exactly when `GetRight<i>` is defined and reaches a functor |
| Categories.GetLeftDefined | src/cat.h:193-199 | `GetLeft<i>` is defined exactly up to the arity and reaches the tree's node `i` steps down the left spine |
| Categories.HasFunctorAtIff | src/cat.h:184-191 | `HasFunctorAtLeft<i>` holds exactly below the arity and `HasFunctorAtRight<i>` exactly below the right depth, i.e. where `GetLeft<i>` / `GetRight<i>` reach a functor |
| Categories.Matches | src/cat.h:331-341 | matching categories have the same functor skeleton and the same arity |
| Categories.MatchesReflexive | src/cat.h:248-255 | every category matches itself |
| Categories.MatchesExample | src/cat.h:331-341 | `NP[nb]` matches `NP` but not `PP`; featureless `S` matches `S[dcl]`; `S[dcl]` does not match `S[b]` |
| Categories.GetSubstitution | src/cat.h:322-329 | an atom against a functor fails, and two atoms always give a feature |
| Categories.GetSubstitutionShape | src/cat.h:241-246 | substitution is defined for categories of equal shape, fails on an atomic/functor clash, and is symmetric |
| Categories.GetSubstitutionNoWildcard | src/cat.h:322-329 | with no wildcard on either side the result is the empty feature (or failure) |
| Categories.GetSubstitutionRecovers | src/cat.h:241-246 | matching a category that holds the wildcard against its instance with the wildcard replaced by a non-empty feature `f` returns `f`, in either order |
| Categories.IsModifier | src/cat.h:223 | a modifier is a functor whose two halves are the same category |
| Categories.IsTypeRaised | src/cat.h:224-226 | a type-raised category has the form `X|(X|Y)` |
| Categories.IsForwardTypeRaised | src/cat.h:228-230 | a forward type-raised category is `X/(X|Y)` |
| Categories.IsBackwardTypeRaised | src/cat.h:232-234 | as written, a category it accepts has a forward slash |
| Categories.IsBackwardTypeRaisedIntended | src/cat.h:232-234 | the corrected test: a category it accepts is `X\(X|Y)`, and it is never forward type-raised |
| Categories.BackwardTypeRaisedAsWritten | src/cat.h:228-234 | as written, the backward test equals the forward test |
| Categories.BackwardTypeRaisedCounterexample | src/cat.h:232-234 | `S\(S/NP)` is type-raised but not backward type-raised as written; it is with the intended test |
| Categories.TypeRaisedDirection | src/cat.h:228-234 | with the intended test, a type-raised category with a directed slash is exactly one of forward or backward type-raised |
| Categories.IsFunctionIntoSpine | src/cat.h:267-269 | `IsFunctionInto(target)` holds exactly when `target` matches some category on the left spine |
| Categories.IsFunctionInto | src/cat.h:267-269 | a category that is a function into `target` has at least as many arguments as `target` |
| Categories.IsFunctionIntoModifier | src/cat.h:271-273 | a function into a modifier takes at least one argument |
| Categories.IsFunctionIntoModifierTree | src/cat.h:271-273 | the category or its left child is `X|X` |
| Categories.IsPunct | src/cat.h:311-316 | punctuation is atomic |
| Categories.IsNorNP | src/cat.h:318 | `N` and `NP` are atoms of those types and are not punctuation |
| Categories.PunctProperties | src/cat.h:311-318 | only atomic categories are punctuation, and `N`, `NP` are not |
| Categories.ToStrWithoutFeat | src/cat.h:206-209 | a functor's stripped text starts with `(`, ends with `)`, and has at least one character between them |
| Categories.ToStrWithoutFeatTree | src/cat.cpp:29-38 | for a plain category the feature-stripped text is the bracketed text of the erased tree |
| Categories.TreeStable | src/cat.h:157-158 | adding nodes changes no existing category |
| Registries.Registry.NewCategory | src/cat.h:155-159 | a new node gets the counter's value as id, the counter advances, and the invariant is kept |
| Registries.Registry.Parse | src/cat.cpp:40-57 | a hit returns the cached node and changes nothing; a miss maps both the text and its bracket-dropped form to the result, reusing a cached bracket-dropped form without building; when neither was cached the new node is linked to the cached ids of its halves as `ParseUncached` states; the text always denotes the result's tree; ids and cached entries are never lost |
| Registries.Registry.ParseBracketedAlias | src/cat.cpp:44-56 | `Parse("(s)")` followed by `Parse("s")` returns one node |
| Registries.Registry.ParseUncached | src/cat.cpp:60-90 | always builds a new node, numbered after its halves, whose tree is what the name denotes without the cache shortcut: semantics split off, brackets dropped, then classified as atom or functor; a functor's children are exactly the ids the cache holds for the texts left and right of the split (`ChildrenCached`) |
| Registries.Registry.MakeNode | src/cat.cpp:97-99 | `Make` as `Compose` calls it: the result's tree is `left op right` for plain halves |
| Registries.Registry.Make | src/cat.cpp:97-99 | the result is cached under `left.WithBrackets() + op + right.WithBrackets()`; for plain halves its tree is `left op right` |
| Registries.Registry.Substitute | src/cat.cpp:92-95 | an empty feature returns the same node and changes nothing; otherwise the substituted text denotes the result, whose tree for plain input is the substituted tree |
| Registries.Registry.CorrectWildcardFeatures | src/cat.cpp:101-103 | fails exactly when `GetSubstitution` fails and then changes nothing; otherwise substitutes the feature found |
| Registries.Registry.StripFeat | src/cat.h:111 | the stripped text denotes the result; for a plain category its tree is the erased tree |
| Registries.Registry.Compose | src/cat.h:173-179 | fails exactly when the tail has at most `k` arguments, changing nothing; for plain input the result's tree is `ComposeSpec` |
| Registries.SlashBracketDenotes | src/cat.cpp:84-89 | `A/(B)` denotes exactly `A/B` |
| Registries.ModifierExample | src/cat.cpp:85-88 | on a fresh registry `Parse("NP/NP")` is a modifier: both halves are the one cached node for `NP` |
| Registries.DuplicateNodeExample | src/cat.cpp:40-57 | on a fresh registry `A/B` and then `A/(B)` yield two different nodes with the same tree |

## Left out

- Concurrency: the `#pragma omp atomic capture` on the id counter (src/cat.h:157) is not modelled; ids are assigned sequentially.
- feat.h is not part of this model. `Features` stands in for it: a feature is its text, matching is equality of texts, and wildcard substitution rewrites every `[X]`.
- utils.h is not part of this model. `DropBrackets`, `FindNonNestedChar` and `ReplaceAll` are defined as what their use in cat.cpp and the comment at src/cat.cpp:71 require. Any error these helpers raise on unbalanced text is not modelled.
- The `print` macro, `std::cout`, the `As<T>` casts and the `std::hash` / `equal_to` specialisations (src/cat.h:13, 100-104, 382-406) are library glue. Only id equality is kept: nodes are compared by index.
- The accessors `GetId`, `Hashcode`, `GetType`, `GetFeat` and `GetSlash` are the node fields themselves. Where the source throws because a functor has no type or feature, or an atom has no child or slash, the queries that use them return `None`.
- The `extern Cat` constants (src/cat.h:366-376) are defined elsewhere and are not modelled.
- depccg/tools/reader.py is file and XML I/O and is not modelled.
- The `#ifdef JAPANESE` branch of `ToStrWithoutFeat` (src/cat.cpp:30-31) is the boolean parameter `japanese`.
- The stored text `str_` is not a field: `Categories.ToStr` computes it from the arena. The two agree because nodes never change.
- `Parse("")` calls `back()` on an empty string, which is undefined in C++. The model reads it as an atomic category with an empty type, and `IsPunct` treats a missing first character as not a letter.
- Registries.Registry.Parse: the result is specified by the `Denotes` relation and not as a function of the text, because it depends on the cache's history; the exact tree is fixed only for canonical text of plain categories (`Syntax.RoundTrip`).
- Registries.Registry.Make: for non-plain halves it states only that the result is cached under the built text, from which `Valid` gives `Denotes`; the exact tree is stated for plain halves.
- Registries.Registry.Substitute, Registries.Registry.StripFeat, Registries.Registry.CorrectWildcardFeatures and Registries.Registry.Compose: the exact resulting tree is stated only for plain categories. Text with brackets inside types, or with semantics, may be re-parsed differently.
- Registries.Registry.MakeNode: calls `Make` and promises less, leaving out the cache entry, so that the proof of `Compose` stays small.
- Categories.IsModifier: states only that equal ids mean equal trees. The converse fails because the registry can hold two nodes with one tree (`Registries.DuplicateNodeExample`).
- Categories.GetSubstitutionShape: equal shape is sufficient but not necessary for success. A non-empty feature found in the right halves is returned without looking at the left halves (src/cat.h:242-245).
- Registries.Registry.ParseUncached: it splits off the semantics with the corrected `Syntax.SplitSemantics`, not as src/cat.cpp:63-66 is written. A text ending in `}` gets the semantics between its last `{` and that `}`, not including the `}`; a text ending in `}` with no `{` gets no semantics. See "Findings".
- Syntax.SplitSemanticsAsWritten: the split as written is kept only as the witness for the findings below. The parser in the model uses the corrected `Syntax.SplitSemantics`.
- Categories.ToStrWithoutFeat: its text is stated by `Categories.ToStrWithoutFeatTree` for plain categories only. The functor text (src/cat.h:206-209) and the atomic text (src/cat.cpp:29-38) are both in its body.
- Categories.IsFunctionIntoModifier, Categories.IsPunct, Categories.GetLeft, Categories.GetRight and Categories.Arg: their own contracts are consequences. `GetLeftDefined` characterises `GetLeft` exactly, and `ArgSpine` characterises `Categories.Arg` exactly. `IsFunctionIntoModifierTree`, `PunctProperties` and `HasFunctorAtIff` state further consequences only:
  - `IsFunctionIntoModifierTree` goes one way only, because equal trees need not be equal ids;
  - `PunctProperties` says punctuation is atomic and `N`, `NP` are not punctuation, and leaves the character test to the body;
  - `HasFunctorAtIff` says how far `GetRight` is defined but not which node it reaches.

## Notes on the source

The model follows the code, with one exception: the semantics split (src/cat.cpp:63-66). The model's split keeps only the text between the last `{` and the closing `}`; the two defects of the code as written are listed under "Findings".

- **Functor text is not bracketed.** A functor's own text is `left.WithBrackets() + slash + right.WithBrackets()`, not wrapped in parentheses (src/cat.h:277). Only `WithBrackets` adds the outer pair (src/cat.h:221).
- **Unbalanced text is accepted.** cat.cpp raises no syntax error for unbalanced text such as `(A/B`. With the model's stand-in `TextUtils.FindNonNestedChar` no top-level slash is found, so the text becomes an atomic category of that name. What `utils::FindNonNestedChar` itself does with such text is outside this model.
- **Interning is per text, not per category.** Several texts can yield two nodes for one category:
  - `A/B` and then `A/(B)` (`Registries.DuplicateNodeExample`);
  - `((A))` and then `A`: only `((A))` and `(A)` are cached, so the later `A` is built again.
- **The Compose header comment has the wrong order.** The comment at src/cat.h:166-171 composes `A` into `(((B/C)/D)/E)` with order 3. The code needs order 2 for that result; order 3 asks the atomic `B` for its right child (`Rewriting.ComposeExample`).

## Findings

| source | as written | input that shows it | evidently intended | confidence | as-written member | corrected member |
|---|---|---|---|---|---|---|
| src/cat.cpp:65 | the semantics are taken from after `{` to the end of the text, so they include the closing `}` and the rebuilt text is `NP{x}}` | `NP{x}` | the semantics are the text between the braces, `x` | high, not executed | Syntax.SemanticsAsWrittenKeepsBrace | Syntax.SemanticsRoundTrip |
| src/cat.cpp:63-66 | a text ending in `}` with no `{` makes `rfind` fail, and the whole text becomes both body and semantics | `NP}` | no semantics are split off | medium, not executed | Syntax.SemanticsAsWrittenNoOpenBrace | Syntax.SplitSemantics |
| src/cat.h:232-234 | `IsBackwardTypeRaised` tests `IsForward`, so it equals `IsForwardTypeRaised` | `S\(S/NP)` | the test is `IsBackward` | high, not executed | Categories.BackwardTypeRaisedCounterexample | Categories.IsBackwardTypeRaisedIntended |
