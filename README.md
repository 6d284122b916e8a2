# Oshifier `localize` command, modelled in Dafny

Oshifier is a VS Code extension. Its `oshifier.localize` command takes a selected string
literal and turns it into a reference to an entry of a JSON localization catalog. The command:

1. checks that the selection starts with a quote and ends with a quote;
2. strips the first and last character;
3. replaces every interpolation (`${expr}` or `$token`) with `{}`, collecting the expressions
   as placeholders;
4. draws random ids until one is not yet in the catalog;
5. reuses the first message whose translation is the resulting template, or appends a new
   message;
6. rewrites the selection as `'<id>'.localized`, followed by `.format(<placeholders>)` when
   there are placeholders.

The model covers steps 1 to 6 as they are written in `src/extension.ts`, lines 35 to 80.

- `wrappers.dfy`: `Option` and `Result`.
- `text.dfy`: the JavaScript string operations the handler uses, with their ECMAScript
  meaning:
  - `startsWith` and `endsWith`;
  - `slice`, with negative and clamped indices;
  - `join`;
  - the `\s` character class.
- `selection.dfy`: the guard on the selection and the body `slice(1, -1)`.
- `extractor.dfy`: the regular expression `/\$\{[^}]+\}|\$\S+/g`.
  - `MatchAt` gives the match at one index: the first alternative wins, and both quantifiers
    are greedy.
  - `Scan` gives the left-to-right split made by the global search, which moves on by one
    character where there is no match.
  - The clean-up callback is `Desigil`.
  - `replace` with its `push`ing callback is the method `Extract`. It is proved to produce
    `Template(Scan(body))` and `Placeholders(Scan(body))`.
- `catalog.dfy`: the `messages` array.
  - `some` by id is `HasId`; `find` by translation is `FindByTranslation`.
  - The retry loop that draws a fresh id is `AllocateId`.
  - The array that `push` extends in place is the class `Store`.
- `renderer.dfy`: the replacement text.
- `localize.dfy`:
  - `Reconcile` gives the whole command as one function of the selection, the catalog and the
    ids drawn.
  - `Localize` is the handler, which updates a `Store` in place; it is proved to do what
    `Reconcile` says.

`crypto.randomUUID().toUpperCase()` is a parameter: `draws` is the sequence of ids that the
generator returns. `draws[0]` is the id drawn on line 53, and the rest are the redraws on
line 69.

Two behaviours of the code are worth knowing; the model follows the code in both:

- The guard does not require the two quotes to match, so `'abc"` is accepted
  (`Selection.GuardExamples`), and a lone `'` is accepted with an empty body.
- The code writes the catalog on every successful path (line 92), and twice on a miss (lines
  83 and 92). File writes are not part of this model; the catalog value the model produces is
  what each of those writes stores.

## Model

| member | source | states |
|---|---|---|
| Selection.IsValidSelection | src/extension.ts:35 | The guard as the code writes it, with its negations; what it accepts is stated by ValidSelectionIff and GuardExamples. |
| Selection.ValidSelectionIff | src/extension.ts:35 | The guard, as written with its negations, accepts a selection exactly when it is non-empty and its first and last characters are each `'` or `"`. |
| Selection.GuardExamples | src/extension.ts:35 | Mismatched quotes (`'abc"`, `"abc'`) and a lone `'` pass the guard; the empty string, unquoted text and `'open` do not. |
| Selection.Body | src/extension.ts:55 | `slice(1, -1)`: for two or more characters, the selection is its first character, then the body, then its last character. For at most two characters the body is empty. |
| Text.Slice | src/extension.ts:55 | `slice` with a negative end counts from the end, and with in-range indices it is the plain subsequence; the result is never longer than the string. |
| Extractor.BraceAt | src/extension.ts:56 | The length of the `\$\{[^}]+\}` match at an index, or 0: a match is at least four characters (`$`, `{`, one character, `}`) and lies inside the text. BraceAtIsBraceMatch states that it is the match. |
| Extractor.BareAt | src/extension.ts:56 | The length of the `\$\S+` match at an index, or 0: a match is at least two characters and lies inside the text. BareAtIsBareMatch states that it is the greedy match. |
| Extractor.MatchAt | src/extension.ts:56 | The length of the pattern's match at an index, or 0, with the brace form tried first; a match is at least two characters and lies inside the text. MatchAtIsMatch states that it is the match. |
| Extractor.BraceAtIsBraceMatch | src/extension.ts:56 | `\$\{[^}]+\}` at an index: BraceAt returns a match of this shape when it is non-zero, and any such match has the length BraceAt returns, so the match is unique. |
| Extractor.BareAtIsBareMatch | src/extension.ts:56 | `\$\S+` at an index: BareAt returns the greedy match, which ends at white space or at the end, and it is the only one. |
| Extractor.MatchAtIsMatch | src/extension.ts:56 | The whole pattern at an index: either MatchAt is 0, or it is the length of the match made by the first alternative that matches there; every match of the pattern there has that length. |
| Extractor.Scan | src/extension.ts:56 | The pieces the global search splits the body into: a match, or one copied character where there is none. What it does is stated by ScanHead, ScanCoversBody, PlaceholdersFollowMatches and ScanLiteralPrefix. |
| Extractor.ScanHead | src/extension.ts:56 | The global search takes the match at the start as one piece and goes on after it. Where there is no match it copies one character and goes on from the next. Either way the rest is searched as if it stood alone. |
| Extractor.Extract | src/extension.ts:55-64 | The `replace` call: the template and the pushed placeholders are those of the scan of the body. |
| Extractor.ScanCoversBody | src/extension.ts:56-63 | The pieces of the scan spell the body again: nothing is lost, duplicated or reordered. |
| Extractor.PlaceholdersFollowMatches | src/extension.ts:57-62 | One placeholder per match, in the order found and with repeats kept: the i-th placeholder is the i-th match with its sigil cleaned off. |
| Extractor.NoSigilUnchanged | src/extension.ts:56 | A body with no `$` gives itself as the template and no placeholders. |
| Extractor.ScanLiteralPrefix | src/extension.ts:56 | A prefix with no `$` is copied one character at a time, and the rest is scanned as if it stood alone. |
| Extractor.ExtractBrace | src/extension.ts:56-63 | `${X}`, with X non-empty and free of `}`, becomes `{}` and contributes X. |
| Extractor.ExtractBare | src/extension.ts:56-63 | `$T`, with T a non-empty run of non-white-space characters that does not start with `{`, becomes `{}` and contributes T. |
| Extractor.ExtractEmptyBraces | src/extension.ts:56-63 | `${}` is no brace-form match, so the bare form takes it; the clean-up still strips the braces, so it becomes `{}` and contributes the empty placeholder. |
| Extractor.ExtractLoneSigil | src/extension.ts:56 | A `$` followed by white space, or ending the body, is no match: it stays in the template and contributes nothing. |
| Extractor.ExtractTwoBraces | src/extension.ts:56-63 | Two brace-form interpolations around plain text give `{}`, the text, then `{}`, and the placeholders `[x, y]` in that order. |
| Extractor.Desigil | src/extension.ts:57-60 | The clean-up callback: `slice(2, -1)` for text shaped `${...}`, otherwise `slice(1)` after the `$`. What it gives is stated by DesigilBrace, DesigilBare and DesigilBraceShapedBare. |
| Extractor.DesigilBrace | src/extension.ts:59 | A `${X}` match cleans up to X. |
| Extractor.DesigilBare | src/extension.ts:60 | A `$T` match cleans up to T, unless T itself starts with `{` and ends with `}`. |
| Extractor.DesigilBraceShapedBare | src/extension.ts:59 | A bare match of the shape `${...}` loses both braces as well: the clean-up looks at the text, not at the alternative that matched. |
| Catalog.HasId | src/extension.ts:68 | `some(message => message.id === id)` holds exactly when some message has that id. |
| Catalog.FindByTranslation | src/extension.ts:71 | `find` by translation: the index found holds the translation, no earlier message does, and None comes back exactly when no message does. |
| Catalog.FreshId | src/extension.ts:68-69 | The id the retry loop settles on, given the ids drawn; FreshIdIsFresh states that it is a free draw, and FirstFreshDrawIsFirst that it is the first free one. |
| Catalog.FirstFreshDrawIsFirst | src/extension.ts:68-69 | Every draw before the one the loop stops at is taken, and the one it stops at is free. |
| Catalog.FreshIdIsFresh | src/extension.ts:68-69 | The id the loop settles on is one of the draws, and no message has it. None means every draw is taken. |
| Catalog.AllocateId | src/extension.ts:53-69 | The retry loop returns the first free draw, which no message has. |
| Catalog.AppendFreshKeepsUniqueIds | src/extension.ts:77 | Pushing a message whose id no message has keeps the ids pairwise distinct. |
| Catalog.Store.Push | src/extension.ts:77 | `messages.push(m)` appends m and keeps every earlier message. |
| Renderer.Render | src/extension.ts:74 | The replacement starts with the reference `'<id>'.localized` (built by the helper Reference), and it is the bare reference exactly when there are no placeholders. |
| Renderer.RenderSingle | src/extension.ts:74 | With one placeholder the replacement is `'<id>'.localized.format(<placeholder>)`. |
| Renderer.RenderRoundTrip | src/extension.ts:74 | For an id with no quote, reading the replacement back gives the id, plus the `, `-joined placeholders when there are any. |
| Renderer.FormatArgumentsInOrder | src/extension.ts:74 | One more placeholder adds `, ` and itself at the end of the `.format(...)` arguments. |
| Text.Join | src/extension.ts:74 | `join`: the parts in order with the separator between neighbours; JoinAppend states how one more part extends it. |
| Text.JoinAppend | src/extension.ts:74 | `join(', ')` of a list extended by one element is the old join, then the separator, then the element. |
| Localize.Reconcile | src/extension.ts:35-80 | The whole command as one function of the selection, the catalog and the ids drawn. Its meaning is stated by ReconcileRejectsIff, ReconcileHit, ReconcileMiss, ReconcileKeepsUniqueIds, ReconcileUsesBody, BraceAtEndMiss, BraceAtEndHit and the two examples, and Localize is proved to follow it. |
| Localize.Localize | src/extension.ts:35-80 | The handler returns what Reconcile says and leaves the store holding Reconcile's catalog. On a refusal or an error, the store is left unchanged. |
| Localize.ReconcileRejectsIff | src/extension.ts:35-38 | The command refuses exactly the selections that are not quote-delimited. |
| Localize.ReconcileHit | src/extension.ts:71-75 | On a hit, the catalog is unchanged. The replacement refers to the first message whose translation is the template, and it carries the new call's placeholders. |
| Localize.ReconcileMiss | src/extension.ts:76-81 | On a miss, one message (fresh id, template) is appended. No earlier message has that id or that translation. |
| Localize.ReconcileKeepsUniqueIds | src/extension.ts:67-77 | From a catalog with distinct ids, the catalog after the command still has distinct ids. It is either the same catalog or the same catalog with one message appended at its end. |
| Localize.QuotedBraceAtEnd | src/extension.ts:35-64 | A selection `'<pre>${x}'`, with no `$` in pre and x non-empty and free of `}`, passes the guard, gets the template `<pre>{}`, and has x as its one placeholder. |
| Localize.BraceAtEndMiss | src/extension.ts:35-80 | Against an empty catalog, `'<pre>${x}'` with the draw id stores (id, `<pre>{}`) and becomes `'<id>'.localized.format(<x>)`. |
| Localize.BraceAtEndHit | src/extension.ts:35-80 | Against a catalog holding (id, `<pre>{}`) and with any other id drawn, `'<pre>${x}'` becomes `'<id>'.localized.format(<x>)`, and the catalog is unchanged. |
| Localize.ExampleMiss | src/extension.ts:35-80 | The whole command on `'Hi ${name}'` with an empty catalog and the draw `X`: the catalog becomes the one message (`X`, `Hi {}`), and the selection becomes `'X'.localized.format(name)`. |
| Localize.ExampleHit | src/extension.ts:35-80 | The whole command on `'Hi ${other}'` with a catalog holding (`X`, `Hi {}`): the catalog is unchanged, and the selection becomes `'X'.localized.format(other)`. |
| Localize.ReconcileUsesBody | src/extension.ts:54-55 | For a body with no `$` and a miss, the replacement is the bare reference, and the stored translation is the selection without its quotes. |

## Left out

- The VS Code glue is missing: the active editor, `editor.edit`, the information and error
  messages, `pickFile` with its open dialog, and the `filePath` global it sets. It is user
  interface and global state, with no logic of its own.
- Reading and writing the catalog file (`fs.readFile`, `fs.writeFile`) and their error
  callbacks are missing. This includes the double write on a miss and the write on a hit
  (lines 83 and 92). File input and output are outside the model: `Localize` works on the
  parsed `messages` array.
- `JSON.parse`, `JSON.stringify` and the `Array.isArray(jsonContent.messages)` check are
  missing. The model starts from a well-formed array of `{ id, translation }` entries.
  Entries of any other shape, and fields besides `id` and `translation`, are not modelled.
- `crypto.randomUUID().toUpperCase()` is replaced by the `draws` parameter. Randomness is not
  modelled, and neither is the shape of a UUID.
- Catalog.AllocateId: gives up with `None` (`Failure.NoFreshId`) when the supplied draws run
  out, where the source keeps drawing without bound. A model must be finite. Because the
  source draws before the lookup (line 53), the model gives up on a hit as well.
- Strings are sequences of Unicode code points, where JavaScript uses UTF-16 code units.
  Every position the handler cuts at is next to an ASCII character (`'`, `"`, `$`, `{`, `}`)
  or to white space, and none of these is half of a surrogate pair. So the texts cut out are
  the same under both readings; only lengths and indices differ, and those are not part of
  the result.
- The callback's unused `p1` and `p2` parameters are not modelled.
