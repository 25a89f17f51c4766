# Parameter identifiers and train-case normalisation

This project models in Dafny the core of the `@iac-factory/parameter` TypeScript package. The package names cloud configuration parameters with a fixed hierarchy:
organization, environment, an optional application, service, identifier.

- `src/train-case.ts` holds the text normaliser.
  - `Case` (also exported as `Lowercase`) turns free text into a lower-case, hyphen-delimited token. It does this in seven rewrite steps:
    1. trim;
    2. underscores to hyphens;
    3. a hyphen at every lower-to-upper boundary;
    4. non-word characters to hyphens, except U+00C0..U+017E;
    5. strip hyphens from both ends;
    6. optionally condense hyphen runs;
    7. lower-case.
  - `Scream` (exported as `Title`) upper-cases the first character of every piece separated by a space, an underscore or a hyphen.
- `src/parameter.ts` holds the `Parameter` record.
  - Its constructor drops an empty application.
  - `string(type, prefix)` renders it in one of three conventions: Directory, Train-Case or Screaming-Train-Case.
  - `enumerations()` counts the segments of the Directory rendering.
  - The static `initialize` parses a `/`-delimited string. Four segments bind the record without an application. Five bind it with one, unless the third segment is empty; then the constructor drops the application. Any other count throws `Parameter-Enumeration-Error`.

## Files

- `wrappers.dfy`: `Option` and `Result`.
- `chars.dfy`: the character classes of the regular expressions (`[a-z]`, `[A-Z]`, `\w`, `[À-ž]`), the `trim` white-space set, and ASCII case mapping.
- `text.dfy`: `split` and `join` on a one-character separator, with their round trip, the length of a join and a separator count.
- `train_case.dfy`: each step of `Case` as its own function, with the pipeline, `Scream`, and the lemmas about them.
  - For steps 3 and 6 and for `Scream`, there is an independent reference definition. The operational definition is proved equal to it.
- `parameter.dfy`: the record, the constructor, rendering, `enumerations`, `initialize`, and their round trips.

Thrown exceptions are modelled as values:
- `Scream` returns `None` where JavaScript would read index 0 of an empty piece and throw a `TypeError`.
- `Render` returns `Err(TypeError)`: `string("Screaming-Train-Case")` throws when the normalised cast is empty, because `Title` reads the first character of an empty piece.
- `Initialize` returns `Err(EnumerationError)` for a segment count other than 4 or 5.

The unit tests describe a few scenarios that the general lemmas here cover:
- `Initialize` binding four or five segments (unit-testing/create-string.test.ts);
- `Enumerations` being 4 or 5 (unit-testing/string.test.ts:50,97,144);
- the Directory rendering splitting into 5 or 4 segments (unit-testing/create-string.test.ts:73,137);
- the Directory round trip.

## Model

| member | source | states |
|---|---|---|
| Chars.ToLower | src/train-case.ts:40 | The result is never an ASCII capital. A capital maps to the lower-case letter whose upper case is the capital. Every other character is unchanged. |
| Chars.ToUpper | src/train-case.ts:12 | The result is never an ASCII lower-case letter. A lower-case letter maps to the capital 32 code points below it. Every other character is unchanged. |
| Chars.LowerOfUpper | src/train-case.ts:12 | Lower-casing undoes upper-casing for every character that is not already an ASCII capital. |
| Text.Split | src/parameter.ts:327 | `split` yields one piece more than the separators in the input, no piece holds the separator, and joining the pieces rebuilds the input. |
| Text.Join | src/parameter.ts:220-223 | `join` of no pieces is empty. Otherwise its length is the total length of the pieces plus one separator per gap. The rest of its behaviour is stated by Text.Split (joining the pieces of a split rebuilds the input), Text.SplitJoin and Text.JoinCount. |
| Text.SplitJoin | src/parameter.ts:220-223 | Splitting a join of separator-free pieces (at least one piece) gives the pieces back. |
| Text.JoinCount | src/parameter.ts:254 | A join holds the separators inside its pieces plus one per gap between pieces. |
| TrainCase.Strip | src/train-case.ts:34-38 | Trimming (white space) or stripping hyphens returns the contiguous slice of the input that follows the longest run of leading padding: everything before and after it is padding, and neither of its ends is. So only the leading and trailing runs are removed. An input already unpadded at both ends is returned unchanged, and an all-padding input becomes empty. |
| TrainCase.Underscores | src/train-case.ts:35 | The length is kept; each underscore becomes a hyphen and every other character stays in place. |
| TrainCase.SplitCamel | src/train-case.ts:36 | The result has no lower-to-upper boundary left, keeps the first character, holds only hyphens and characters of the input, and leaves boundary-free input unchanged. The exact result, one hyphen inserted per boundary and nothing else changed, is stated by TrainCase.SplitCamelHyphenatesEveryBoundary. |
| TrainCase.SplitCamelHyphenatesEveryBoundary | src/train-case.ts:36 | The left-to-right global match equals the position-by-position reference that puts one hyphen inside every lower-to-upper boundary, so no boundary is missed. |
| TrainCase.Scrub | src/train-case.ts:37 | Word characters and U+00C0..U+017E keep their position. Every other character becomes a hyphen. |
| TrainCase.CollapseRuns | src/train-case.ts:39 | Without condensing the string is unchanged. With condensing no `--` is left. Input without `--` is unchanged either way. Emptiness, the first character and the last character are preserved. |
| TrainCase.CondensingDropsRepeatedHyphens | src/train-case.ts:39 | Replacing each match of `-{2,}` by one hyphen equals the reference that deletes every hyphen followed by another hyphen. |
| TrainCase.LowerAll | src/train-case.ts:40 | The length is kept and every character is mapped through ASCII lower-casing. |
| TrainCase.Tidy | src/train-case.ts:34-37 | After the first four steps only ASCII letters, digits, hyphens and U+00C0..U+017E remain. |
| TrainCase.Case | src/train-case.ts:33-41 | For every input, the result holds only lower-case letters, digits, hyphens and U+00C0..U+017E. It has no hyphen at either end, and it has no `--` when the options condense. `Case("")` is `""`. |
| TrainCase.TokenCharacters | src/train-case.ts:34-40 | A normalised token holds no white space, no underscore and no ASCII capital. |
| TrainCase.CondensedIsUncondensedWithoutRepeats | src/train-case.ts:33-39 | `null` options behave like `{condense: false}`. The default result is the uncondensed result with every repeated hyphen deleted. |
| TrainCase.CaseFixesTokens | src/train-case.ts:33-41 | A token of the expected kind passes through all seven steps unchanged. |
| TrainCase.CaseFixedPoints | src/train-case.ts:33-41 | The strings that `Case` leaves unchanged are exactly the normalised tokens (both directions). |
| TrainCase.CaseIdempotent | src/train-case.ts:33-41 | Normalising twice with the same options gives the same result as normalising once. |
| TrainCase.CaseInterchangeable | src/train-case.ts:34-40 | Two inputs that differ only in which separator stands at each position normalise to the same token. A separator here is a non-word, non-space character outside U+00C0..U+017E, for example `/` versus `-`. |
| TrainCase.CapitalizeAll | src/train-case.ts:11-16 | Mapping the capitaliser over the pieces fails exactly when some piece is empty; otherwise each piece is capitalised in place. |
| TrainCase.ScreamStageSpec | src/train-case.ts:11-13 | One split/capitalise/join stage succeeds exactly when the input is non-empty, does not start or end with the separator and never doubles it. It then equals the position-by-position reference. |
| TrainCase.Scream | src/train-case.ts:10-18 | `Scream("")` throws. A successful result has the input's length. Exactly when it succeeds, and what it equals, is stated by TrainCase.ScreamSpec. |
| TrainCase.ScreamSpec | src/train-case.ts:10-18 | `Scream` succeeds exactly on input that is non-empty, has no separator at either end and no two separators side by side, so `Scream("")` throws. Its result equals the reference that turns every separator into a hyphen and capitalises each piece's first character. |
| TrainCase.TitleOfToken | src/train-case.ts:47 | `Title` of a token succeeds exactly when the token is non-empty and has no `--`. It keeps every hyphen in place, upper-cases only each segment's first character, and lower-casing the result gives the token back. |
| Parameters.Create | src/parameter.ts:159-167 | The application is kept exactly when it is present and non-empty, and then the record is the options unchanged. Every other field is copied as given, including empty ones. |
| Parameters.Fields | src/parameter.ts:212-218 | The collected values come in declaration order: organization, environment, the application when present, service, identifier. There are 5 with an application and 4 without. |
| Parameters.Initialize | src/parameter.ts:322-370 | Parsing succeeds exactly when, after one leading `/` is dropped, the input holds three or four `/`. Otherwise it fails with the enumeration error. On success the record's fields in declaration order are the segments. Four segments bind organization, environment, service and identifier; five also bind the application as the third. The application is present exactly when there are five segments and the third is non-empty; an empty third segment is dropped. |
| Parameters.InitializeLeadingSlash | src/parameter.ts:323-325 | Only one leading `/` is stripped: for input not starting with `/`, prefixing one does not change the parse. |
| Parameters.InitializeDoubleSlash | src/parameter.ts:323-327 | After `//` the first slash is stripped and the second opens an empty first segment, so a successful parse has an empty organization (as for `//a/b/c/d`). |
| Parameters.InitializeDropsEmptyApplication | src/parameter.ts:341-348 | Five segments with an empty third one parse to a record without application, whose `enumerations()` is 4. |
| Parameters.Enumerations | src/parameter.ts:253-255 | `enumerations()` is the number of collected values plus every `/` inside them, so it is never below 4. Parameters.EnumerationsCount gives the values 4 and 5 for slashless fields. |
| Parameters.EnumerationsCount | src/parameter.ts:253-255 | `enumerations()` is the number of collected values plus every `/` inside them. Without such slashes it is 5 with an application and 4 without. |
| Parameters.Render | src/parameter.ts:212-241 | Only the Screaming-Train-Case type can throw, and then only with `TypeError`; every other type string renders. What each convention renders is stated by Parameters.OtherConventionsRenderAsDirectory, Parameters.TrainCaseRender and Parameters.ScreamingRender. |
| Parameters.OtherConventionsRenderAsDirectory | src/parameter.ts:212-240 | Directory, and any type string other than the two train-case constants, renders as the raw `/`-joined values behind a non-empty prefix. The values are not normalised, so the rendering parses back to the record when no value holds `/`, the application is absent or non-empty, and either the prefix is `/` or it is absent (or empty) and the organization is non-empty. Any other prefix is glued onto the organization by the parse. |
| Parameters.TrainCaseRender | src/parameter.ts:220-240 | The Train-Case rendering is the prefixed condensed normalisation of the `/`-joined values. That cast is a condensed token and is unchanged by normalising again. |
| Parameters.ScreamingCast | src/parameter.ts:220-233 | Normalising the `-`-joined values gives the same cast as normalising the `/`-joined values. |
| Parameters.ScreamingRender | src/parameter.ts:220-240 | The Screaming-Train-Case rendering throws exactly when the cast is empty. Otherwise it is the prefixed cast with each segment's first character upper-cased, and lower-casing that gives the cast back. |
| Parameters.ScreamingIsTitleOfTrainCase | src/parameter.ts:233-237 | Without a prefix, Screaming-Train-Case is `Title` of the Train-Case rendering, including when it throws. |
| Parameters.InitializeRender | src/parameter.ts:212-255 | Round trip. Parsing the Directory rendering recovers the record when three conditions hold: no value contains `/`; the application is absent or non-empty; either the prefix is `/`, or it is absent (or empty) and the organization is non-empty. The rendering then has 5 segments with an application and 4 without. |
| Parameters.RenderInitialize | src/parameter.ts:322-348 | Round trip the other way. Unless five segments leave the application empty, the parsed record's fields are exactly the segments, and its Directory rendering is the input without its leading `/`. |

## Left out

- The `debug` argument of `initialize` and its `console.debug` calls are left out. They only print.
- The text of the enumeration error message is left out; only the kind of error is modelled.
- Chars.ToLower: maps only ASCII. `toLowerCase` also maps non-ASCII letters, and some expand to two characters. That case mapping comes from Unicode tables that are not part of this model.
- Chars.ToUpper: maps only ASCII, for the same reason; `toUpperCase("ß")` is `"SS"` in JavaScript.
- Characters are Unicode scalar values, not UTF-16 code units, so surrogate halves are not modelled. Only step 4 of `Case` behaves differently. In `Scream`, `[0]` of a piece that starts with an astral character is a lone high surrogate, which `toUpperCase` leaves unchanged, and `slice(1)` restores the rest, just as the model's `ToUpper` leaves such a character unchanged. Step 4's `/\W/g` has no `u` flag, so it replaces each half of an astral character separately: in JavaScript `Case("a😀b", {condense: false})` is `"a--b"`, whereas the model gives `"a-b"`.
- `Object.keys`/`Reflect.get` reflection is replaced by the explicit declaration-order list `Fields`. Every field is modelled as a string, so the "value is not undefined" filter matters only for the application.
- `format()` returns the record itself, an identity that adds nothing to model.
- The aliases `Lowercase` (of `Case`) and `Title` (of `Scream`) and the re-exports of `src/index.ts` are the same functions under other names.
- The `prefix` argument of `string` is typed `"/"` but used only through truthiness, so it is modelled as any optional string, prepended when non-empty.
