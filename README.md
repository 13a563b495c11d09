# ReplaceMissingSymbolsStep, modelled in Dafny

This project models the missing-symbol resolution step of a PHP
TypeScript transformer (`src/Steps/ReplaceMissingSymbolsStep.php`). Earlier
steps turn each PHP type into TypeScript text (`transformed`). Where that
text refers to a type they could not resolve, they leave a placeholder
`{%<symbol>%}` and record the symbol in `missingSymbols`. This step visits
every type in the collection. For each type it builds a replacement map,
keyed by missing symbol:

- a symbol that is not in the collection maps to `any`;
- a symbol found as a non-inline type maps to that type's TypeScript name;
- a symbol found as an inline type gets no entry.

It then applies the map entries one after another to `transformed`, each
with PHP's `str_replace`.

Files and modules:

- `str_replace.dfy` (`StrReplace`): `ReplaceAll`, the model of
  `str_replace` for one search string. It scans left to right, replaces
  non-overlapping matches and never scans inserted text again.
  `Split`/`Join` (PHP's `explode`/`implode`) describe it a second way:
  `ReplaceAll` is `Join` of the pieces `Split` leaves. `Split` follows the
  same scan, so this is a characterisation rather than an independent
  definition. What pins the scan down is proved about the pieces: they
  restore the text when joined with the pattern, none of them contains
  the pattern, and no match starts inside a piece before the match that
  follows it, so every cut is at the leftmost match.
- `ordered_map.dfy` (`OrderedMaps`): a PHP array used as a string
  dictionary. It keeps keys in first-insertion order, and assigning to an
  existing key keeps that key's position.
- `structures.dfy` (`Structures`): the `Type` class and the `Collection`
  class with `Find`.
  - `Type` has a mutable `transformed` field. Its `symbol`, `isInline`,
    `missingSymbols` and `typescriptName` are constants.
  - `typescriptName` stands for `getTypescriptName()`. It is fixed per entry
    and does not depend on `transformed`.
- `replace_missing_symbols_step.dfy` (`ReplaceMissingSymbolsStep`): the
  methods `ResolveMissingSymbols` and `Execute`, each with the source's two
  loops or its single loop. They are proved against the specification
  functions `ReplacementMap`, `ApplyAll` and `ResolvedText`. The lemmas
  state what the map holds and what each step of the substitution does.
- `placeholders.dfy` (`Placeholders`): what the step does to a well-formed
  text, one made of literal pieces and placeholders.
  - Literal text contains no `%`.
  - Placeholder symbols contain neither `%` nor `{`.
  - On such a text, the whole step equals filling each placeholder on its
    own (`ResolveTemplate`). It leaves no placeholder of a resolved symbol
    behind, and running it twice gives the same text as running it once.

Where the step's intended reading and the code differ, the model follows
the code:

- Substitution is not recursive within one `str_replace`. Across symbols,
  however, the entries are applied in sequence, so a later entry can
  rewrite text an earlier one inserted. There are two ways:
  - an entry's value, a TypeScript name, itself contains the placeholder
    of a later key (`LaterEntryRewritesEarlierReplacement`);
  - on a text that is not well formed, the text around an inserted plain
    name completes a placeholder: with `s1` named `s2` and `s2` unknown,
    `{%{%s1%}%}` becomes `{%s2%}` and then `any`
    (`SurroundingTextCompletesPlaceholder`).
- On a text that is not well formed, the placeholder of a resolved symbol
  can survive the step: with `s` named `s`, `{%{%s%}%}` becomes `{%s%}`
  (`ResolveNotIdempotentInGeneral`).
- An inline symbol gets no entry, but another entry's match that overlaps
  its placeholder can still consume it. Two ways are proved:
  - both placeholders end together, the other symbol being `h%}{%s`
    (`InlinePlaceholderConsumedByOtherEntry`);
  - the other symbol ends in `{`, so its placeholder ends inside the inline
    one: `{%a{%}%}` with the unknown `a{` and the inline `}` becomes `any%}`
    (`InlinePlaceholderOverlappedAtBrace`).
  In general such an overlap needs one of the two symbols to contain `{`,
  or both placeholders to start at the same position with one symbol
  containing `%}`.
- Placeholders of inline types are left in the text literally. They are
  not turned into `any` (`InlineSymbolHasNoEntry`, `ResolveTemplate`).
- The step is idempotent only on well-formed texts. On a text such as
  `{%{%A%}%}` with an entry `A` named `A`, one run leaves `{%A%}` and a
  second run leaves `A` (`ResolveNotIdempotentInGeneral`, for any symbol
  without `{`).

## Model

| member | source | states |
|---|---|---|
| `ReplaceMissingSymbolsStep.Execute` | src/Steps/ReplaceMissingSymbolsStep.php:10-18 | returns the same collection, with the same entries in the same order, still keyed by distinct symbols; every entry's `transformed` becomes the resolved text of its own previous `transformed`, under the lookups of the whole collection |
| `ReplaceMissingSymbolsStep.ResolveMissingSymbols` | src/Steps/ReplaceMissingSymbolsStep.php:20-47 | returns the same `Type` object; only `transformed` changes, and it becomes the result of applying the replacement map built from `missingSymbols`, entry by entry, in key order |
| `ReplaceMissingSymbolsStep.ReplacementMap` | src/Steps/ReplaceMissingSymbolsStep.php:22-36 | the map built by the first loop is a valid ordered map: each key is listed once and has exactly one value |
| `ReplaceMissingSymbolsStep.ReplacementMapEntries` | src/Steps/ReplaceMissingSymbolsStep.php:24-36 | a symbol is a key exactly when it is a missing symbol that is unknown or found non-inline; its value is `any` or the found entry's TypeScript name |
| `ReplaceMissingSymbolsStep.ReplacementMapOrder` | src/Steps/ReplaceMissingSymbolsStep.php:24-36 | keys are ordered by their first appearance in `missingSymbols`; a repeated symbol keeps its first position |
| `ReplaceMissingSymbolsStep.UnknownSymbolMapsToAny` | src/Steps/ReplaceMissingSymbolsStep.php:25-30 | a missing symbol that `find` does not return is a key, mapped to `any` |
| `ReplaceMissingSymbolsStep.NonInlineSymbolMapsToName` | src/Steps/ReplaceMissingSymbolsStep.php:33-35 | a missing symbol found as a non-inline entry is a key, mapped to that entry's TypeScript name |
| `ReplaceMissingSymbolsStep.InlineSymbolHasNoEntry` | src/Steps/ReplaceMissingSymbolsStep.php:33-36 | a symbol found as an inline entry is never a key, so its placeholder is never replaced by an entry of its own (on well-formed texts it is left in place, see `ResolveTemplate`) |
| `ReplaceMissingSymbolsStep.InlinePlaceholderConsumedByOtherEntry` | src/Steps/ReplaceMissingSymbolsStep.php:24-43 | on a text that is not well formed, another entry can still consume an inline placeholder: for an inline `s` and an unknown `h%}{%s`, the text `{%h%}{%s%}` contains `{%s%}` and the step turns it into `any` |
| `ReplaceMissingSymbolsStep.NothingReplacedLeavesTextUnchanged` | src/Steps/ReplaceMissingSymbolsStep.php:22-44 | when no missing symbol gets an entry (in particular when `missingSymbols` is empty), the text is unchanged |
| `ReplaceMissingSymbolsStep.ReplacedAtItsStep` | src/Steps/ReplaceMissingSymbolsStep.php:38-43 | every symbol that gets an entry is replaced at some step. That step splits the current text at the placeholder's matches into pieces that contain no such placeholder and rejoins them with the replacement |
| `ReplaceMissingSymbolsStep.InlinePlaceholderOverlappedAtBrace` | src/Steps/ReplaceMissingSymbolsStep.php:24-43 | on a text that is not well formed, an unknown symbol ending in `{` consumes the start of an inline placeholder: with inline `}` and unknown `a{`, the text `{%a{%}%}` contains `{%}%}` and the step turns it into `any%}` |
| `ReplaceMissingSymbolsStep.LaterEntryRewritesEarlierReplacement` | src/Steps/ReplaceMissingSymbolsStep.php:20-47 | entries are applied in sequence: when `s1` is found non-inline with the name `{%s2%}` and `s2` is unknown, the step turns `{%s1%}` into `any` |
| `ReplaceMissingSymbolsStep.Token` | src/Steps/ReplaceMissingSymbolsStep.php:40 | the placeholder starts with `{%`, ends with `%}`, has the symbol between them and is four characters longer than it |
| `ReplaceMissingSymbolsStep.Replacement` | src/Steps/ReplaceMissingSymbolsStep.php:25-35 | a lookup gives no replacement exactly when it finds an inline entry; an unknown symbol gives `any`, a non-inline entry its TypeScript name |
| `ReplaceMissingSymbolsStep.ApplyAll` | src/Steps/ReplaceMissingSymbolsStep.php:38-44 | applying the entries in turn leaves a text that contains none of their placeholders unchanged |
| `ReplaceMissingSymbolsStep.ResolvedText` | src/Steps/ReplaceMissingSymbolsStep.php:20-47 | the step leaves a text that contains no placeholder of any missing symbol unchanged |
| `ReplaceMissingSymbolsStep.FirstIndex` | src/Steps/ReplaceMissingSymbolsStep.php:24 | the position of a symbol's first appearance: below the length exactly when the symbol occurs, and no earlier occurrence |
| `OrderedMaps.OrderedMap.Put` | src/Steps/ReplaceMissingSymbolsStep.php:28-34 | `$missingSymbols[$symbol] = …`: the key gets the new value and the other keys keep theirs; an existing key keeps its position, a new key is appended; validity is preserved |
| `Structures.FindIn` | src/Steps/ReplaceMissingSymbolsStep.php:25 | a found entry belongs to the collection and carries the symbol; nothing is found exactly when no entry carries the symbol |
| `Structures.Collection.Find` | src/Steps/ReplaceMissingSymbolsStep.php:25 | `find($symbol)`: same contract, over the collection's entries |
| `StrReplace.ReplaceAll` | src/Steps/ReplaceMissingSymbolsStep.php:39-43 | `str_replace` with a replacement as long as the placeholder keeps the text's length; with a longer one it never shortens the text |
| `StrReplace.NoMatchUnchanged` | src/Steps/ReplaceMissingSymbolsStep.php:39-43 | `str_replace` leaves a text with no match of the placeholder unchanged |
| `StrReplace.ReplaceAllIsJoinOfSplit` | src/Steps/ReplaceMissingSymbolsStep.php:39-43 | `str_replace` equals splitting at the matches and joining with the replacement; the pieces do not depend on the replacement, so inserted text is never scanned again |
| `StrReplace.SplitJoinRoundTrip` | src/Steps/ReplaceMissingSymbolsStep.php:39-43 | joining the pieces with the placeholder itself restores the text, so the pieces and matches cover it exactly |
| `StrReplace.SplitPiecesAreFree` | src/Steps/ReplaceMissingSymbolsStep.php:39-43 | every match is consumed: no piece between matches contains the placeholder |
| `StrReplace.SplitTakesLeftmostMatches` | src/Steps/ReplaceMissingSymbolsStep.php:39-43 | the scan cuts at the leftmost match each time: no match starts inside a piece before the match that follows it |
| `StrReplace.ReplaceAllLength` | src/Steps/ReplaceMissingSymbolsStep.php:39-43 | each replacement changes the length by the length of the replacement minus that of the placeholder |
| `StrReplace.ReplaceAllByItself` | src/Steps/ReplaceMissingSymbolsStep.php:39-43 | replacing a placeholder by itself leaves the text unchanged |
| `StrReplace.UnchangedByLongerMeansNoMatch` | src/Steps/ReplaceMissingSymbolsStep.php:39-43 | if a strictly longer replacement changes nothing, the text has no match |
| `Placeholders.ReplaceInTemplate` | src/Steps/ReplaceMissingSymbolsStep.php:39-43 | on a well-formed text, one `str_replace` of a symbol's placeholder fills exactly that symbol's placeholders, whatever the replacement text |
| `Placeholders.TokenMismatch` | src/Steps/ReplaceMissingSymbolsStep.php:40 | the placeholder of one `%`-free symbol never matches at the start of another's |
| `Placeholders.ApplyAllInTemplate` | src/Steps/ReplaceMissingSymbolsStep.php:38-44 | on a well-formed text, applying entries in sequence fills the placeholders of every applied key with its value |
| `Placeholders.ResolveTemplate` | src/Steps/ReplaceMissingSymbolsStep.php:20-47 | on a well-formed text, the step fills each placeholder on its own: an unknown missing symbol becomes `any`, a non-inline one becomes the entry's name, and an inline or non-missing one is left as it is |
| `Placeholders.NoResolvedPlaceholderLeft` | src/Steps/ReplaceMissingSymbolsStep.php:24-44 | on a well-formed text, no placeholder of a symbol that got an entry remains after the step |
| `Placeholders.ResolveIdempotentOnTemplates` | src/Steps/ReplaceMissingSymbolsStep.php:20-47 | on a well-formed text, a second run of the step changes nothing |
| `Placeholders.ResolveNotIdempotentInGeneral` | src/Steps/ReplaceMissingSymbolsStep.php:38-44 | on a text that is not well formed, for an entry `s` named `s` (no `{` in `s`), a resolved placeholder survives and a second run changes the result: `{%{%s%}%}` becomes `{%s%}`, then `s` |
| `Placeholders.SurroundingTextCompletesPlaceholder` | src/Steps/ReplaceMissingSymbolsStep.php:20-47 | on a text that is not well formed, with `s1` named `s2` and `s2` unknown, the step turns `{%{%s1%}%}` into `any`: the second entry rewrites the placeholder that text around the first replacement forms |
| `Placeholders.ReplaceNestedPlaceholder` | src/Steps/ReplaceMissingSymbolsStep.php:39-43 | `str_replace` of `{%s%}` by `v` in `{%{%s%}%}` gives `{%v%}` when `s` has no `{` |

## Left out

- The `Collection` class is not part of this model. It is modelled as a sequence of entries with a first-match `Find`. `Execute` requires its keyed-container invariant and keeps it: no two entries share a symbol, so no entry is listed twice. The constructor establishes it from a list of distinct symbols.
- How `Collection::map` writes results back is not part of this model. `Execute` writes each returned entry back at its own position.
- How `Type::getTypescriptName()` computes a name is not part of this model. It is the constant `typescriptName`, fixed per entry.
- PHP array-key coercion (numeric-string symbols becoming integer keys) is not modelled. Symbols are strings throughout.
- `str_replace` with array arguments, and with an empty search string, is not modelled. The step always passes one non-empty placeholder.
- The other steps of the pipeline (discovering classes, per-type transformers, writing and formatting the output file) are outside this step.
- The `Placeholders` theorems cover only well-formed texts. Literal text must have no `%`, and placeholder and missing symbols and entry names must have no `%` (placeholder symbols no `{` either). Outside that, only the general `StrReplace` and `ReplaceMissingSymbolsStep` lemmas apply.
