# Anki template filling, furigana and CrowdAnki decks in Dafny

This project models the templating engine of an Anki deck renderer, with its proofs.

A note's card template is HTML with directives such as `{{Front}}`, `{{#Tags}}…{{/Tags}}`, `{{hint:Extra}}` and `{{furigana:Reading}}`. `fillAnkiTemplate` rewrites the template once per field of the note, in the note's field order. Each field goes through a fixed chain of five passes:

1. conditional sections;
2. hints;
3. audio, which rewrites the field's value and not the card;
4. plain substitution;
5. furigana.

The filled card is then finished once: `</br>` and `</hr>` are dropped, `<br>` and `<hr>` are written as `<br/>` and `<hr/>`, HTML entities are decoded, and `<script>` blocks are deleted.

The furigana pass calls `convertAnkiFuriganaToRuby`. It turns `漢字[かんじ]` annotations that start at the beginning of the text or after whitespace into `<ruby>` markup, and then deletes every ASCII space.

The deck side collapses a deck in the CrowdAnki export format into the program's own deck shape. Each note is paired with the note model its uuid names. Its positional field values are keyed by the model's field names, as `_.fromPairs` does.

Modules:

- `Strings` (`strings.dfy`): the scanners the engine's regular expressions and string methods amount to.
  - `ReplaceAll` models `replaceAll` with a literal pattern.
  - `DeleteLazy` models a shortest `open.*?close` block under the `s` flag.
  - `DeleteGreedy` models a longest `open.*close` block.
  - `ReplaceFirst` models `replace` with a string pattern.
  - `Trim` models JavaScript's `trim`.
- `Japanese` (`japanese.dfy`): the two character classes and the annotator.
- `Fields` (`fields.dfy`): the five passes, the finishing chain, and `fillAnkiTemplate`. `fillAnkiTemplate` is written as a method whose loop is proved against the fold `FoldFields`.
- `Records` (`records.dfy`): objects with string keys, kept in insertion order, and `_.fromPairs`.
- `Anki` (`anki.dfy`): the types of the program's deck. They have no behaviour.
- `CrowdAnki` (`crowdanki.dfy`): the export format and `collapseCrowdAnkiDeck`.

## How the code behaves

Several behaviours of the code are easy to misread. The model follows the code in each one, and a lemma pins the behaviour down:

- **The furigana pass uses the audio-rewritten value.** `{{furigana:N}}` is replaced by the ruby markup of the value after the audio pass, not of the raw value (`Fields.FuriganaGetsAudioValue`).
- **Two sound references on one line merge into one.** The audio pattern `\[sound:(.*)\]` is greedy and does not cross a line break. So `[sound:a][sound:b]` on one line makes one `<audio>` element whose file is `a][sound:b` (`Fields.AudioSameLine`). References on separate lines give one element each (`Fields.AudioSeparateLines`).
- **Whitespace before an annotation is kept.** The furigana pattern tests for the whitespace with a lookbehind, so the whitespace is not consumed (`Japanese.AnnotateAfterWhitespace`).
- **Directives of absent fields stay as literal text.** This includes conditional markers, which are not treated as a blank field. Only the note's own fields are visited (`Fields.MarkerUntouched`).
- **A value that holds a directive is expanded again.** The plain pass copies the value into the card, and the furigana pass then rewrites any `{{furigana:N}}` the value carried. Later fields in the fold rewrite directives of their own that an earlier value brought in. So `{{N}}` with the value `{{furigana:N}} a` becomes the ruby conversion of that value followed by ` a`, not the value itself (`Fields.ValueReexpanded`). The lemmas about single directives therefore assume values without `{`.
- **The finishing chain is not idempotent.** `fixBr` turns `<</br>/br>` into `</br>`, and a second run deletes that too (`Fields.FixBrNotIdempotent`). The script pass on its own is idempotent (`Fields.RemoveScriptTagsIdempotent`).

## Model

| member | source | states |
|---|---|---|
| Fields.FlattenFieldConditionals | fields.ts:78-93 | the conditional pass itself; it has no contract of its own, and the lemmas in the rows below state what it does |
| Fields.ConditionalSections | fields.ts:78-93 | on `{{#N}}x{{/N}}{{^N}}y{{/N}}`, the pass keeps `x` when the value is non-blank after `trim()` and `y` when it is blank, for any `x` and `y` that hold no `{{#N}}`, `{{^N}}` or `{{/N}}`, whatever other directives they hold |
| Fields.PositiveSection | fields.ts:78-93 | a lone `{{#N}}x{{/N}}` becomes `x` for a non-blank value and nothing for a blank one, for `x` without section markers of `N` |
| Fields.NegativeSection | fields.ts:78-93 | a lone `{{^N}}x{{/N}}` becomes `x` for a blank value and nothing for a non-blank one, for `x` without section markers of `N` |
| Fields.FieldInSection | fields.ts:78-93 | `{{#N}}{{N}}{{/N}}` becomes `{{N}}` for a non-blank value and nothing for a blank one |
| Fields.HiddenNegated | fields.ts:81 | for a brace-free name and a non-blank value, the shortest `{{^N}}…{{/N}}` block is deleted and the `{{#N}}` section is kept, when the kept section holds no `{{^N}}` and the deleted one no `{{/N}}` |
| Fields.HiddenPositive | fields.ts:86 | for a brace-free name and a blank value, the shortest `{{#N}}…{{/N}}` block is deleted and the `{{^N}}` section is kept, when the deleted section holds no `{{/N}}` and the kept one no `{{#N}}` |
| Fields.DeleteSection | fields.ts:81 | a section is deleted together with both of its markers when its body holds no brace, or holds no `{{/N}}` of a brace-free name |
| Fields.OpenerDropped | fields.ts:83 | for a brace-free name and a brace-free kind other than `/`, the opening marker of a kept section is deleted and its contents stay, when the contents hold no copy of that marker |
| Fields.CloserDropped | fields.ts:84 | the closing `{{/N}}` marker is deleted and the text before it stays, when that text holds no brace at all, or holds no `{{/N}}` of a brace-free name |
| Fields.NoStraddle | fields.ts:81-89 | no directive of a brace-free name starts inside a text that lacks it and ends in a following `{{`, so the scans copy such a text unchanged |
| Fields.ConditionalsUnmentioned | fields.ts:78-93 | a card with no `{{#N}}`, `{{^N}}` or `{{/N}}` goes through the conditional pass unchanged |
| Fields.ConditionalsKeepTag | fields.ts:78-93 | the conditional pass leaves a directive of any other kind (`hint:`, plain, `furigana:`) alone |
| Strings.TrimEmptyIffBlank | fields.ts:79 | `trim()` gives `""` exactly when every character is JavaScript whitespace |
| Strings.DeleteLazyHit | fields.ts:81 | `open`, then `mid`, then `close`, is deleted as one block when that `close` is the first one after `open`, and scanning resumes after it |
| Strings.DeleteLazy | fields.ts:81 | `replaceAll(/open.*?close/gs, "")`; it has no contract of its own, and `Strings.DeleteLazyAbsent` and `Strings.DeleteLazyHit` state what it does |
| Strings.DeleteLazyAbsent | fields.ts:81 | a text without `open` is left as it is |
| Strings.ReplaceAll | fields.ts:68 | `replaceAll` with a literal pattern; it has no contract of its own, and `Strings.ReplaceAllAbsent`, `Strings.ReplaceAllRemoves` and `Strings.ReplaceAllChars` state what it does |
| Strings.ReplaceAllAbsent | fields.ts:74 | a text without the pattern is left as it is |
| Strings.ReplaceAllChars | fields.ts:74 | every output character comes from the input or from the replacement |
| Strings.Trim | fields.ts:79 | `trim()`; `Strings.TrimEmptyIffBlank` states when it gives `""` |
| Fields.HintGetsRawValue | fields.ts:27-31 | for a value without `{`, `{{hint:N}}` becomes the hint element labelled `N`, whose handler text holds the raw value that the audio pass has not touched |
| Fields.HintMarkupNoDoubleBrace | fields.ts:30 | for a name and a value without `{`, the hint element holds no `{{`, so no later pass rewrites it |
| Fields.FlattenFieldHint | fields.ts:27-33 | the hint pass itself; `Fields.HintUnmentioned` and `Fields.HintGetsRawValue` state what it does |
| Fields.HintUnmentioned | fields.ts:27-33 | a card without `{{hint:N}}` is unchanged |
| Fields.AudioRewrite | fields.ts:44-59 | the audio replacement itself, with the callback as a parameter; the Audio rows below state what it does |
| Fields.FlattenFieldAudio | fields.ts:35-61 | the audio pass returns the same card and name; only the value changes |
| Fields.AudioWithoutSound | fields.ts:44-60 | a value with no `[sound:` goes through the audio pass unchanged |
| Fields.AudioRewriteNoSound | fields.ts:44-59 | rewriting with any callback leaves alone a value that has no `[sound:` |
| Fields.LineLength | fields.ts:45 | the first line of a text ends at its first line terminator, or at its end |
| Fields.SoundCapture | fields.ts:45 | a match starting at the front of the text captures up to the last `]` of the first line; without a `]` on that line there is no match |
| Fields.SoundCaptureOf | fields.ts:45 | `[sound:x]` followed by the end of the line captures exactly `x` |
| Fields.AudioMatch | fields.ts:44-46 | `[sound:x]` at the end of a line becomes the callback's markup for `x`, and scanning resumes after it |
| Fields.AudioRewriteNoMatch | fields.ts:44 | a character other than `[` is copied |
| Fields.AudioSingle | fields.ts:44-58 | a value that is one sound reference becomes exactly one piece of markup |
| Fields.AudioSameLine | fields.ts:45 | two references on one line become one piece of markup, which captures everything between the first `[sound:` and the last `]` |
| Fields.AudioSeparateLines | fields.ts:44-45 | references on separate lines become one piece of markup each, in order, with the line break kept |
| Fields.MainAudioAttribute | fields.ts:47 | the attribute slot of the element, between its id and its `src`, holds `name="main-audio"` exactly when `mainAudio` is set |
| Fields.AutoplayAttribute | fields.ts:47 | the attribute slot of the element holds `autoplay` exactly when `mainAudio` is set and `disableAutoplay` is not |
| Fields.DefaultAttributes | fields.ts:42-47 | with the empty options object, the attribute slot holds neither `name="main-audio"` nor `autoplay` |
| Fields.WithoutOptions | fields.ts:114 | without an options callback, each field gets `{}`, and the attribute slot of its elements is a single space |
| Fields.AudioElementParts | fields.ts:47 | the element of a match contains `id="audio-N"`, the attributes, and `src="media/P1"` for the captured `P1` |
| Fields.MarkupStartsWithElement | fields.ts:46-47 | the markup for a match starts with its `<audio>` element |
| Fields.ReplayButtonNoDoubleBrace | fields.ts:48-57 | the replay button holds no `{{` |
| Fields.AudioMarkupNoDoubleBrace | fields.ts:47-58 | for a name and a capture without `{`, the markup of one match holds no `{{`, whatever text without `{{` follows it |
| Fields.MarkupForKeepsBraces | fields.ts:46-58 | the field's callback never creates a `{{` from a capture without braces |
| Fields.AudioRewriteNoDoubleBrace | fields.ts:44-59 | the audio pass introduces no `{{` into a value without braces, so the rewritten value triggers no later directive |
| Fields.FlattenFieldNormal | fields.ts:73-76 | the plain pass itself; `Fields.NormalUnmentioned` and `Fields.PlainGetsAudioValue` state what it does |
| Fields.NormalUnmentioned | fields.ts:73-76 | a card without `{{N}}` is unchanged by plain substitution |
| Fields.PlainGetsAudioValue | fields.ts:16-17 | for a value without `{`, `{{N}}` becomes the value after the audio pass |
| Fields.PlainThenFurigana | fields.ts:16-18 | for a value without `[sound:`, `{{N}}` becomes the value with its own `{{furigana:N}}` directives replaced by the ruby conversion of the value |
| Fields.ValueReexpanded | fields.ts:16-18 | `{{N}}` with the value `{{furigana:N}} a` becomes the ruby conversion of that value followed by ` a`: the inserted directive is expanded again |
| Fields.FlattenFieldFurigana | fields.ts:22-25 | the furigana pass itself; `Fields.FuriganaUnmentioned` and `Fields.FuriganaGetsAudioValue` state what it does |
| Fields.FuriganaUnmentioned | fields.ts:22-25 | a card without `{{furigana:N}}` is unchanged by the furigana pass |
| Fields.FuriganaGetsAudioValue | fields.ts:16-18 | `{{furigana:N}}` becomes `convertAnkiFuriganaToRuby` of the value after the audio pass |
| Fields.FlattenField | fields.ts:10-20 | the five passes in order; `Fields.FlattenFieldUnmentioned`, `Fields.HintGetsRawValue`, `Fields.PlainGetsAudioValue` and `Fields.FuriganaGetsAudioValue` state what it does |
| Fields.FlattenFieldUnmentioned | fields.ts:10-20 | a card with no directive of the field comes out of all five passes unchanged |
| Fields.TagNotInTag | fields.ts:74 | a directive contains another directive only when the two are the same text |
| Fields.NotAddressedNotMentioned | fields.ts:10-20 | a directive the passes of a field do not look for contains none that they do |
| Fields.MarkerUntouched | fields.ts:111-115 | a directive that no field of the note addresses survives the whole fold |
| Fields.FoldFields | fields.ts:111-115 | the loop over the field pairs, as a fold; `Fields.FoldFieldsStep`, `Fields.FoldFieldsAppend`, `Fields.FoldFieldsUnmentioned` and `Fields.MarkerUntouched` state what it does |
| Fields.FoldFieldsStep | fields.ts:113-114 | each further field is flattened into the card produced by the fields before it |
| Fields.FoldFieldsAppend | fields.ts:111-115 | fields are applied in order: folding `a + b` is folding `b` into the result of `a` |
| Fields.FoldFieldsUnmentioned | fields.ts:111-115 | a template that mentions no field of the note is returned as it is |
| Fields.FillAnkiTemplate | fields.ts:106-118 | the loop over the field pairs computes the fold over all fields, in order, followed by `fixBr`, `fixHr`, decode and `removeScriptTags` |
| Fields.FixBr | fields.ts:68 | the result holds no `<br>` |
| Fields.FixBrNotIdempotent | fields.ts:68 | `fixBr("<</br>/br>")` is `</br>`, and `fixBr("</br>")` is empty |
| Fields.FixHr | fields.ts:69 | the result holds no `<hr>` |
| Fields.RemoveScriptTags | fields.ts:63-66 | no `<script>` followed later by a `</script>` is left |
| Fields.RemoveScriptTagsIdempotent | fields.ts:64 | deleting script blocks a second time changes nothing |
| Strings.DeleteGreedy | fields.ts:64 | `replaceAll(/open.*close/gms, "")`; `Strings.DeleteGreedyClean` and `Strings.DeleteGreedyIdempotent` state what it does |
| Strings.DeleteGreedyClean | fields.ts:64 | no `open` with a `close` after it is left |
| Strings.DeleteGreedyIdempotent | fields.ts:64 | a greedy block deletion finds nothing to delete in its own result |
| Fields.Finish | fields.ts:117 | the finished card holds no script block, whatever the decoder returns |
| Fields.StripAnkiSoundFormat | fields.ts:95-97 | `replace("[sound:", "")` then `replace("]", "")`; `Fields.StripSound` and `Fields.StripPlain` state what it does |
| Strings.ReplaceFirst | fields.ts:96 | `replace` with a string pattern; `Strings.ReplaceFirstAt` and `Strings.ReplaceFirstAbsent` state what it does |
| Strings.ReplaceFirstAt | fields.ts:96 | the first occurrence, and only it, is replaced |
| Strings.ReplaceFirstAbsent | fields.ts:96 | without an occurrence nothing is replaced |
| Fields.StripSound | fields.ts:95-97 | `stripAnkiSoundFormat("[sound:x]y")` is `xy` when `x` has no `]` |
| Fields.StripPlain | fields.ts:95-97 | text with no `[sound:` and no `]` is returned as it is |
| Fields.ToHTMLAudio | fields.ts:99-101 | wraps the stripped reference in an `<audio>` element; `Fields.ToHTMLAudioOf` states what it gives |
| Fields.ToHTMLAudioOf | fields.ts:99-101 | `toHTMLAudio("[sound:x]")` is `<audio src="x"></audio>` when `x` has no `]` |
| Strings.ReplaceAllRemoves | fields.ts:68 | `replaceAll(p, r)` leaves no `p` when `r` is at least as long as `p`, starts with the first character of `p`, holds that character nowhere else, and does not start with `p`, as for `<br>` and `<br/>` |
| Japanese.CapturesBracketFree | japanese.ts:1-2 | neither character class contains `[` or `]` |
| Japanese.WhitespaceNotPhrase | japanese.ts:1 | no whitespace character belongs to the phrase class |
| Japanese.ClassRunSpec | japanese.ts:5 | a greedy `(?:…)+` run is the longest prefix of class characters |
| Japanese.MatchAnnotation | japanese.ts:5 | one match of the annotation pattern at the front of the text; `Japanese.MatchSome` and `Japanese.MatchOfText` state what it finds |
| Japanese.MatchSome | japanese.ts:5 | a match spans `phrase[reading]` at the front of the text, with a non-empty phrase of phrase-class characters and a non-empty reading of reading-class characters |
| Japanese.MatchNeedsBracket | japanese.ts:5 | only a text containing `[` can match |
| Japanese.MatchOfText | japanese.ts:5 | `phrase[reading]` with runs from the two classes is matched with exactly those captures |
| Japanese.Before | japanese.ts:10 | `split(c)[0]` is the longest prefix without `c` |
| Japanese.BeforeOf | japanese.ts:10-11 | splitting `a` + `c` + `b` on `c`, where `a` has no `c`, gives back `a` and `b` |
| Japanese.SplitRecoversCaptures | japanese.ts:9-12 | splitting the matched text on `[` and `]` gives back exactly the two captures, and the callback returns `<ruby>P<rt>R</rt></ruby>` |
| Japanese.Annotate | japanese.ts:5-13 | the `replace` with the callback, with the lookbehind as a flag; `Japanese.AnnotateMatch`, `Japanese.AnnotateAfterWhitespace`, `Japanese.AnnotateOffBoundary` and `Japanese.AnnotateKeepsCount` state what it does |
| Japanese.AnnotateMatch | japanese.ts:9-13 | at a boundary, `phrase[reading]` is replaced by its ruby markup, and the rest is scanned after it |
| Japanese.AnnotateAfterWhitespace | japanese.ts:5 | whitespace before an annotation stays in the output, and the annotation is still rewritten |
| Japanese.AnnotateOffBoundary | japanese.ts:5 | text with no whitespace that does not start at a boundary is not rewritten |
| Japanese.NotRewrittenAfterOtherChar | japanese.ts:5 | an annotation right after a character that is neither whitespace nor a phrase character is left as it is |
| Japanese.AnnotateKeepsCount | japanese.ts:9-13 | the replacement keeps the count of every character that is outside the reading class and is not `[`, `]`, `<`, `>` or `/` |
| Japanese.ConvertAnkiFuriganaToRuby | japanese.ts:4-16 | annotation followed by deleting every space; the `Japanese.Convert…` and `Japanese.Example…` rows state what it does |
| Japanese.ConvertHasNoSpace | japanese.ts:15 | the output holds no U+0020 space |
| Japanese.ConvertWithoutBracket | japanese.ts:5-15 | an input without `[` comes back with only its spaces removed |
| Japanese.ConvertKeepsOtherWhitespace | japanese.ts:15 | every whitespace character other than U+0020, such as a newline or tab, keeps its count |
| Japanese.StripRubySpace | japanese.ts:15 | a space inside a reading is dropped from the finished ruby markup |
| Japanese.ExampleTanaka | japanese.ts:4-16 | `田中[たなか]さん` becomes `<ruby>田中<rt>たなか</rt></ruby>さん` |
| Japanese.ExampleSpacedReading | japanese.ts:4-16 | `猫[ね こ]` becomes `<ruby>猫<rt>ねこ</rt></ruby>` |
| Japanese.ExampleNoBoundary | japanese.ts:5 | `>猫[ねこ]` is returned unchanged |
| Records.Get | crowdanki.ts:49 | a key reads as `None` exactly when it is not one of the record's keys; a present key whose value is itself `undefined` (the `Option` value `None`) reads as `Some(None)` |
| Records.Put | crowdanki.ts:46 | assignment `r[k] = v`; `Records.PutGet`, `Records.PutKeys` and `Records.PutUnique` state what it does |
| Records.PutGet | crowdanki.ts:46 | after `r[k] = v`, `k` reads as `v` and every other key reads as before |
| Records.PutKeys | crowdanki.ts:46 | assigning to a present key keeps the key order; a new key goes last |
| Records.PutUnique | crowdanki.ts:46 | assignment never makes a key appear twice |
| Records.FromPairs | crowdanki.ts:46 | `_.fromPairs`, each pair assigned in turn; the `Records.FromPairs…` rows state what it does |
| Records.FromPairsUnique | crowdanki.ts:46 | `_.fromPairs` builds a record with each key once |
| Records.LastValue | crowdanki.ts:49 | the value of the last pair with a key, or none when no pair has that key |
| Records.FromPairsGet | crowdanki.ts:49 | every key of `_.fromPairs` reads as the value of its last pair, so a later duplicate wins |
| Records.FromPairsKeys | crowdanki.ts:49 | the keys of `_.fromPairs` come in the order of their first pair |
| Records.FromPairsDistinct | crowdanki.ts:49 | without duplicate keys, `_.fromPairs` keeps every pair in order |
| Records.FromPairsLength | crowdanki.ts:49 | `_.fromPairs` gives no more entries than it received pairs |
| Records.FromPairsGetAt | crowdanki.ts:49 | a pair with no later pair of the same key gives that key's value |
| Records.FromPairsGetAbsent | crowdanki.ts:46 | a key that no pair has reads as `None`, which stands for JavaScript's `undefined` |
| CrowdAnki.FindModel | crowdanki.ts:40 | the model found is the first whose `crowdanki_uuid` equals the note's `note_model_uuid`; no model is found only when none matches |
| CrowdAnki.FieldNames | crowdanki.ts:44 | `fieldNames` lists each `flds` name, in order |
| CrowdAnki.TemplatePairs | crowdanki.ts:46 | each template becomes the pair of its name and `{front: qfmt, back: afmt}`, in order |
| CrowdAnki.FieldPairs | crowdanki.ts:49 | the field at index `i` is paired with value `i` of the note, or with `undefined` past the end of the values; extra values are dropped |
| CrowdAnki.CollapseCrowdAnkiDeck | crowdanki.ts:38-60 | the collapse; `CrowdAnki.DeckMetadata` and `CrowdAnki.CollapseNotesOk` state what it does |
| CrowdAnki.CollapseNotes | crowdanki.ts:39-52 | the map over the notes; `CrowdAnki.CollapseNotesOk` and `CrowdAnki.CollapseNotesFails` state what it does |
| CrowdAnki.CollapseNote | crowdanki.ts:48-51 | one collapsed note; `CrowdAnki.NoteFieldValue`, `CrowdAnki.NoteFieldKeys` and `CrowdAnki.NoteFieldsDistinct` state what it holds |
| CrowdAnki.CollapseModel | crowdanki.ts:42-47 | one collapsed model; `CrowdAnki.ModelCopied`, `CrowdAnki.TemplateLookup` and `CrowdAnki.TemplateAbsent` state what it holds |
| CrowdAnki.CollapseNotesOk | crowdanki.ts:39-52 | the notes collapse exactly when every note names a model; the output has one note per input note, in order, each made with the first model its uuid names |
| CrowdAnki.CollapseNotesFails | crowdanki.ts:40-43 | a failed collapse reports the uuid of the first note that names no model |
| CrowdAnki.DeckMetadata | crowdanki.ts:54-59 | `media_files` and `name` are copied, `desc` becomes `description`, and the notes keep their number |
| CrowdAnki.NoteFieldValue | crowdanki.ts:49 | field `i` of the model reads as the note's value `i`, or as `undefined`, unless a later field has the same name |
| CrowdAnki.NoteFieldKeys | crowdanki.ts:49 | the note's keys are the model's field names, in the order they first appear |
| CrowdAnki.NoteFieldsDistinct | crowdanki.ts:49 | with distinct field names, the note's fields are exactly the positional pairs |
| CrowdAnki.TemplateLookup | crowdanki.ts:46 | a template name reads as its front and back, unless a later template has the same name |
| CrowdAnki.TemplateAbsent | crowdanki.ts:46 | a name that no template has reads as `None`, which stands for JavaScript's `undefined` |
| CrowdAnki.ModelCopied | crowdanki.ts:42-47 | the model keeps its css, its name, and its field names in order |

## Left out

The following are outside the model, or modelled only under a condition:

- **Entity decoding.** `he.decode` (`fields.ts:71`) comes from a library outside this model. It is a parameter `decode` of the finishing chain, and no property depends on what it does.
- **Replay-button geometry.** The SVG numbers come from `Math.sqrt` (`fields.ts:37-40`). The model writes them as fixed text: the decimal form JavaScript prints for each double. Floating-point arithmetic is not modelled.
- **Inline `onClick` handlers.** The model keeps the handlers of the hint and the replay button as text. What they do in a browser is not modelled.
- **Field names with regular-expression syntax.** The model matches each directive as literal text. This is what the code's regular expression does for a name that satisfies `PlainName`. That excludes names with a metacharacter, and names such as `1` or `2,3`: there the inner braces of `{{1}}` read as a quantifier. The lemmas that need this require `PlainName`.
- Fields.FlattenFieldHint, Fields.FlattenFieldNormal and Fields.FlattenFieldFurigana insert the value literally. JavaScript expands `$&`, `` $` ``, `$'`, `$$` and `$n` in a replacement string, so the model agrees with the code only on values without `$`.
- **How JavaScript orders object keys.** JavaScript lists integer-like keys first, in numeric order. `Records` keeps every key in insertion order.
- **Characters.** A Dafny `char` is one Unicode scalar value. JavaScript strings are UTF-16, so characters outside the Basic Multilingual Plane count as one character here and as two code units there. The furigana pattern carries the `u` flag and works on code points, as the model does.
- **`fromCrowdAnki`** (`crowdanki.ts:62-66`) reads a file and parses JSON. That is I/O and not part of the model.
- **`async`.** `collapseCrowdAnkiDeck` is modelled as a plain function. A `Promise` rejected with a `TypeError` for a note without a model is the `MissingModel` result.
- **The `model: () => model` thunk** of a collapsed note is the model value itself.
- `deck_configurations` and `__type__` (named `deckType`) are carried in the deck datatype. The collapse does not read them.
- The types of `anki.ts` are datatypes with no behaviour. A note's fields are `Option<string>` values, because a model field past the end of the note's values reads as `undefined`.
- `fillAnkiTemplate` takes the field record as its list of pairs, in `toPairs` order. The model does not require the names to be distinct, so it also covers input no record could produce.
