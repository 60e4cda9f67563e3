# Inky string core, in Dafny

This project models the string-level core of Inky (`index.ts`). Inky is the
templating engine that rewrites custom e-mail tags such as `<row>`,
`<columns>`, `<button>` and `<spacer>` into table markup. The model covers:

- the `Inky` engine object: its two configuration fields, set once by the
  constructor (`Engine.Inky`);
- the attribute carry-set `getAttrs` (`Attributes`);
- the raw-block shield: `_extractRaws` replaces every `<raw>…</raw>` block
  with a numbered placeholder, and `_reInjectRaws` puts the blocks back
  (`RawShield`, `RawReinject`);
- the void-element passes: `_normalizeVoidElements` and the three passes of
  `_convertSelfClosingTags` (`VoidTags`), and the proof that
  `_normalizeVoidElements` is idempotent on every text (`VoidIdempotence`);
- the column layout of `_makeColumn`: widths, class list, first/last flags,
  expander cell and markup (`Columns`);
- the per-tag templates of `_componentFactory`, its switch, and the
  spacer's two rounds of `util.format` (`Components`);
- the string pipeline of `releaseTheKraken`, with the document tree's
  expansion of custom tags as a parameter (`Engine`).

Each regular expression of the source is modelled as a forward-looking
matcher tried at the start of a suffix. A global `replace` then becomes a
left-to-right scan: where the matcher succeeds, its output replaces the
matched text and the scan resumes after it; elsewhere one character is
copied. Each loop of the source is a method with loop invariants, proved
equal to a recursive reference function. The properties are proved about
those functions.

The model keeps the source's behaviour where it is odd. Three examples:

- The `<inky>` logo closes with `</tr></td>`.
- A missing `up` attribute of a block grid gives the class `up-undefined`.
- The spacer appends its inner HTML after a space, because its second
  `format` call has no placeholder for it.

## Model

| member | source | states |
|---|---|---|
| Attributes.GetAttrs | index.ts:47-63 | the loop's result is the rendering of the carried attributes, one ` key="value"` fragment each, in attribute order |
| Attributes.Lookup | index.ts:543 | `attr(name)` is present exactly when some attribute has that name, and its value is that attribute's |
| Attributes.Carried | index.ts:56-60 | the carried attributes are never more than the element's |
| Attributes.CarriedNotIgnored | index.ts:32-43 | no attribute on the ignore list is ever carried |
| Attributes.CarriedCount | index.ts:56-60 | each attribute not on the ignore list is carried exactly as often as it occurs; ignored ones never |
| Attributes.CarriedIsSubsequence | index.ts:56-60 | the carried attributes keep the element's order |
| TextUtil.Split | index.ts:286 | splitting on a space gives at least one part, and no part holds a space |
| TextUtil.JoinSplit | index.ts:284-290 | joining the parts of a split with the same separator gives the string back |
| TextUtil.JoinAppend | index.ts:284-290 | joining two non-empty lists puts one separator between their joins |
| TextUtil.NatToStringValue | index.ts:556-557 | the decimal text of a width is digits only and denotes that width |
| TextUtil.NatToStringInjective | index.ts:556-557 | different widths give different class names |
| RawShield.MatchAt | index.ts:237 | a raw block found at p starts with `<` at p, and its inner text lies strictly inside it |
| RawShield.FindFromIsMatch | index.ts:237-238 | the block the search returns is a raw block |
| RawShield.FindFromLeftmost | index.ts:237-238 | no raw block starts before the one returned; when none is returned there is none at all |
| RawShield.Placeholder | index.ts:240 | a placeholder `###RAW<i>###` starts with `#`, is at least seven characters long and holds no `<` |
| RawShield.ReplaceLowersAngles | index.ts:238-242 | each replacement removes at least one `<`, so the loop ends |
| RawShield.ReplaceKeepsNoMatch | index.ts:240 | replacing the leftmost block by a placeholder creates no raw block that starts before the placeholder ends |
| RawShield.ExtractLoopShielded | index.ts:238-242 | the loop from any state equals the leftmost-block decomposition of the remaining text |
| RawShield.ExtractIsShielded | index.ts:231-245 | the loop returns the text with the i-th block replaced by `###RAW<i>###`, and the i-th inner text as raws[i] |
| RawShield.ExtractLeavesNoBlock | index.ts:238 | no raw block is left in the returned text |
| RawShield.ExtractRaws | index.ts:231-245 | the method returns the shielded text and the inner texts in block order, and leaves no raw block |
| RawReinject.IndexFromLeftmost | index.ts:250 | the search for a placeholder finds its first occurrence |
| RawReinject.IndexOfAfterHashFree | index.ts:250 | after a text without `#`, a placeholder is found exactly where it was put |
| RawReinject.ReInjectRaws | index.ts:247-253 | the loop replaces placeholders 0, 1, 2, … in turn, each by its raw text taken literally |
| RawReinject.RoundTripFrom | index.ts:247-253 | from any placeholder k on, putting the blocks back restores the stripped text |
| RawReinject.RawRoundTrip | index.ts:231-253 | for text without `#`, shielding then putting back gives the text with each raw block's tags removed and its contents kept verbatim |
| RawReinject.ExpandLiteral | index.ts:250 | a replacement text without `$` is inserted unchanged |
| RawReinject.ReplaceLiteral | index.ts:250 | with no `$` in the replacement, `String.replace` is a literal first-occurrence replacement |
| RawReinject.AsWrittenAgrees | index.ts:247-253 | while no raw text holds a `$`, the loop as written equals the literal reinjection |
| RawReinject.DollarAmpersandLost | index.ts:247-253 | as written, `<raw>$&</raw>` comes back as `###RAW0###` instead of `$&` |
| VoidTags.InNamesIff | index.ts:174-189 | the recursive membership test agrees with membership in the void list |
| VoidTags.VoidNamesPrefixFree | index.ts:155 | no void name is a proper prefix of another, so the alternation has at most one possible name |
| VoidTags.FirstVoidPrefixOf | index.ts:155 | a void name followed by a non-letter is recognised as exactly that name |
| VoidTags.FirstGtAfter | index.ts:155 | the lazy attribute group ends at the first `>` |
| VoidTags.NormalizeAtVoidTag | index.ts:154-163 | at a void start tag with attributes: no match when its closing tag follows; otherwise the match is kept if the attributes end in `/`, else it gains ` />` |
| VoidTags.NormalizeSelfCloses | index.ts:154-163 | a void start tag with attributes, not self-closed and not followed by its closing tag, becomes `<name attrs />` and the scan goes on after it |
| VoidTags.NormalizeKeepsSelfClosed | index.ts:158-159 | a void start tag whose attributes already end in `/` is left as it is |
| VoidTags.NormalizeVoidStartTag | index.ts:154-162 | `<name attrs>` alone is normalised to `<name attrs />` |
| VoidTags.NormalizeKeepsSelfClosedVoid | index.ts:154-163 | normalising a self-closed void tag changes nothing |
| VoidTags.NormalizeSkip | index.ts:154-163 | text without `<` is copied unchanged by the normaliser |
| VoidTags.CollapsePairedVoid | index.ts:194-199 | a void start tag followed, after optional spaces, by its own closing tag in any case collapses to `<name attrs />` |
| VoidTags.CollapseKeepsUnclosed | index.ts:194-199 | a void start tag with no closing tag after it is not touched by the first pass |
| VoidTags.CollapsePairedSkip | index.ts:194-199 | text without `<` is copied unchanged by the first pass |
| VoidTags.CloseNonVoidSelfClosed | index.ts:217-228 | a self-closing tag `<name attrs/>` is replaced by the third pass's replacement for it |
| VoidTags.CloseNonVoidExpands | index.ts:217-228 | a non-void self-closing tag becomes `<name attrs></name>` |
| VoidTags.CloseNonVoidKeepsVoid | index.ts:219-224 | a void self-closing tag, its name compared lower-cased, is kept as it is |
| VoidTags.CloseNonVoidKeepsSelfClosedVoid | index.ts:217-228 | the third pass leaves `<name attrs />` of a void name unchanged |
| VoidTags.CloseNonVoidSkip | index.ts:217-228 | text without `<` is copied unchanged by the third pass |
| VoidTags.ConvertSelfClosingTags | index.ts:172-229 | the method's three reassignments of `html` compute the three passes in order |
| VoidTags.ConvertNoTag | index.ts:172-229 | text without `<` is unchanged by the conversion |
| VoidTags.ConvertVoidStartTag | index.ts:172-229 | an unclosed void start tag with attributes comes out as `<name attrs />` |
| VoidTags.ConvertKeepsSelfClosedVoid | index.ts:172-229 | a self-closed void tag comes out unchanged |
| VoidTags.ThumbnailExample | index.ts:154-163 | `<img src="…" class="thumbnail">` is normalised to its self-closed form, which the conversion keeps |
| VoidTags.NormalizePlain | index.ts:151-163 | text in which no `<` starts a void name, in any case, is copied unchanged by the normaliser |
| VoidTags.CollapsePlain | index.ts:194-199 | the first pass copies such text unchanged |
| VoidTags.CloseNonVoidPlain | index.ts:217-228 | text without `/>` is copied unchanged by the third pass |
| VoidTags.ConvertPlain | index.ts:172-229 | text with neither a void start tag nor a `/>` is unchanged by the conversion |
| VoidTags.NoVoidTagAppend | index.ts:154 | two texts without void start tags, the first ending in `>` or holding no `<`, join into one without: a name cannot run across a `>` |
| VoidTags.NoSelfClosingAppend | index.ts:218 | two texts without `/>`, the first not ending in `/`, join into one without |
| VoidIdempotence.NormalizeIdempotent | index.ts:151-163 | normalising already normalised text changes nothing: applying the normaliser twice equals applying it once |
| VoidIdempotence.HitKept | index.ts:154-163 | the replacement of a match, followed by the normalised rest, is matched again by the expression and kept as it is |
| VoidIdempotence.MissKept | index.ts:154-163 | where the expression does not match, it does not match the normalised text either |
| VoidIdempotence.NormStarts | index.ts:154 | the normaliser keeps the run of letters a text starts with, so the tag name the alternation recognises is the same before and after |
| VoidIdempotence.VoidPrefixSame | index.ts:154 | two texts starting with the same letters have the same void name at their start |
| VoidIdempotence.ClosedKept | index.ts:154 | the lookahead `(?!\s*<\/name)` gives the same answer on the normalised text as on the text |
| VoidIdempotence.GtSplit | index.ts:154 | the normaliser keeps the first `>` of a text in place and does not move one in front of it |
| VoidIdempotence.NormalizeNoGt | index.ts:154 | text without `>` cannot hold a match and is copied unchanged |
| VoidIdempotence.NormalizeCloseTag | index.ts:154 | a text starting with `</` keeps those two characters and is normalised after them |
| VoidIdempotence.NormalizeHead | index.ts:153-163 | the normaliser keeps the first character of a non-empty text |
| VoidIdempotence.HitShape | index.ts:154-162 | a match is `<name attrs>rest` with a void name, attributes starting with a space and holding no `>`, no closing tag ahead, and replacement `<name attrs />` unless the attributes already end in `/` |
| Columns.MakeColumnClasses | index.ts:541-571 | the pushes build the caller's classes, `small-S`, `large-L`, `columns`, then `first` and `last` as the neighbours dictate |
| Columns.SameWidths | index.ts:548-556 | without a `large` attribute, the `small-` and `large-` classes carry the same width: the `small` attribute when given, the whole grid when the column has no siblings |
| Columns.LargeEvenShare | index.ts:540-553 | with no size attributes, the large width n satisfies n·k ≤ count < (n+1)·k for k columns in the row |
| Columns.NumeralIsCount | index.ts:576 | the decimal text of a number compares equal to that number |
| Columns.FullWidthIffAlone | index.ts:540-553 | with no size attributes and a positive count, the large width equals the count exactly when the column has no siblings |
| Columns.ExpanderAlone | index.ts:575-581 | with no size attributes, the expander is added exactly when the column is alone, has no nested row and no expander is not set to anything but `false` |
| Columns.ClassOrder | index.ts:542-571 | the caller's classes come first, then `small-S`, `large-L` and `columns`, then only `first` and `last` |
| Columns.FirstFlag | index.ts:564-570 | `first` is in the class list exactly when no column precedes or the caller gave it |
| Columns.LastFlag | index.ts:567-571 | the list ends in `last` exactly when no column follows |
| Columns.ClassText | index.ts:584-587 | the class attribute is the caller's class text and a space, when given, then the layout classes |
| Columns.LoneColumn | index.ts:529-588 | a lone column in a 12-column grid gets `small-12 large-12 columns first last` and an expander |
| Components.ClassListText | index.ts:284-290 | a template's class attribute is its base classes, then a space and the caller's `class` text when given |
| Components.Fill | index.ts:501-505 | filling a format string never uses more arguments than given |
| Components.FillPlain | index.ts:463-505 | a format prefix without `%` is copied as it is |
| Components.FormatClosed | index.ts:288-291 | for a format string whose only `%` signs are k `%s` and at least k arguments, `format` gives its pieces interleaved with the first k arguments, then each remaining argument after a space |
| Components.FillNothing | index.ts:501-505 | a format string without `%` uses no argument |
| Components.SpacerFirstRound | index.ts:463-472 | the first round puts the carried attributes in and leaves the class placeholder for the second |
| Components.SpacerSecondRound | index.ts:501-505 | the second round puts the next argument in as the class of the next table |
| Components.OneTable | index.ts:487-505 | one spacer table: the classes go in the table, and the inner HTML follows after a space |
| Components.TwoTables | index.ts:460-503 | small and large tables: the classes go in both tables, and the inner HTML follows after a space |
| Components.SpacerShape | index.ts:453-506 | with no `%` in attributes and sizes, a spacer is its tables with the classes in place, a space and the inner HTML |
| Components.DispatchFromFirst | index.ts:281-526 | from case i on, the first case whose tag is the name is taken, and the default exactly when no case matches |
| Components.DispatchFirst | index.ts:281-526 | the switch takes the first case whose tag is the element's name, and the default exactly when there is none |
| Components.DispatchOwnTag | index.ts:281-521 | when every case has its own tag, each tag selects its own case |
| Components.DefaultsInOrder | index.ts:81-95 | each switch case has a default tag, in switch order |
| Components.DefaultTagsDistinct | index.ts:81-95 | the thirteen default tags are different from each other |
| Components.DefaultsDistinct | index.ts:81-95 | the default tags give every case its own tag |
| Components.ButtonFrame | index.ts:314-352 | a button is the anchor, inside the centring, inside the button tables |
| Components.LinkParts | index.ts:318-332 | with an href the inner HTML is wrapped in the anchor, otherwise left alone |
| Components.CentreParts | index.ts:334-338 | an expanded button's content is wrapped in `<center>` |
| Components.FramedSplice | index.ts:281-521 | a frame holds its inner HTML right after its opening part |
| Components.InnerSpliced | index.ts:259-521 | each framed template puts the inner HTML in verbatim, once, at one spot of the markup it makes for an empty element |
| Engine.ColumnCountOf | index.ts:73 | the column count is the given one when it is positive, else 12; it is always at least 1 |
| Engine.MergeComponents | index.ts:81-98 | the tag map has the default keys and the caller's; the caller's tags win; other defaults stay |
| Engine.Inky.constructor | index.ts:70-99 | the fields are set from the options, and every switch case has a tag |
| Engine.Inky.MakeColumn | index.ts:529-588 | `_makeColumn` returns the column markup for the engine's column count |
| Engine.Inky.ComponentFactory | index.ts:255-527 | `_componentFactory` returns the output of the case the element's name selects |
| Engine.Inky.ReleaseTheKraken | index.ts:105-144 | the pipeline shields raw blocks, normalises void tags, applies the tree step, converts self-closing tags and puts the raw blocks back |
| Engine.DefaultEngineDispatch | index.ts:81-95 | an engine built with no tag names selects, for each default tag, its own case |
| Engine.KrakenPlainTags | index.ts:105-144 | raw content comes through the pipeline unchanged: text without `#` whose text outside the raw blocks has no void start tag and no `/>`, and which the tree step leaves alone, comes back with only the raw tags removed |
| Engine.HeadingsPlain | test/inky.spec.ts:93-98 | the shielded text of the multiple-raw-tags example, `<h1>` and `<h2>` around two placeholders, meets that hypothesis |

## Left out

- The document tree is not modelled: cheerio's parsing, serialisation and
  queries (`$(tags)`, `eq`, `replaceWith`, `siblings`, `prevAll`, `nextAll`,
  `find`, `children`, `$.html`). What `_makeColumn` learns from the tree is
  the `Context` input (sibling count, preceding and following column
  counts, nested row). The expansion of custom tags by the tree is the
  `tree` parameter of `ReleaseTheKraken`.
- The fixed-point loop of `releaseTheKraken` (index.ts:128-132) is left
  out. Whether it makes progress depends on cheerio re-parsing its own
  output.
- The `center` case (index.ts:422-435) changes the live tree. Its output,
  the element's own serialisation (`$.html(element)`, index.ts:434), is the
  `outer` input.
- Components.Other: the default case (index.ts:523-525) is modelled with
  `outer`, the element's own serialisation, inside `<tr><td>…</td></tr>`.
  The source instead calls `element.html(element)`, which is cheerio's
  setter: it makes the element its own child and returns the selection,
  not a string, and `format` then prints that selection. The model gives
  the evidently intended markup, `$.html(element)` as in the `center`
  case, and does not capture what the setter does to the tree or how the
  selection prints. The case is reachable: a tag name such as the extra
  `column` key of test/inky.spec.ts:7 matches no case.
- The `data-parsed` clean-up (index.ts:134-135) and the cheerio options
  are left out.
- The `assert.ok` node-type checks and the missing-name error
  (index.ts:262-279) are left out. They test cheerio's class identities.
- `util.format` is modelled for `%s`, `%%` and appended leftover arguments
  only. Its other specifiers (`%d`, `%j`, `%o`, …) are left out. Every
  template whose arguments match its `%s` count is modelled as plain
  concatenation. This is exact, because `format` does not re-read the
  arguments it inserts.
- Components.SpacerShape: stated only when the carried attributes and the
  sizes hold no `%`. With a `%s` among them, the second round would read it
  as a placeholder.
- JavaScript's number coercion of width attributes is not modelled. A
  `small` or `large` attribute is kept as text. The loose `==` against the
  column count (index.ts:576) holds exactly when the text is a plain
  decimal numeral of that value (`Columns.SizeIs`). A leading zero is accepted, as
  JavaScript accepts `"012" == 12`. Forms such as `" 12"`, `"12.0"` or
  `"0x0c"`, which JavaScript also coerces, are not recognised.
- Engine.ColumnCountOf: the column count is a natural number. Negative,
  fractional and non-numeric counts are not modelled.
- `hasClass` is modelled as a whitespace-delimited occurrence in the
  `class` attribute. The whitespace set is the model's `IsSpace`.
- `Object.assign` with an explicitly `undefined` tag name is not modelled.
  Options map names to strings.
- The `.` of the raw-block expression does not match line terminators,
  and the model follows that. Unicode case folding beyond ASCII is not
  modelled.
- RawReinject.ReInjectRaws: replaces each placeholder literally, which is
  the corrected behaviour in Findings. The loop as written, with `$`
  patterns expanded, is the function `RawReinject.ReinjectAsWritten`.
- RawReinject.RoundTripFrom: stated for text without `#`, for the same
  reason as RawRoundTrip below.
- RawReinject.RawRoundTrip: stated for text without `#`. A raw block
  ending in `###RA` followed by `W1###` in the text would forge a
  placeholder.
- Engine.Inky.ReleaseTheKraken: uses the literal reinjection, which is the
  corrected behaviour in Findings.

## Findings

| source | as written | input that shows it | evidently intended | confidence | as-written member | corrected member |
|---|---|---|---|---|---|---|
| index.ts:250 | `str.replace(placeholder, raws[i])` expands `$&`, `$$`, `` $` `` and `$'` in the raw text | `<raw>$&</raw>`: `$&` stands for the matched placeholder, so the text comes back as `###RAW0###` | raw text is put back verbatim | not executed | RawReinject.DollarAmpersandLost | RawReinject.RawRoundTrip |
