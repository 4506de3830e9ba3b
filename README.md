# HideBox core in Dafny

HideBox is a browser extension that lets a user point at elements of a web
page and hide them for good. It has four pieces of logic that this project
models:

- **Selector generator** (`Selectors`, with `Dom`, `Dynamic`, `Escaping`).
  It derives a CSS selector for a clicked element. Five strategies run in a
  fixed order: unique id, stable attributes, stable classes, structural
  path, position. The first selector that validates is the primary one and
  later ones become up to three fallbacks.
- **Element hider** (`Hider`). It keeps a map from selector to the elements
  hidden for it and a stylesheet of `display: none` rules. It also tracks
  the marker attributes each element carries and an active flag.
- **Content-script session** (`Content`). It holds the selection-mode state
  machine, the set of selected elements, the undo stack of temporary rules,
  click and key dispatch, and the per-domain rule list edits in storage.
- **Background worker** (`Background`) and **popup** (`Popup`). The
  background handles version comparison for migration, rule resolution for
  a tab, snooze expiry, batch saving, import merging, alarms and domain
  statistics. The popup edits the domain's rule list.

`Common` holds shared string and sequence helpers, including JavaScript's
`trim` and a string sort. `Rules` holds the stored rule and domain records
and the key-ordered `domains` store, with dedup-append and the filters.

Modelling choices:

- The document is a finite map of element records (tag, id, classes,
  attributes, parent, children, text).
- CSS selector matching is an oracle `matches: string -> Option<set<ElemId>>`.
  `None` stands for a selector the browser would reject.
- Confidences are integer tenths: 0.9 is `9`.
- The storage object `domains` is a sequence of `(hostname, data)` pairs in
  insertion order, because "the first matching entry" depends on that
  order. `snooze` is a map from hostname to an expiry time.
- The store is passed in and returned as a value. The clock (`now`), fresh
  rule ids, the computed style of an element and whether an active tab
  exists are parameters.
- `ElementHider`, the content-script `Session` and the popup
  `HideBoxPopup` are classes whose methods update their fields. Each
  method's `ensures` ties the new state to a specification function on the
  old state, and lemmas prove what the source promises about those
  functions.
- Loops in the source become Dafny loops with invariants:
  - the strategy loop of `generateSelector`;
  - the nested loops of `generateClassCombinations`;
  - the attribute collection loop;
  - the structural-path walk;
  - the `compareVersions` loop;
  - the hider's loops over rules, elements and stylesheet entries;
  - the batch append of `saveElementRules`;
  - the subdomain scan of `getRulesForDomain`.

Where the code differs from the extension's comments and intended
behaviour, the model follows the code:

- The position strategy with no parent element gives confidence 0.3, not 0.2.
- The background falls back to a parent domain's rules when the exact
  domain's *enabled* list is empty. The content script falls back only when
  the entry is absent. `ResolutionDiffersFromContent` shows a store where
  the two disagree.
- `isValidSelector` checks that the target is among the matches, not that
  the match is unique.
- `"ad-banner-123"` is not a dynamic value: it has only three digits.
- Attribute names are ignored by exact set membership, so `data-vue-x`
  is kept.

## Model

| member | source | states |
|---|---|---|
| Common.RemoveAll | content/element-hider.js:209-223 | deleting every stylesheet entry for a selector keeps exactly the other entries, never grows the sheet and changes nothing when the selector is absent |
| Common.RemoveAllDistinct | content/element-hider.js:209-223 | deleting all entries for a selector keeps a duplicate-free sheet duplicate-free |
| Common.NatToStringRoundTrip | popup/popup.js:358-361 | the decimal text of a count consists of digits whose value is that count |
| Common.TrimCharacterization | content/selector-generator.js:386 | `trim` returns the slice left after removing only white space from both ends; the result neither starts nor ends with white space, and trimming twice is trimming once |
| Common.SortStrings | content/selector-generator.js:134-136 | the class list `.sort()` returns a sorted permutation of its input |
| Rules.IndexOfKey | popup/popup.js:120 | finding a domain entry returns the first index with that key, or none exactly when no entry has it |
| Rules.Put | popup/popup.js:142-146 | `domains[host] = data` gives `host` the new entry, leaves every other key's entry alone, appends only a new key and keeps keys distinct |
| Rules.MergeLookup | background/background.js:407-410 | after the spread `{...current, ...imported}`, each key maps to the imported entry when there is one and to the current entry otherwise |
| Rules.Enabled | content/content-script.js:65 | the enabled filter keeps exactly the enabled rules |
| Rules.EnabledConcat | content/content-script.js:65 | the filter distributes over concatenation, so it keeps the enabled rules in order and with their multiplicity |
| Rules.EnabledSingle | content/content-script.js:65 | a single rule is kept exactly when it is enabled |
| Rules.AppendIfNew | content/content-script.js:523-528 | a rule is appended at the end only when no rule has its selector; afterwards the selector is present and selectors stay distinct |
| Rules.WithoutSelector | content/content-script.js:553-555 | the selector filter keeps exactly the rules with other selectors; the list shrinks exactly when the selector was present, and distinct selectors stay distinct |
| Rules.WithoutId | popup/popup.js:387 | the id filter keeps exactly the rules with other ids |
| Rules.WithoutSelectorConcat | popup/popup.js:491 | the selector filter preserves order: it distributes over concatenation |
| Rules.WithoutIdConcat | popup/popup.js:387 | the id filter preserves order: it distributes over concatenation |
| Rules.WithoutAbsent | content/content-script.js:553-557 | filtering out a selector no rule has changes nothing |
| Rules.WithoutAppended | content/content-script.js:523-528 | appending a new rule and then filtering out its selector restores the original list |
| Rules.HasSelectorSnoc | content/content-script.js:523-525 | a list with one more rule contains a selector exactly when the old list or the new rule has it |
| Rules.IsSubdomainShape | content/content-script.js:92-94 | `isSubdomain(h, p)` holds exactly when `h == p` or `h` is some prefix, a dot and then `p` |
| Rules.SubdomainExamples | content/content-script.js:92-94 | `a.b.com` is under `b.com`, as is `b.com` itself; `xb.com` is not under `b.com`, and a parent is not under its child |
| Rules.FirstInheriting | content/content-script.js:56-61 | the subdomain scan returns the first entry that applies to subdomains and whose key the host is under, or none exactly when there is no such entry |
| Dom.ParentOf | content/selector-generator.js:233 | a parent returned for an element is itself a document element |
| Dom.SameTag | content/selector-generator.js:244-245 | the same-tag sibling filter keeps exactly the children that carry the tag |
| Dom.IndexOf | content/selector-generator.js:247 | `indexOf` gives the first position of the element, or -1 exactly when it is absent |
| Dom.TypeIndexDesignates | content/selector-generator.js:244-250 | for a child of its parent, the 1-based same-tag index is at least 1, and `nth-of-type` with that index designates exactly that child |
| Dom.TypeIndexInjective | content/selector-generator.js:244-250 | two distinct same-tag children get different `nth-of-type` indices |
| Dynamic.PatternShift | content/selector-generator.js:275-284 | each of the six dynamic patterns found in a value is still found when text is added around it |
| Dynamic.DynamicInside | content/selector-generator.js:269-285 | a non-empty dynamic value stays dynamic inside any longer string |
| Dynamic.DynamicClassExtends | content/selector-generator.js:290-303 | a dynamic class name stays dynamic when extended, because both the patterns and the ignored prefixes are containment tests |
| Dynamic.PatternAtNeeds | content/selector-generator.js:275-282 | a pattern match at a position needs the minimum text each regex demands: 10 digits or digits, an underscore and a digit; 8 lower-case hex characters; or one of the words random, temp, tmp, session, token |
| Dynamic.DynamicDate | content/selector-generator.js:278 | `"2024-01-15"` is dynamic because of the date pattern |
| Dynamic.DynamicHash | content/selector-generator.js:277 | `"a1b2c3d4e5f6"` is dynamic because of the hex pattern |
| Dynamic.DynamicSession | content/selector-generator.js:281 | `"session_abc"` is dynamic because it contains "session" |
| Dynamic.DynamicTimestamp | content/selector-generator.js:270-276 | a 13-digit timestamp and the empty value are dynamic |
| Dynamic.StableExamples | content/selector-generator.js:269-285 | `"nav-item"`, `"primary-button"` and `"ad-banner-123"` are not dynamic |
| Dynamic.DynamicClassExamples | content/selector-generator.js:4-11 | `activeTab`, `is-open` and `ng-hide` are dynamic class names because of their prefixes; `nav-item` is not |
| Dynamic.IgnoredAttributeExamples | content/selector-generator.js:13-16 | `data-reactid` is in the ignored-attribute set; `data-vue-x` is not, since membership is exact |
| Escaping.EscapeWith | content/selector-generator.js:365-374 | escaping never shortens a string and leaves one without special characters unchanged |
| Escaping.EscapeRoundTrip | content/selector-generator.js:365-374 | unescaping what the backslash escaper produced gives back the original string, for any escaped character class that includes the backslash |
| Escaping.EscapedCharsGuarded | content/selector-generator.js:365-374 | in escaped output, every special character is preceded by a backslash |
| Escaping.EscapeSelectorRoundTrip | content/selector-generator.js:365-367 | `escapeSelector` is undone by unescaping, and every CSS-special character in its output is escaped |
| Escaping.EscapeAttributeValueRoundTrip | content/selector-generator.js:372-374 | `escapeAttributeValue` is undone by unescaping, and every quote or backslash in its output is escaped |
| Escaping.EscapeSelectorKeepsNames | content/selector-generator.js:365-367 | identifiers made of letters, digits, `-` and `_` pass through `escapeSelector` unchanged |
| Escaping.EscapeSelectorDot | content/selector-generator.js:365-367 | the dot in `a.b` is escaped as `a\.b` |
| Selectors.ByUniqueId | content/selector-generator.js:68-86 | the id strategy fails for an empty or dynamic id; otherwise it yields `#id` with confidence 9 exactly when the only match is the target |
| Selectors.DataParts | content/selector-generator.js:95-101 | at most one attribute part per `data-*` attribute |
| Selectors.DataPartsConcat | content/selector-generator.js:95-101 | the first loop distributes over concatenation of the attribute list, so parts come in attribute order |
| Selectors.DataPartsSingle | content/selector-generator.js:96-99 | one attribute gives its `[name="value"]` part exactly when its name starts with `data-`, its value is not dynamic and the name is not ignored |
| Selectors.NamedParts | content/selector-generator.js:104-110 | at most one attribute part per stable attribute name |
| Selectors.NamedPartsConcat | content/selector-generator.js:104-110 | the second loop distributes over concatenation of the name list, so parts come in name order |
| Selectors.NamedPartsSingle | content/selector-generator.js:106-109 | one name gives its part exactly when the attribute is present, non-empty and not dynamic |
| Selectors.GenerateByStableAttributes | content/selector-generator.js:91-128 | the attribute-collecting loop computes the stable-attribute strategy; a result is a valid selector for the element with confidence 8 |
| Selectors.StableClassList | content/selector-generator.js:134-135 | the class filter keeps exactly the non-dynamic classes |
| Selectors.StableClassListConcat | content/selector-generator.js:134-135 | the filter distributes over concatenation, so it keeps the stable classes in order and with their multiplicity |
| Selectors.StableClassListSingle | content/selector-generator.js:135 | a single class is kept exactly when it is not dynamic |
| Selectors.Singles | content/selector-generator.js:312-314 | the single-class combinations are the classes, one per entry, in order |
| Selectors.Row | content/selector-generator.js:318-320 | row `i` holds the pairs `(i, j)` for each `j > i`, in order |
| Selectors.GenerateClassCombinations | content/selector-generator.js:308-329 | the nested loops produce the singles, then the pairs row by row, then the whole list when it has at most four classes |
| Selectors.PairsUpToLength | content/selector-generator.js:317-321 | the first `i` rows hold `i(2n - i - 1)/2` pairs |
| Selectors.CombinationsLength | content/selector-generator.js:308-329 | on `n` classes there are `n + n(n-1)/2` combinations, plus one when `n <= 4` |
| Selectors.PairInRows | content/selector-generator.js:317-321 | every pair `i < j` is enumerated |
| Selectors.RowsArePairs | content/selector-generator.js:317-321 | everything enumerated by the pair loops is a pair `i < j` |
| Selectors.CombinationsContents | content/selector-generator.js:308-329 | the combinations start with the singles in order, contain every pair and (for `n <= 4`) the whole list, and contain nothing else |
| Selectors.ClassConfidence | content/selector-generator.js:334-348 | the class confidence is clamped to between 3 and 9 tenths |
| Selectors.Clamp | content/selector-generator.js:347 | `max(lo, min(hi, x))` lies in `[lo, hi]`, is `x` inside that range and the nearer bound outside it |
| Selectors.ClassConfidenceAccepted | content/selector-generator.js:152-155 | for an accepted combination (1 to 5 matches), confidence is `8 - m`, plus 1 for more than one class, so never above 8 |
| Selectors.ClassConfidenceMonotone | content/selector-generator.js:334-348 | confidence does not rise with more matches or when a multi-class combination is replaced by a single class |
| Selectors.ClassSearch | content/selector-generator.js:146-163 | a found selector validates for the element, is the tag plus one combination's classes, and has confidence 3 to 8 |
| Selectors.ClassSearchFound | content/selector-generator.js:146-163 | a found candidate is that of a combination matching one to five elements including the target, with confidence `calculateClassConfidence(combination, matches)`, and every earlier combination parsed and was not accepted |
| Selectors.ClassSearchNone | content/selector-generator.js:146-165 | nothing is found exactly when every accepted combination comes after one whose selector does not parse |
| Selectors.ByStableClasses | content/selector-generator.js:133-166 | a stable-classes result validates for the element and has confidence 3 to 8 |
| Selectors.ByStableClassesFirst | content/selector-generator.js:133-166 | no result without a stable class; otherwise the first accepted combination of the sorted stable classes in enumeration order, with its confidence, and none exactly when each accepted one follows an unparsable one |
| Selectors.SegmentClasses | content/selector-generator.js:190-196 | a path segment gets a class part exactly when the element has a stable class |
| Selectors.PathFrom | content/selector-generator.js:176-209 | the structural path has at most as many segments as the depth allows |
| Selectors.PathFromStep | content/selector-generator.js:183-208 | one step of the walk: an element with a stable id ends the path at `tag#id`; otherwise its plain segment goes in front of its parent's path |
| Selectors.WalkStep | content/selector-generator.js:206-208 | the `unshift`, the move to the parent and the depth countdown keep the walk's loop invariant |
| Selectors.WalkPath | content/selector-generator.js:172-209 | the while loop with `unshift` and the `maxDepth` countdown builds the specified structural path |
| Selectors.GenerateByStructuralPath | content/selector-generator.js:171-226 | the structural strategy is the joined path when it validates, with confidence 6 |
| Selectors.PositionDesignates | content/selector-generator.js:231-264 | without a parent the position strategy gives the bare tag at confidence 3; otherwise `tag:nth-of-type(i)` at confidence 4, where `i` is at least 1 and designates exactly the element; the tag-only branch is never taken |
| Selectors.Proposals | content/selector-generator.js:30-36 | there are exactly five strategies |
| Selectors.AcceptedOf | content/selector-generator.js:43-51 | every accepted proposal is one of the strategy results and validates |
| Selectors.AcceptedOfConcat | content/selector-generator.js:41-56 | the accepted list distributes over concatenation of the results, so it keeps them in strategy order |
| Selectors.AcceptedOfSingle | content/selector-generator.js:44-51 | a single result is kept exactly when it has a selector that validates |
| Selectors.AcceptedOfSplit | content/selector-generator.js:41-56 | with `j` the first accepted result, the accepted list is that result followed by exactly the accepted results after it |
| Selectors.Selectors | content/selector-generator.js:49 | the fallback list holds each accepted result's selector, in order |
| Selectors.Take | content/selector-generator.js:61 | `slice(0, 3)` keeps the whole list when it is short, else its first three |
| Selectors.AcceptedStep | content/selector-generator.js:41-56 | one iteration of the strategy loop appends the result exactly when it is accepted |
| Selectors.PickFirst | content/selector-generator.js:38-62 | the strategy loop with its `results` and `fallbacks` arrays computes the specified pick |
| Selectors.GenerateSelector | content/selector-generator.js:25-63 | `generateSelector` equals the specification `Generate` |
| Selectors.AcceptedOfFirst | content/selector-generator.js:41-58 | nothing is accepted exactly when no proposal validates; otherwise the primary is the first proposal that validates |
| Selectors.GenerateFallbacks | content/selector-generator.js:41-62 | with a primary from strategy `j`, the fallbacks are exactly the selectors of the strategies after `j` that are accepted, in order, cut to three |
| Selectors.GenerateSound | content/selector-generator.js:25-63 | the primary and each fallback validate for the element, there are at most 3 fallbacks, and with no primary the result is (null, 0, no strategy, no fallbacks) |
| Selectors.GeneratePriority | content/selector-generator.js:26-58 | there is no primary exactly when the element is missing, has no tag or no strategy validates; otherwise the primary's selector, confidence and strategy are those of the first strategy that validates |
| Selectors.PositionIsLastResort | content/selector-generator.js:35 | when the position selector validates, some primary is always produced |
| Selectors.RelevantAttributes | content/selector-generator.js:389-397 | the info's attributes are exactly the listed names with a non-empty value, each with its value |
| Selectors.GetElementInfo | content/selector-generator.js:379-403 | info exists exactly for an element of the document; its text is the trimmed text cut to 50 characters |
| Hider.HideMarks | content/element-hider.js:230-247 | hiding skips an element whose inline display is `none`; otherwise it sets the class, the rule id and the hidden-by marker and writes the original-display snapshot only when none exists |
| Hider.ShowMarks | content/element-hider.js:253-267 | showing removes the class, the rule id and the marker; with a snapshot, it restores inline display from it (`none` becomes empty) and drops the snapshot |
| Hider.HideKeepsSnapshot | content/element-hider.js:238-240 | hiding twice never overwrites the first snapshot; the last rule id wins |
| Hider.ShowIdempotent | content/element-hider.js:253-267 | showing twice is showing once |
| Hider.HideThenShow | content/element-hider.js:230-267 | hiding a pristine element and showing it again restores its display, with the quirk that a computed display of `none` is mapped to empty |
| Hider.HideOn | content/element-hider.js:125-129 | hiding a match set changes exactly the matched elements' marks |
| Hider.ShowOn | content/element-hider.js:145-147 | showing a recorded set changes exactly those elements' marks |
| Hider.HideOnStep | content/element-hider.js:125-129 | one iteration of the hide loop extends the hidden set by one element |
| Hider.ShowOnStep | content/element-hider.js:145-147 | one iteration of the show loop extends the shown set by one element |
| Hider.AddCss | content/element-hider.js:183-203 | `addCSSRule` appends the selector at the end only when the sheet lacks it |
| Hider.AddCssIdempotent | content/element-hider.js:183-203 | adding the same stylesheet rule twice is adding it once, and a duplicate-free sheet stays duplicate-free |
| Hider.RulesIn | content/element-hider.js:175-176 | the rules reapplied are the recorded rules of tracked keys |
| Hider.AddRulePreservesValid | content/element-hider.js:107-135 | `addRule` keeps the sheet equal to the key order; it tracks a rule exactly when it is enabled, non-empty and its selector parses |
| Hider.RemoveRulePreservesValid | content/element-hider.js:141-154 | `removeRule` keeps the sheet equal to the key order and drops exactly the removed key |
| Hider.RemoveRuleEffect | content/element-hider.js:141-154 | removing an untracked selector is a no-op; otherwise every recorded element is shown, every sheet entry for it goes, its key goes, and other keys and elements are untouched |
| Hider.RemoveEachPrefix | content/element-hider.js:159-169 | removing the first `i` tracked keys keeps the invariant and leaves exactly the rest |
| Hider.ClearEmpties | content/element-hider.js:159-169 | `clearAllRules` empties the map, the key order and the sheet, and leaves the flags alone |
| Hider.RemoveEachFlags | content/element-hider.js:159-169 | removing rules never changes the active or observing flags |
| Hider.AddEachKeys | content/element-hider.js:96-98 | adding a list of rules tracks exactly the old keys plus the enabled, non-empty, parseable selectors of the list |
| Hider.ApplyKeys | content/element-hider.js:88-101 | `applyRules` with a non-array changes nothing; otherwise it tracks exactly the enabled, non-empty, parseable selectors of the list |
| Hider.ReapplyKeys | content/element-hider.js:174-177 | `reapplyAllRules` tracks exactly the old keys whose selector still parses |
| Hider.RulesInHas | content/element-hider.js:175 | every tracked rule is among those reapplied |
| Hider.DeactivateThenActivate | content/element-hider.js:358-376 | `setActive(false)` leaves no rules, no sheet and no observer; a later `setActive(true)` reactivates with nothing to reapply |
| Hider.ElementTotalZero | content/element-hider.js:333-337 | the element total is zero exactly when no rule has hidden any element |
| Hider.ElementHider.constructor | content/element-hider.js:2-10 | a new hider is active and observing, with no rules and an empty sheet |
| Hider.ElementHider.HideElement | content/element-hider.js:230-247 | only the element's marks change, as `HideMarks` specifies |
| Hider.ElementHider.ShowElement | content/element-hider.js:253-267 | only the element's marks change, as `ShowMarks` specifies |
| Hider.ElementHider.AddCssRule | content/element-hider.js:183-203 | only the sheet changes, as `AddCss` specifies |
| Hider.ElementHider.RemoveCssRule | content/element-hider.js:209-223 | the reverse loop deletes exactly the sheet entries for the selector |
| Hider.ElementHider.AddRule | content/element-hider.js:107-135 | the new state is `AddRuleSpec` of the old |
| Hider.ElementHider.RemoveRule | content/element-hider.js:141-154 | the new state is `RemoveRuleSpec` of the old |
| Hider.ElementHider.ClearAllRules | content/element-hider.js:159-169 | the loop over tracked keys reaches `ClearSpec` of the old state |
| Hider.ElementHider.ApplyRules | content/element-hider.js:88-101 | clear, then add each rule: the new state is `ApplySpec` of the old |
| Hider.ElementHider.ReapplyAllRules | content/element-hider.js:174-177 | the rules are snapshotted, cleared and re-added: the new state is `ReapplySpec` of the old |
| Hider.ElementHider.HandleDomChanges | content/element-hider.js:63-82 | a reapply happens exactly when some child-list mutation added an element node; otherwise nothing changes |
| Hider.ElementHider.OnMutations | content/element-hider.js:44-51 | the observer callback does nothing while inactive, and otherwise behaves as `handleDOMChanges` |
| Hider.ElementHider.SetActive | content/element-hider.js:358-376 | the new state is `SetActiveSpec` of the old |
| Hider.ElementHider.GetStats | content/element-hider.js:330-352 | reports the rule count, the active flag, the per-rule element counts in insertion order, and a total equal to their sum |
| Hider.ElementHider.GetElementRule | content/element-hider.js:382-405 | no rule for an element that is not hidden or has no rule-id marker; otherwise the first tracked rule, in insertion order, carrying that id, or none when no tracked rule carries it |
| Hider.DeleteStep | content/element-hider.js:214-221 | one iteration of the reverse delete loop extends the cleaned suffix by one entry |
| Hider.RemoveAllStep | content/element-hider.js:214-221 | deleting a selector from a suffix handles its head, then the rest |
| Hider.KeysCount | content/element-hider.js:331 | the map has as many keys as the insertion order has entries |
| Content.LookupDomainData | content/content-script.js:53-62 | the exact-hostname entry is used when present; only when absent, the first entry that applies to subdomains and has the host under its key; none when there is neither |
| Content.RulesToApply | content/content-script.js:64-66 | the list passed to the hider is the enabled filter of the found entry's rules (membership here, order by `EnabledConcat`), and nothing is passed when no entry is found |
| Content.SaveRuleToStorage | content/content-script.js:510-544 | appends the rule exactly when no rule of the current domain has its selector, creating the entry if missing and stamping the time; reports whether it appended; other domains unchanged |
| Content.RemoveRuleFromStorage | content/content-script.js:546-571 | filters out the selector and reports true exactly when the list shrank; otherwise the store is unchanged; other domains unchanged |
| Content.SaveThenRemove | content/content-script.js:510-571 | saving a new rule and removing its selector gives back the original list, with both calls reporting success |
| Content.NoteText | content/content-script.js:501-505 | text up to 20 characters is quoted whole; longer text is cut to 20 characters plus "..." |
| Content.NoteOfShape | content/content-script.js:490-508 | the note starts with the uppercased tag, then ` #id` or else ` .firstClass`; with neither and no text it is the tag alone |
| Content.GenerateElementNote | content/content-script.js:490-508 | a missing element gets an empty note; otherwise the note starts with its uppercased tag |
| Content.NoteOfExact | content/content-script.js:494-507 | the note is the tag with ` #id`, or else ` .firstClass`, or nothing, followed by the text cut to 20 characters plus "..." in double quotes when there is text, which the note then ends with |
| Content.NoteTextOfCut | content/selector-generator.js:386 | cutting the trimmed text to 50 characters first does not change its 20-character cut |
| Content.ElementNoteExact | content/content-script.js:490-508 | the note of an element is its upper-cased tag, ` #id` or else ` .firstClass`, then its trimmed text cut to 20 characters plus "..." in double quotes when not empty |
| Content.NoteNamesElement | content/content-script.js:490-508 | the note names the element by `#id`, or else by its first class, and is the bare tag when it has neither and no text |
| Content.WithoutElement | content/content-script.js:298-300 | the `tempRules` filter keeps exactly the entries for other elements |
| Content.WithoutElementDistinct | content/content-script.js:298-300 | filtering keeps each element at most once on the undo stack |
| Content.FindTemp | content/content-script.js:294-296 | finds an undo entry for the element exactly when it has one |
| Content.PopElements | content/content-script.js:320-323 | popping the undo stack drops exactly the last entry's element |
| Content.PushElements | content/content-script.js:265-267 | pushing an entry for a new element adds exactly that element |
| Content.Route | content/content-script.js:96-126 | exactly the five known actions are dispatched; anything else is unknown |
| Content.PingIsUnknown | content/content-script.js:121-122 | the content script answers `ping` with "Unknown action" |
| Content.Session.constructor | content/content-script.js:2-21 | a new session is valid, not selecting, with nothing selected and a fresh hider |
| Content.Session.LoadAndApplyRules | content/content-script.js:48-72 | the hider applies the looked-up enabled rules, or is untouched when no entry is found |
| Content.Session.CheckSnoozeStatus | content/content-script.js:74-90 | a live snooze deactivates the hider; an expired one is deleted and leaves the hider alone |
| Content.Session.ClearTempSelections | content/content-script.js:344-347 | empties the selected set and the undo stack |
| Content.Session.ToggleSelectionMode | content/content-script.js:128-145 | the mode becomes the requested value or its negation; turning it off empties the selection and never touches the hider |
| Content.SelectionRule | content/content-script.js:250-264 | no rule exactly when the generator gives no selector or an empty one; otherwise the rule carries the generated selector, the fresh id, the element's note, and is enabled |
| Content.SelectActed | content/content-script.js:245-271 | a selection of an unselected element with a selector saves the rule, pushes `(rule, element)`, selects the element and adds the rule to the hider |
| Content.SelectThenUndoSession | content/content-script.js:314-326 | undo right after a selection that acted gives back the undo stack and the selected set |
| Content.SelectThenUndoHider | content/content-script.js:314-322 | undo right after a selection that acted leaves the hider tracking the same selectors when the selector was new to it |
| Content.SelectThenUndoStore | content/content-script.js:314-320 | undo right after a selection that acted gives a domain entry that lacked the selector its rule list back |
| Content.UndoRestoresKeys | content/element-hider.js:107-154 | adding a rule whose selector is untracked and then removing that selector leaves the hider tracking exactly the selectors it tracked before |
| Content.Session.SelectElement | content/content-script.js:245-280 | a no-op for a selected element or when no selector is produced; otherwise it stores the rule, pushes `(rule, element)`, selects the element and adds the rule to the hider, whether or not the store append happened |
| Content.Session.SelectParentElement | content/content-script.js:282-287 | a no-op without a parent or when the parent is the body; otherwise exactly the effect of `selectElement` on the parent |
| Content.Session.UnselectElement | content/content-script.js:289-312 | a no-op for an unselected element; otherwise the element and every undo entry for it go, and the selector of its entry, when it has one, leaves storage and the hider |
| Content.Session.UndoLastSelection | content/content-script.js:314-335 | a no-op on an empty stack; otherwise it pops exactly the last entry, deselects its element and removes its selector from storage and the hider |
| Content.Session.SaveSelectedElements | content/content-script.js:337-342 | ends the session and empties the selection without touching the hider, so committed rules stay hidden |
| Content.Session.HandleMouseClick | content/content-script.js:200-216 | ignored outside selection mode, without a target or on the overlay; otherwise Shift click has exactly the effect of `selectParentElement`, Ctrl or Cmd click that of `unselectElement`, a plain click that of `selectElement` |
| Content.Session.HandleKeyDown | content/content-script.js:218-243 | Escape and Enter end the session without touching the hider or the store; Ctrl or Cmd with U stays in selection mode and has exactly the effect of `undoLastSelection`; other keys do nothing |
| Content.Session.HandleMessage | content/content-script.js:96-126 | toggle sets the mode and, turning it off, empties the selection, leaving the hider alone; the mode query, rule update and snooze (deactivate) leave the selection and mode alone, the last two changing the hider as `applyRules` and `setActive(false)`; stats answer exactly `getStats` of the hider; unknown actions answer "Unknown action" and change nothing |
| Background.SplitDot | background/background.js:96-97 | `split('.')` yields at least one part, none containing a dot |
| Background.JoinSplitDot | background/background.js:96-97 | joining the parts with dots gives back the version string |
| Background.Parts | background/background.js:96-97 | there are as many numeric parts as dot-separated parts |
| Background.CompareFrom | background/background.js:99-105 | the comparison loop returns -1, 0 or 1 |
| Background.CompareVersions | background/background.js:95-108 | the loop computes the specified comparison, which is -1, 0 or 1 |
| Background.CompareZeroIff | background/background.js:99-107 | the result is 0 exactly when all parts agree, missing parts counting as 0 |
| Background.CompareLessIff | background/background.js:99-105 | the result is -1 exactly when, at the first differing part, `a`'s part is smaller |
| Background.CompareAntisymmetric | background/background.js:99-107 | swapping the arguments negates the result of the loop |
| Background.VersionReflexive | background/background.js:95-108 | every version compares equal to itself |
| Background.VersionAntisymmetric | background/background.js:95-108 | swapping two versions negates their comparison |
| Background.SplitDotPlain | background/background.js:96-97 | a part without dots splits into itself |
| Background.SplitDotCons | background/background.js:96-97 | a leading part and a dot split off first |
| Background.DigitValue | background/background.js:96-97 | `Number` of a single digit is its value |
| Background.PartsOfTwo | background/background.js:96-97 | a two-part version has the numeric values of its two parts |
| Background.PartsOfCurrent | background/background.js:78 | `"1.0.0"` has parts 1, 0, 0 |
| Background.VersionPadding | background/background.js:95-108 | `"1.0"` equals `"1.0.0"` because missing parts count as 0 |
| Background.VersionBefore | background/background.js:78 | `"0.9"` comes before `"1.0.0"` |
| Background.VersionNumeric | background/background.js:99-105 | parts compare as numbers: `"1.10"` is after `"1.9"` |
| Background.MigrationWrite | background/background.js:76-93 | a write happens exactly for previous versions before 1.0.0; it keeps the existing domains, or writes an empty store when there are none |
| Background.MigrationExamples | background/background.js:78 | `0.9` needs migration; `1.0` and `1.0.0` do not |
| Background.RulesForDomain | background/background.js:173-199 | every resolved rule is enabled |
| Background.FirstInheritingAt | background/background.js:181-190 | the scan's answer is the first entry that applies to subdomains and has the host under its key |
| Background.GetRulesForDomain | background/background.js:173-199 | the loop with early break computes the specified resolution: the exact domain's enabled rules, or when that list is empty, those of the first parent entry that applies to subdomains |
| Background.ResolutionAgreesWithContent | background/background.js:173-199 | when the exact entry is absent or has an enabled rule, background and content script resolve the same rules |
| Background.ResolutionDiffersFromContent | background/background.js:178-190 | with an all-disabled exact entry, the content script applies nothing while the background uses the parent domain's rules |
| Background.IsDomainSnoozed | background/background.js:205-223 | snoozed exactly when a non-zero entry exists and `now` is before it; an expired entry is deleted and other entries are unchanged |
| Background.SnoozeDomain | background/background.js:250-274 | records `now + minutes * 60000` for the host, leaves other hosts alone and names the alarm `snooze-<host>` |
| Background.AlarmDomain | background/background.js:467-469 | an alarm name gives a domain exactly when it starts with `snooze-`; the domain is the rest of the name |
| Background.CleanupExpiredSnooze | background/background.js:473-486 | deletes the host's non-zero entry and nothing else |
| Background.HandleAlarm | background/background.js:466-471 | names without the prefix change nothing; otherwise only the named domain's entry can go |
| Background.SnoozeThenAlarm | background/background.js:466-486 | the alarm set by a snooze names that domain and deletes exactly its entry |
| Background.HandleTabUpdated | background/background.js:110-142 | rules are sent exactly when the load is complete, the URL is http or https, the resolved list is non-empty and the domain is not snoozed; what is sent is the resolved list; an expired snooze entry of the host is deleted exactly when the snooze check is reached, and the map is otherwise unchanged |
| Background.DedupAppendProps | background/background.js:337-345 | the batch append keeps the old list as a prefix and appends only rules with new selectors, earlier rules of the batch included; it contains every selector of either list and keeps selectors distinct |
| Background.SaveElementRules | background/background.js:317-356 | fails without a tab URL; otherwise it updates only the host's entry, creating it if missing, and reports the batch length, not the number appended |
| Background.GetDomainStats | background/background.js:358-382 | the stats name the host; zeros for an unknown domain; otherwise the list length, the number of enabled rules, the subdomain flag and the update time |
| Background.EnabledCountAll | background/background.js:371-372 | the enabled count equals the rule count exactly when every rule is enabled |
| Background.ImportData | background/background.js:402-425 | rejects data without a `domains` object; settings are overwritten only when supplied |
| Background.ImportLookup | background/background.js:404-417 | after import, each key maps to the imported entry when present, else to the current one |
| Background.Route | background/background.js:276-315 | exactly the six known actions are dispatched |
| Background.PingRoutes | background/background.js:279-281 | the background answers `ping`; the content script does not |
| Popup.WordRunLen | popup/popup.js:353 | the run of word characters at the start of the selector is maximal |
| Popup.TagFromSelector | popup/popup.js:352-356 | the tag is `ELEMENT` when the selector does not start with a letter; otherwise the uppercased maximal leading run of letters and digits |
| Popup.LeadingMatchUnique | popup/popup.js:353 | the leading match of the tag pattern is unique |
| Popup.TagOfMatch | popup/popup.js:352-356 | any leading match determines the tag |
| Popup.TagOfTagSelector | popup/popup.js:352-356 | `div.ad` shows as `DIV` |
| Popup.TagOfDigitName | popup/popup.js:352-356 | `h2 > span` shows as `H2`: digits after the first letter are kept |
| Popup.TagOfClassSelector | popup/popup.js:352-356 | `.ad` and the empty selector show as `ELEMENT` |
| Popup.RuleCount | popup/popup.js:358-361 | the counter reads `<enabled>/<total>` in decimal |
| Popup.EnabledUpdate | popup/popup.js:358-361 | replacing one rule changes the enabled count by that rule's change |
| Popup.FindRule | popup/popup.js:364 | `find` by id gives the first rule with that id, or none exactly when no rule has it |
| Popup.FirstIdUnique | popup/popup.js:364 | the first rule with an id is unique |
| Popup.ToggleSpec | popup/popup.js:363-371 | toggling flips `enabled` on the first rule with the id and changes nothing else; an unknown id changes nothing |
| Popup.ToggleTwice | popup/popup.js:363-371 | toggling the same id twice restores the list |
| Popup.ToggleCount | popup/popup.js:363-371 | a toggle moves the enabled count by exactly one |
| Popup.EditSpec | popup/popup.js:373-383 | editing sets the note of the first rule with the id and changes nothing else |
| Popup.EditIdempotent | popup/popup.js:373-383 | editing a note twice with the same text is editing once |
| Popup.HideBoxPopup.constructor | popup/popup.js:3-12 | a new popup has no domain, no rules, selection off and subdomains off |
| Popup.HideBoxPopup.LoadDomainData | popup/popup.js:116-135 | loads the current domain's rules and subdomain flag, or an empty list and false when there is no entry |
| Popup.HideBoxPopup.LoadCurrentDomain | popup/popup.js:99-114 | with a tab hostname, takes it as the domain, loads its rules and its subdomain checkbox (unticked with no entry) and adopts the content script's selection mode when it answers; without one nothing changes |
| Popup.HideBoxPopup.SaveDomainData | popup/popup.js:137-166 | stores the whole list under the current domain, other domains unchanged, and forwards only the enabled rules to a present tab |
| Popup.HideBoxPopup.ToggleRule | popup/popup.js:363-371 | the list becomes `ToggleSpec` of the old one; only when the id exists does it store the entry, keep every other domain's entry and forward the enabled rules to a present tab |
| Popup.HideBoxPopup.EditRule | popup/popup.js:373-383 | a cancelled prompt or unknown id changes nothing; otherwise it sets the trimmed note, stores the entry, keeps every other domain's entry and forwards the enabled rules to a present tab |
| Popup.HideBoxPopup.DeleteRule | popup/popup.js:385-393 | when confirmed, every rule with the id goes, the entry is stored, every other domain's entry is kept and the enabled rules are forwarded to a present tab; otherwise nothing changes |
| Popup.HideBoxPopup.UpdateDomainSettings | popup/popup.js:395-398 | stores the checkbox value with the unchanged list, keeps every other domain's entry and forwards the enabled rules to a present tab |
| Popup.HideBoxPopup.ClearDomainRules | popup/popup.js:449-457 | when confirmed, the list is emptied and stored, every other domain's entry is kept and an empty list is forwarded to a present tab; otherwise nothing changes |
| Popup.HideBoxPopup.ImportConfiguration | popup/popup.js:425-447 | a parsed file with a `domains` object replaces the store wholesale and reloads the current domain's rules and subdomain checkbox from it; anything else writes nothing |
| Popup.HideBoxPopup.AddNewRule | popup/popup.js:474-487 | rejects a rule whose selector exists, else appends it; reports which |
| Popup.HideBoxPopup.RemoveRuleFromUI | popup/popup.js:489-499 | every rule with the selector goes, the rest in order; reports whether any went |
| Popup.HideBoxPopup.HandleMessage | popup/popup.js:459-472 | elementSelected adds with dedup, elementUnselected removes by selector, selectionModeChanged sets the mode, anything else does nothing |
| Popup.HideBoxPopup.ToggleSelectionMode | popup/popup.js:168-191 | with a tab, flips the mode and sends the new value; without one, nothing changes |
| Popup.HideBoxPopup.SnoozeDomain | popup/popup.js:262-289 | records `now + minutes * 60000` for the current domain and notifies a present tab |

## Left out

- `chrome.*` plumbing is not modelled: storage reads and writes, tab and runtime messaging, script and CSS injection, alarms and keyboard commands. The stores are passed in and out as values, and `handleCommand` (which only forwards to the snooze and selection code) is not modelled.
- Installation and storage-change handling is not modelled, because it is all plumbing: `initializeStorage`, `handleInstalled` beyond the migration decision, `handleStorageChanged` and `notifyTabsAboutStorageChange`.
- User interface code is not modelled: the overlay, tooltip, indicator, instructions, notifications, placeholders and the debug flag read from `localStorage` and the URL, plus popup rendering, `showStatus`, status texts, `prompt` and `confirm` (modelled as inputs), and export via a Blob download (`exportConfiguration`, `exportAllData`).
- Layout and floating point are not modelled: `getBoundingClientRect`, scroll offsets and rounded sizes. The element-info record has no rectangle, and `getComputedStyle` becomes an oracle input.
- CSS selector parsing, matching and the browser's `selectorText` normalisation are not modelled. Matching is an oracle, and stylesheet entries are compared by selector string.
- Timers and concurrency are not modelled: the 100 ms debounce of the mutation observer, the injection waits, interleavings of `async` calls and observer registration. Each asynchronous handler is one atomic step over the store it is given.
- `Date.now()` and `Math.random` are parameters: the time and fresh rule ids (`generateRuleId`) are inputs.
- URL parsing (`new URL`) and JSON parsing of import files are not modelled. Hostnames are given; an import file is either absent, unparsable or parsed.
- Strings are sequences of characters, with no UTF-16 surrogates and no Unicode case mapping. Upper and lower case are ASCII-only, which covers tag names.
- `Number()` of a version part is modelled for decimal digit strings, the empty part giving 0. Any other part is modelled as 0, which is right when `Number` gives `NaN` (then `|| 0` yields 0) but not for parts `Number` reads as other values: hexadecimal (`0x1f` is 31), exponents (`1e3` is 1000), signs (`-1`), surrounding blanks (` 7` is 7) and `Infinity`.
- `typeof` checks on message fields and import data are not modelled. Each message's fields are given their expected types, and a non-array rule list is `None`.
- Event propagation is not modelled: `preventDefault` and `stopPropagation`. Ctrl+U is handled once per key event, although the source registers the listener three times.
- `destroy` and `testFallbackSelectors` (a debugging aid) are not modelled.
- `ensureContentScriptReady` in the popup is represented by a `tabPresent` flag.
- Popup rule objects are mutated in place through shared references. The model keeps them as values in `domainRules`, so aliasing between the list and the store is not captured.
- Hider.ElementHider.constructor: the stylesheet is assumed to start empty; `initializeStyleSheet`'s reuse of an existing style element is not modelled.
- Selectors.ClassSearch: a malformed combination makes `querySelectorAll` throw. The source has no `try` inside the loop, so the throw aborts the whole stable-classes strategy, and the model returns no candidate there.
- Two rules with the same selector share one hider entry, and the later rule replaces the recorded rule, as in the source.
