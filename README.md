# FoodLogger core in Dafny

This project models the logic of the FoodLogger web app. In that app a user logs timestamped, comma-separated free text ("Milk, bread"). The app derives one item per piece and shows the items on a plot. Foods can be grouped into categories. A correlation analysis then ranks the items that tend to come shortly before a chosen item or category.

There is one Dafny module per JavaScript file, plus the JavaScript built-ins the files use:

- `JsString`, `JsArray`, `JsObject` (js_builtins.dfy) hold the built-ins the code relies on:
  - `String.prototype.trim`, `split`, `join`, `includes` and `parseInt`, plus number printing;
  - `filter`, `map`, `flatMap`, `[...new Set(..)]` and `Array.prototype.sort` (a stable insertion sort over a comparator);
  - the enumeration order of an object's keys: array-index keys first, ascending, then insertion order.

  Four built-ins are parameters of type `Runtime` and are never reimplemented: `toLowerCase`, `toUpperCase`, `normalize('NFD')` and `localeCompare`. Removing U+0300–U+036F is modelled concretely.
- `App` (js/app.js) covers:
  - item derivation (`buildProcessed`): split on `,`, trim, drop empties, upper-case the first character;
  - the `addEntry` guard;
  - the quick buttons (the first six distinct texts) and the append rule of a button click.
- `Entry` (js/entry.js) covers:
  - `addEntry`, which adds an entry or updates the one being edited (`editingKey`);
  - the frequency count of `updateQuickButtons`, with its filter and its sort.
- `Table` (js/table.js) covers `normalizeText`, `filterEntries`, the `updateStatus` message, `editEntry` and `discardEdit`.
- `Categories` (js/categories.js) covers:
  - its own `normalizeText`, which is null-safe and does not trim;
  - the food checklist and the selected-foods set that persists across filtering;
  - `showCategoryModal`, `saveCategoryForm` and `togglePlotView`.
- `Plot` (js/plot.js) covers:
  - `wrapText`, with `measureText` as a parameter;
  - grouping rectangles by day and by overlapping hour range;
  - relabelling foods to category names;
  - hit testing;
  - the legend's sync of `hidden`.
- `Correlation` (js/correlation.js) covers:
  - the option-value encoding and decoding;
  - the timeframe clamp and its label;
  - `formatTimingDifference`;
  - `performCorrelationAnalysis`.

Code that updates state step by step is modelled as methods with loops. Each such method is proved equal to a specification function, and lemmas state the properties of that function. This covers the `forEach` pushes, the scan for the nearest target, the counting map, and the in-place updates of the form, checklist and rectangles. The main results are:

- `Correlation.PerformCorrelationAnalysis` returns `Analyze(..)`.
- Every record in the result is well formed:
  - its three counts add up to `total`, which is the number of its occurrences;
  - the score is NaN exactly when `total` is 0;
  - otherwise the score is `(pos − neg) / total` and lies in [−1, 1].
- The records are ordered by non-increasing score. Equal scores keep the map's enumeration order.
- An item text has a record exactly when one of its candidate occurrences is within the look-back of its nearest target. No text has two records.
- The nearest target is the earliest of the closest ones.
- The classification splits the time differences into the four ranges of the code. A difference of zero creates an empty entry, which gives a NaN score.

Times are integer milliseconds (`new Date(..)` is applied before the model). Scores are `real`, with a separate `NaN`. The normaliser used by the engine is a parameter, because js/table.js and js/categories.js both define a global `normalizeText`, and which one wins depends on script load order.

Behaviour the model reproduces:

- Ranking has no tie-break on item text (js/correlation.js:193). Equal scores keep the order of `Object.entries(correlationMap)`. `Correlation.AnalyzeStable` states this.
- Category targets read `category.items` (js/correlation.js:86-88). Categories are saved with `foods` (js/categories.js:169), so an analysis by category finds nothing. See "Findings".
- A candidate at the same time as its nearest target gets an entry with no count (js/correlation.js:138-170), so its total is 0 and its score is NaN. Another piece of the same entry is such a candidate. `Correlation.SameTimeNoCount` states this.
- The keys of the counting map enumerate array-index keys first, ascending, then the others in insertion order. A text such as "42" is an array-index key.
- An item's text is its piece with the first character upper-cased (js/app.js:25).
- The `normalizeText` of js/categories.js does not trim. The one in js/table.js does.

## Model

| member | source | states |
|---|---|---|
| App.PiecesShape | js/app.js:19-22 | every piece is non-empty, trimmed and free of commas, and the pieces are a subsequence of the trimmed comma parts |
| App.PieceShape | js/app.js:20-22 | one piece: non-empty, without a comma, equal to its own trim, with no white space at either end |
| App.PiecesEmpty | js/app.js:19-22 | an entry yields no piece exactly when its text is only commas and white space |
| App.PiecesPadded | js/app.js:21 | white space around a text does not change its pieces |
| App.PiecesConcat | js/app.js:20 | two texts joined by a comma give the pieces of the first followed by those of the second |
| App.CapitalizeFirst | js/app.js:25 | a piece's text is its first character upper-cased followed by the rest unchanged |
| App.EntryItems | js/app.js:19-26 | an entry yields exactly one item per piece |
| App.PieceItems | js/app.js:23-26 | item i is piece i capitalised, at the entry's time |
| App.BuildProcessedEntry | js/app.js:18-27 | the items are those of the earlier entries, then this entry's, then those of the later ones (flatMap order) |
| App.EntryItemsShape | js/app.js:23-26 | every item of an entry carries the entry's time, and its text is the corresponding piece with its first character upper-cased |
| App.ItemTextsShape | js/app.js:17-28 | no derived text is empty or contains a comma, when upper-casing keeps a character a single non-comma character |
| App.Texts | js/app.js:51 | the texts are the items' texts, position by position |
| App.QuickTexts | js/app.js:51 | at most six texts, none twice, all of them derived texts |
| App.QuickTextsFirstSeen | js/app.js:51 | the quick texts are in order of first occurrence, and a text is left out only when six texts occurring earlier are shown |
| App.AppendQuickPieces | js/app.js:55-56 | a quick button click leaves the pieces of the field followed by the pieces of the button's text; the frequency-sorted buttons of js/entry.js:55-58 use the same rule |
| App.QuickButtonClick | js/app.js:54-57 | the field becomes `current, t`, or `t` when the trimmed field is empty, and its pieces gain exactly the button's pieces; the buttons of js/entry.js:55-58 append the same way |
| App.AddEntry | js/app.js:7-15 | with an empty date or text nothing is stored and the text is kept; otherwise one `addRaw` of the date and text is issued and the text is cleared |
| App.PiecesOfTrim | js/app.js:21 | trimming a text first does not change its pieces |
| Entry.Submission | js/entry.js:9-16 | the write carries the entry, and it is an update exactly when a key is being edited |
| Entry.AddEntry | js/entry.js:2-21 | with no date or a blank trimmed text nothing changes; otherwise the trimmed entry is sent as an update of the edited key (editing ends, label "Save", discard hidden) or as a new entry, and the text is cleared |
| Entry.CountsAreOccurrences | js/entry.js:31-34 | the counted texts are exactly the texts that occur, each with its number of occurrences |
| Entry.CountTexts | js/entry.js:31-34 | the counting loop yields those counts, with the keys in order of creation |
| Entry.CountsStep | js/entry.js:33 | one round counts the next text once more, and creates a key exactly when the text is new |
| Entry.UpdateQuickButtons | js/entry.js:23-63 | the buttons are the counted keys, in enumeration order, filtered, and sorted by the comparator |
| Entry.QuickListMembers | js/entry.js:37-42 | the buttons are distinct, and a text has one exactly when it occurs and its normalised form contains the normalised filter, or the filter is empty |
| Entry.EmptyFilterShowsAll | js/entry.js:39 | an empty normalised filter keeps every distinct text |
| Entry.QuickListRanked | js/entry.js:43-46 | when `localeCompare` is a strict order, buttons are by count descending, ties by `localeCompare` ascending |
| Table.NormalizeText | js/table.js:6-8 | the result holds no code point in U+0300–U+036F |
| Table.NormalizeTextIgnoresPadding | js/table.js:7 | white space around a text does not change its normal form |
| Table.NormalizeBlank | js/table.js:7 | a blank text normalises to the empty string |
| Table.FilterEntriesSubsequence | js/table.js:12 | the result is a subsequence of the entries, in their order |
| Table.FilterEntriesKeeps | js/table.js:13-17 | an entry is kept exactly when the normalised query is empty or occurs in the entry's normalised text |
| Table.FilterEntriesEmptyQuery | js/table.js:14 | an empty normalised query keeps every entry |
| Table.FilterEntriesBlankQuery | js/table.js:11-14 | a blank query keeps every entry |
| Table.FilterEntriesIdempotent | js/table.js:10-19 | filtering twice with the same query equals filtering once |
| Table.StatusMessageEmpty | js/table.js:152-158 | with nothing shown: "No entries match filter" exactly when the total is known and positive, else "No entries" |
| Table.StatusMessageReports | js/table.js:159-165 | otherwise the message reads back as "Showing ", the number shown, then " of " and the total when they differ, and " entries." |
| Table.UpdateStatus | js/table.js:150-167 | the status text becomes that message |
| Table.EditEntry | js/table.js:112-139 | with no stored entry nothing changes; otherwise the key is edited, the date is the first 16 characters of the entry's time, the text the entry's text, label "Update", discard shown |
| Table.DiscardEdit | js/table.js:141-148 | editing ends, the text is cleared, the date is now, label "Save", discard hidden, nothing is written |
| Categories.NormalizeText | js/categories.js:9-11 | the result holds no code point in U+0300–U+036F |
| Categories.NormalizeMissing | js/categories.js:10 | a missing or empty text normalises to the empty string |
| Categories.NormalizeKeepsPlainText | js/categories.js:10 | a lower-case, decomposed text without marks is its own normal form, surrounding white space included (no trim) |
| Categories.FoodListShape | js/categories.js:117-124 | the displayed foods are distinct, strictly ascending, and exactly the logged texts that pass the filter |
| Categories.FoodListMember | js/categories.js:118-124 | a food is displayed exactly when it is logged and its normal form contains the normalised filter, or the filter is empty |
| Categories.SortedFoodsShape | js/categories.js:118 | `[...new Set(texts)].sort()` is distinct, sorted, and holds exactly the texts |
| Categories.UpdateFoodCheckboxes | js/categories.js:104-145 | the selection is reseeded only by a non-empty `assignedFoods`, otherwise kept; the display is the filtered food list, checked exactly where the food is selected |
| Categories.CheckboxStates | js/categories.js:126-133 | each checkbox is checked exactly when its food is in the selection |
| Categories.ToggleFood | js/categories.js:136-139 | toggling adds or removes exactly that food and leaves every other member as it was |
| Categories.CheckedFoodsSelected | js/categories.js:150 | the checked values are the displayed foods that are selected, in display order |
| Categories.FilterCategoryFoods | js/categories.js:147-152 | as written: the selection is reseeded from the visible checked boxes, and the list is refiltered |
| Categories.ReseedLosesHidden | js/categories.js:111-113 | a selected food hidden by the filter is dropped when some visible box is checked |
| Categories.ReseedExample | js/categories.js:147-152 | Apple and Bread selected, filter showing only Apple checked: the selection becomes Apple alone |
| Categories.FilterCategoryFoodsKeepingSelection | js/categories.js:147-152 | refiltering keeps the selection as it was and shows the filtered list |
| Categories.ShowCategoryModal | js/categories.js:60-102 | editing a missing category changes nothing; editing loads name, colour and the distinct foods; a new category starts empty with colour #FF6B6B; the search is cleared and the unfiltered list shown |
| Categories.ResetChecklist | js/categories.js:79 | the checklist shows the unfiltered list with exactly the given selection |
| Categories.SaveWrite | js/categories.js:171-177 | the write carries the category, and it is an update exactly when a non-empty key is set |
| Categories.SaveCategoryForm | js/categories.js:154-182 | a blank trimmed name only raises the alert; otherwise one write of the trimmed name, the colour and the selection as `foods`, and the modal closes; the name, colour, search, key and plot flag are kept in both cases |
| Categories.EditedKeyReadsBack | js/categories.js:173 | the key stored on the form reads back through `parseInt` as the category's key |
| Categories.ReopenRestoresSelection | js/categories.js:75 | reopening a saved category restores its selection exactly |
| Categories.TogglePlotView | js/categories.js:195-209 | 'foods' clears the flag, 'categories' sets it, any other value changes nothing; the form fields, alerts, writes and modal are kept in every case |
| Plot.WrapText | js/plot.js:10-29 | the loop yields the lines of the greedy word fold |
| Plot.WrappedLinesFit | js/plot.js:15-25 | every line is non-empty, and a line of two or more words measured at most `maxWidth` when it was formed |
| Plot.WrappedLinesJoin | js/plot.js:11-28 | when no word is empty, the lines joined by spaces give back the text |
| Plot.GroupByDay | js/plot.js:57-62 | the loop yields the day groups |
| Plot.DayGroupsAreVisibleRects | js/plot.js:58-62 | a day's group is exactly the visible rectangles of that day, in order, and days without one have no group |
| Plot.YGroups | js/plot.js:77-90 | the nested loop yields the overlap groups |
| Plot.FirstTouchingIsFirst | js/plot.js:80-88 | the search stops at the first group some member of which overlaps the rectangle |
| Plot.PlaceJoinsFirstOverlap | js/plot.js:78-89 | a rectangle joins the first group holding one it overlaps, and otherwise opens a new group at the end |
| Plot.OverlapGroupsPartition | js/plot.js:77-90 | every rectangle lands in exactly one group: the groups together are a permutation of the input |
| Plot.OverlapGroupsShape | js/plot.js:77-90 | each group is non-empty, a subsequence of the input (input order kept), and each later member overlaps an earlier one |
| Plot.BuildFoodToCategory | js/plot.js:171-176 | the nested loop yields the food-to-category map |
| Plot.LastCategoryWithIsLast | js/plot.js:172-175 | the category found is the last one whose foods hold the food, and none is found only when no category holds it |
| Plot.FoodToCategoryLastWins | js/plot.js:171-176 | a food maps to the name and colour of the last category listing it; a food no category lists has no entry |
| Plot.PlotDataLabels | js/plot.js:163-183 | in category mode with categories, each item is drawn under its category's name (its own text when it has no category or the name is empty); otherwise it keeps its text; times are kept |
| Plot.HitTest | js/plot.js:426-440 | the hit is the first rectangle that is not hidden, has a hit box, and contains the point with inclusive bounds; none only when no rectangle qualifies |
| Plot.SyncLegend | js/plot.js:391-395 | the array becomes the synced rectangles |
| Plot.SyncedChangesOnlyLabel | js/plot.js:391-395 | only `hidden` changes, only on rectangles with the dataset's label, and each of those gets `hidden = !visible` |
| Plot.SyncedIdempotent | js/plot.js:391-395 | syncing twice with the same visibility equals syncing once |
| Plot.HiddenLabelNotSelectable | js/plot.js:391-395 | after hiding a dataset no rectangle with its label can be hit |
| Correlation.DecodeEncodeItem | js/correlation.js:25 | an item option decodes to type "item" and exactly its text when all of it is read |
| Correlation.DecodeEncodeCategory | js/correlation.js:15 | a category option decodes, also as written, to type "category" and a value that `parseInt` reads back as the key |
| Correlation.DecodeAsWrittenItem | js/correlation.js:42 | as written, an item option gives back its text exactly when the text has no colon; otherwise only what comes before the first colon |
| Correlation.DecodeAsWrittenCutsAtColon | js/correlation.js:42 | as written the value is cut at a second colon, while the full decoding keeps it |
| Correlation.DecodeAsWrittenLosesText | js/correlation.js:42 | the item "Tea: green" is analysed as "Tea" |
| Correlation.ClampTimeframe | js/correlation.js:45 | the clamped timeframe lies in [1, 720] |
| Correlation.ClampTimeframeCases | js/correlation.js:45 | an unreadable or zero input gives 24, a negative one 1, one above 720 gives 720, any other its value |
| Correlation.ClampTimeframeIdempotent | js/correlation.js:344-346 | clamping a clamped value printed back changes nothing |
| Correlation.SyncTimeframeInputs | js/correlation.js:336-348 | from the slider the input copies it; otherwise both take the clamped input |
| Correlation.TimeframeLabelHours | js/correlation.js:217-218 | below a day the label reads back as the hours followed by " hour" or " hours" |
| Correlation.TimeframeLabelDays | js/correlation.js:219-221 | whole days read back as the days followed by " day" or " days" |
| Correlation.TimeframeLabelDaysHours | js/correlation.js:222-226 | otherwise the label reads back as the days, then "d ", then the hours left over, and ends with "h" |
| Correlation.FormatTimingDifference | js/correlation.js:323-334 | the pushes into `parts` yield the timing text |
| Correlation.TimingPartsSplit | js/correlation.js:324-331 | days·1440 + hours·60 + mins is the input, with hours < 24 and mins < 60, and there is one part per non-zero unit |
| Correlation.TimingPartsFirst | js/correlation.js:329-331 | the first part reads back as the largest non-zero unit |
| Correlation.TimingTextZero | js/correlation.js:333 | the text is "0 min" exactly when the input is 0 |
| Correlation.FlattenEntries | js/correlation.js:63-73 | the nested pushes yield the same items as `buildProcessed` of js/app.js |
| Correlation.FindCategoryFirst | js/correlation.js:85 | the category found for a key is the first one with that key |
| Correlation.FindCategoryMissing | js/correlation.js:84-85 | an unreadable key (NaN) or one no category has finds nothing |
| Correlation.ResolveTargetNone | js/correlation.js:76-93 | an unknown type, a missing category or one without `items` gives no target |
| Correlation.FindTargets | js/correlation.js:76-93 | the loop pushes exactly the target occurrences |
| Correlation.TargetsAndCandidates | js/correlation.js:77-109 | every item is a target (normalised equal to the value, or to some member) or a candidate, never both, each with its position |
| Correlation.NoTargetNoOccurrences | js/correlation.js:76-109 | without a target nothing is a target and every item is a candidate |
| Correlation.NearestIsClosest | js/correlation.js:114-123 | the chosen target minimises the distance in time, and every earlier target is strictly farther |
| Correlation.NearestTarget | js/correlation.js:114-123 | the scan with strict `<` finds that target and its distance |
| Correlation.ThresholdWithinLookback | js/correlation.js:101-103 | the threshold is at most 3 hours, at most half the look-back, and exactly 3 hours from a 6-hour timeframe |
| Correlation.ClassifyRanges | js/correlation.js:138-170 | positive exactly for delta in (0, thr], neutral for (thr, lookback], negative for [−lookback, 0), nothing for 0 or beyond the look-back |
| Correlation.RoundMinutes | js/correlation.js:135-159 | the minutes are the milliseconds divided by 60000, rounded half up |
| Correlation.CountKindsSum | js/correlation.js:176 | the counts of the three kinds add up to the number of occurrences |
| Correlation.RecordKeepsCounts | js/correlation.js:138-170 | recording an occurrence keeps each counter equal to the number of occurrences of its kind |
| Correlation.TallyStepSkips | js/correlation.js:125-127 | a candidate with no target or beyond the look-back leaves the map as it was |
| Correlation.TallyStepOthers | js/correlation.js:129-170 | a candidate in range gets an entry, new keys go last, and no other text's entry changes |
| Correlation.SameTimeNoCount | js/correlation.js:130-170 | a candidate at the same time as its nearest target gets an entry, zeroed when new, but no count and no occurrence |
| Correlation.TallyStepWellFormed | js/correlation.js:129-170 | one candidate keeps the keys distinct, the keys equal to the entries, and every entry's counters equal to its occurrences |
| Correlation.TallyAllWellFormed | js/correlation.js:112-171 | the whole map is well formed |
| Correlation.TallyAllKeys | js/correlation.js:112-171 | a text has an entry exactly when some candidate with that text is in range |
| Correlation.TallyAllNoTargets | js/correlation.js:125-127 | without targets the map stays empty |
| Correlation.TallyCandidates | js/correlation.js:112-171 | the loop fills the map as the candidates, one after the other, do |
| Correlation.ScoreOfWellFormed | js/correlation.js:175-190 | a record's counts add up to `total`, which is its number of occurrences; the score is NaN exactly when `total` is 0, and otherwise equals (pos − neg)/total and lies in [−1, 1] |
| Correlation.RatioBounds | js/correlation.js:177-179 | pos/total − neg/total equals (pos − neg)/total and lies in [−1, 1] |
| Correlation.ScoreRecords | js/correlation.js:175-190 | one record per key, in the given order, each scoring its key's entry |
| Correlation.ScoreCorrelations | js/correlation.js:174-190 | the loop pushes those records |
| Correlation.PerformCorrelationAnalysis | js/correlation.js:56-200 | the function returns the analysis of the time-sorted entries for the resolved target |
| Correlation.AnalyzeScoresWellFormed | js/correlation.js:175-199 | every returned record is well formed |
| Correlation.AnalyzeSorted | js/correlation.js:193 | the result is a permutation of the records and is ordered by non-increasing score |
| Correlation.AnalyzeStable | js/correlation.js:193 | with no NaN score, the records of each score keep the map's enumeration order |
| Correlation.AnalyzeEntries | js/correlation.js:112-199 | a text has a record exactly when some candidate with that text is within the look-back of its nearest target |
| Correlation.AnalyzeDistinctItems | js/correlation.js:175-199 | no text has two records |
| Correlation.NoTargetNoCorrelations | js/correlation.js:76-199 | with no target the result has no occurrence and no record |
| Correlation.SavedCategoryFindsNothing | js/correlation.js:84-93 | as written, a category saved by the category form (with `foods`, without `items`) yields no occurrence and no record |
| Correlation.SavedCategoryByFoods | js/categories.js:169 | reading `foods` instead, the same category targets exactly its saved foods |
| Correlation.ByFoodsCountsLoggedFood | js/correlation.js:86-90 | with that target, a logged item equal under the normaliser to one of the foods is counted as an occurrence |

## Left out

- JavaScript strings are UTF-16. Here a `char` is a Unicode scalar value, so surrogate pairs are not modelled.
- `toLowerCase`, `toUpperCase`, `normalize('NFD')`, `localeCompare` and `measureText` are uninterpreted parameters. Lemmas that need a property of them, such as the empty string mapping to itself, take it as a `requires`.
- Parsing dates with `new Date(..)` is not modelled, and neither is local time. Times are integer milliseconds. Invalid dates (NaN) are not modelled. The sort of the raw entries compares those milliseconds.
- Floating point: times and thresholds are exact integers. Scores are exact reals with a separate NaN. So the ties of `Correlation.AnalyzeStable` are ties of reals: in doubles, pos 3, neg 1, total 10 gives 0.19999999999999998, which sorts after the 0.2 of pos 1, total 5, while the model ties the two at 1/5 and keeps insertion order.
- When a NaN score is present, the comparator `b.score - a.score` is inconsistent, so the engine's order is implementation-defined. The model uses a stable insertion sort, which is one admissible order, and proves the ordering only among non-NaN scores.
- An `Array.prototype.sort` call is modelled as a function on a sequence. The in-place update and the aliasing of the array are not modelled.
- Inherited keys of plain objects are not modelled. A text such as `__proto__` or `constructor` would make `counts[t] || 0` and `correlationMap[itemText]` read `Object.prototype`.
- IndexedDB: stored entries and categories, and the key a category has, are inputs. The writes `addRaw`, `updateRaw`, `addCategory` and `updateCategory` are recorded as a list of requests. js/db.js is not part of this model.
- The DOM and rendering are not modelled:
  - `displayCorrelationResults` markup, percentages and colour bands;
  - `populateCorrelationSelect`, beyond the encoding of its option values;
  - `updateCategoriesList`, the Chart.js configuration, `setCategoryColorVisual`, `generateColor` and `getHourValue`;
  - pixel geometry, and the resize and debounce timers;
  - `autoGrow`, `setSelectionRange`, `refresh`, and the `updateStatus` of js/app.js.
- `analyzeCorrelation` is glue. The model has its pieces: the decoding of the option value, the clamp, and the analysis. The target value is never `undefined`, because the encoded options always hold a colon.
- The category colour shown in the plot legend (js/plot.js:185-190) and the touch handler (js/plot.js:445-466) are not modelled separately. The touch handler tests the same hit as `Plot.HitTest`.
- App.ItemTextsShape: states the comma-free shape of derived texts only for an upper-casing that keeps a non-comma character a single non-comma character. The built-in is uninterpreted.
- Entry.QuickListRanked: states the ranking only when `localeCompare` is a strict order on the texts. The built-in is uninterpreted.
- Correlation.AnalyzeSorted: states the order only between records whose scores are numbers (see NaN above).
- Correlation.AnalyzeStable: states the stability only when no record has a NaN score.
- The fallback `typeof normalizeText === 'function' ? .. : ..` in js/entry.js is the `norm` parameter: the identity when no normaliser is loaded.

## Findings

| source | as written | input that shows it | evidently intended | confidence | as-written member | corrected member |
|---|---|---|---|---|---|---|
| js/correlation.js:86-88 | a category target reads `category.items`, but js/categories.js:169 saves categories as `{ name, color, foods }` | a category saved with foods ["Milk"] and "Milk" logged: the analysis by that category finds 0 occurrences | read the saved `foods`, as js/plot.js:173 does | high; not executed | Correlation.SavedCategoryFindsNothing | Correlation.SavedCategoryByFoods |
| js/categories.js:147-152 | refiltering reseeds the selection from the visible checked boxes, dropping selected foods the new filter hides | Apple and Bread selected, the search "app" typed letter by letter: after "ap" only Apple is on display, so the refilter at the third letter reseeds from that list and the selection becomes just Apple, although the full list would keep Bread | keep the selection across filtering, as the comments at js/categories.js:5 and 149 say | high; not executed | Categories.ReseedLosesHidden | Categories.FilterCategoryFoodsKeepingSelection |
| js/correlation.js:42 | `select.value.split(':')` keeps only the text before the second colon | the item "Tea: green" (option `item:Tea: green`) is analysed as "Tea" | take everything after the first colon as the value | high; not executed | Correlation.DecodeAsWrittenLosesText | Correlation.DecodeEncodeItem |

In each row the as-written member models the code and exhibits the discrepancy. The corrected member proves the intended property of the corrected definition:

- `Correlation.ResolveTargetByFoods` is the corrected target resolution. `Correlation.Analyze` takes the resolved target, so it applies to either resolution, and `Correlation.ByFoodsCountsLoggedFood` shows the corrected one counts a logged food.
- `Categories.FilterCategoryFoodsKeepingSelection` is the corrected refilter.
- `Correlation.Decode` is the corrected decoding.

`Correlation.PerformCorrelationAnalysis` keeps the resolution as written, so that it models what the code returns.
