# editorjs-codeflask language selector, modelled in Dafny

This project models the logic of the editorjs-codeflask block tool (`src/codeflask.js`) that does not depend on the DOM. It covers five parts:

- **The language catalog** (`_getAvailableLanguages`). It takes the grammar registry's keys and drops the helper keys `extend`, `insertBefore` and `DFS`. It also drops every key whose value is falsy or is neither an object nor a function. The rest is sorted by lower-cased name and cached on the instance. The registry is a sequence of `(key, kind of value)` pairs in key order. The value kinds follow JavaScript's `typeof` and truthiness, so `null` is dropped even though `typeof null` is `"object"`. The sort is stable, as `Array.prototype.sort` is. Module `Catalog` proves four things about the result: it is sorted, it is a permutation of the filtered keys, it is stable, and it holds exactly the keys that pass both filters, each once.
- **The search filter and list rendering** (`_renderLangChooserList`). The search value is trimmed with JavaScript's whitespace set and lower-cased. The `for` loop keeps the catalog entries whose lower-cased name contains the query, marks the entry equal to the current language, and counts the entries it appends. When nothing matches, it adds one "no results" row. `ChooserList.BuildRows` is that loop, proved equal to the specification function `ListRows`. The lemmas beside it prove several facts:
  - the items form an order-preserving subsequence of the catalog;
  - the items are exactly the matching entries;
  - a blank query shows everything;
  - there is one placeholder row exactly when nothing matches;
  - the selection mark is correct.
- **The overlay state machine and its document listener**. Class `CodeFlaskTool.CodeFlaskBlock` has these operations:
  - `render` (with the chooser, the button and the close handler built only outside read-only mode);
  - toggle and close;
  - typing in the search field;
  - the document `pointerdown` handler;
  - `destroy`.

  The field `removeListener` stands for `_removeLangChooserListeners`. The field `docListeners` counts this block's listeners on the document. The class invariant `Valid` ties these together:
  - at most one listener is installed, and only while the flag is set;
  - the flag implies the chooser exists;
  - the chooser and the button exist together, and only after an editable render;
  - a closed state is forced when there is no chooser;
  - the list rows match the catalog, the query they were filtered by and the language they were marked against;
  - that query is the search field's value, trimmed and lower-cased, so the list shows what the field holds;
  - the button's label and title show the current language;
  - the cache holds the catalog once it is filled.
- **Selection** (`_updateLanguage` and the click handler of an item). Selecting a language sets the block's language, the button's label and title, and the editor's language, and then closes the overlay.
- **Block data**: the constructor's defaults, `save`, and the height rule `max(21·n + 10, 60)` px for `n` lines.

The JavaScript string operations the code relies on are modelled in module `Text`:

- `trim`, with the ECMAScript WhiteSpace and LineTerminator code points;
- `toLowerCase`, restricted to ASCII letters;
- `includes`;
- `split` on one character.

The editing surface (CodeFlask) is abstract state: the code it holds, its language, and the height of the wrapper.

`_debounce` (`src/codeflask.js:191-197`) is written as a trailing debounce. However, the `onUpdate` handler at `src/codeflask.js:167` calls `_updateEditorHeight` immediately and passes its result (`undefined`) to `_debounce`. The closure that `_debounce` returns is never invoked, so every content change writes the height at once. The model follows the code: `EditCode` writes the height immediately.

## Model

| member | source | states |
|---|---|---|
| Block.LineCount | src/codeflask.js:166 | Defined as the number of pieces of `Split(code, '\n')`. Its property is lemma `LineCountIsNewlinesPlusOne`. |
| CodeFlaskTool.ButtonTitle | src/codeflask.js:219 | Defined as `"Language: " + lang`, the button's tooltip. `BuildButton`, `UpdateLanguage` and the invariant `Valid` use it. |
| Text.TrimStart | src/codeflask.js:300 | Defined as dropping leading whitespace one character at a time. Its property is lemma `TrimStartSpec`. |
| Text.TrimEnd | src/codeflask.js:300 | Defined as dropping trailing whitespace one character at a time. Its property is lemma `TrimEndSpec`. |
| Text.Trim | src/codeflask.js:300 | Defined as `TrimEnd(TrimStart(s))`, i.e. `String.prototype.trim`. Its properties are lemmas `TrimStartSpec`, `TrimEndSpec` and `TrimIsEmptyIffBlank`. |
| Text.Lower | src/codeflask.js:300 | Defined as `LowerChar` applied to each character (`toLowerCase`). Its properties are `LowerChar`'s contract and lemma `LowerIdempotent`. |
| Text.Includes | src/codeflask.js:323 | Defined as "`q` is a prefix of `s` or of one of its suffixes" (`includes`). Its properties are lemmas `OccursAtIncludes` and `IncludesIffOccurs`. |
| ChooserList.NormalizeQuery | src/codeflask.js:300 | Defined as `Lower(Trim(value))`. Its property is lemma `BlankQueryShowsAll`. |
| ChooserList.Matches | src/codeflask.js:323 | Defined as the loop's test: an empty query, or the lower-cased name includes it. Its properties are lemmas `FilterMatchesSubstring` and `FilterEmptyQuery`. |
| ChooserList.FilterLangs | src/codeflask.js:321-326 | Defined as the matching catalog entries in catalog order. Its properties are lemmas `FilterIsSubsequence`, `FilterCount`, `FilterMatchesSubstring` and `FilterEmptyQuery`. |
| ChooserList.ListRows | src/codeflask.js:320-333 | Defined as the item rows of `FilterLangs`, or the single placeholder when there are none. Its properties are method `BuildRows` and lemmas `ListRowsShape` and `SelectionMark`. |
| Catalog.TypeOf | src/codeflask.js:242-244 | Defined as JavaScript's `typeof`, with `null` giving `"object"`. Its property is `IsGrammarValue`'s contract. |
| Catalog.Truthy | src/codeflask.js:241 | Defined as JavaScript truthiness (`false`, `0`, `NaN`, `0n`, `""`, `null` and `undefined` are falsy). Its property is `IsGrammarValue`'s contract. |
| Catalog.Candidates | src/codeflask.js:235-246 | Defined as the registry keys that pass the deny-list and the shape filter, in registry order. Its properties are lemmas `CandidatesMembers` and `CandidatesDistinct`. |
| Catalog.NameLe | src/codeflask.js:248 | Defined as the comparator: `LexLe` of the lower-cased names. Its properties are lemmas `LexLeReflexive`, `LexLeTotal`, `LexLeTransitive` and `LexLeAntisymmetric`. |
| Catalog.InsertByName | src/codeflask.js:248 | Defined as inserting a name before the first element it does not sort above. Its properties are lemmas `InsertPermutes`, `InsertSorted`, `InsertStable` and `InsertDistinct`. |
| Catalog.SortByName | src/codeflask.js:248 | Defined as a stable insertion sort by `NameLe` (`raw.sort`). Its properties are lemmas `SortSorted`, `SortPermutes`, `SortStable` and `SortDistinct`. |
| Catalog.AvailableLanguages | src/codeflask.js:235-249 | Defined as `SortByName(Candidates(reg))`, what `_getAvailableLanguages` computes and caches. Its properties are lemmas `CatalogSorted`, `CatalogMembers`, `CatalogExcludes`, `CatalogListsEachGrammarOnce` and `CatalogDistinct`. |
| Block.WithDefaults | src/codeflask.js:106-109 | Each of code, language and line-number flag is kept when given. Otherwise it defaults to `""`, `"plain"` and `true`. |
| Block.ReloadSaved | src/codeflask.js:106-109 | Loading a saved `{code, language, showlinenumbers}` object back into the constructor yields the same data. |
| Block.EditorHeight | src/codeflask.js:181-188 | The height is at least 60 px and at least `21·n + 10`. It is one of those two values. |
| Block.EditorHeightMonotone | src/codeflask.js:184-185 | More lines never give a smaller height. |
| Block.LineCountIsNewlinesPlusOne | src/codeflask.js:166 | `code.split('\n').length` is the number of newlines plus one. |
| Text.TrimStartSpec | src/codeflask.js:300 | Trimming the front removes exactly the leading whitespace. What is left is a suffix that does not start with whitespace. |
| Text.TrimEndSpec | src/codeflask.js:300 | Trimming the end removes exactly the trailing whitespace. What is left is a prefix that does not end with whitespace. |
| Text.TrimIsEmptyIffBlank | src/codeflask.js:300 | `trim()` yields the empty string exactly when the value is whitespace only. |
| Text.LowerChar | src/codeflask.js:300 | `A`-`Z` map to `a`-`z`. Every other character is unchanged. |
| Text.LowerIdempotent | src/codeflask.js:300 | Lower-casing twice is lower-casing once. |
| Text.OccursAtIncludes | src/codeflask.js:323 | An occurrence of the query at any position makes `includes` true. |
| Text.IncludesIffOccurs | src/codeflask.js:323 | `includes(q)` holds exactly when `q` occurs at some position. |
| Text.LexLeReflexive | src/codeflask.js:248 | The comparison standing in for `localeCompare` is reflexive. |
| Text.LexLeTotal | src/codeflask.js:248 | It is total. |
| Text.LexLeTransitive | src/codeflask.js:248 | It is transitive. |
| Text.LexLeAntisymmetric | src/codeflask.js:248 | It is antisymmetric. |
| Text.Split | src/codeflask.js:166 | `split('\n')` yields at least one piece. |
| Text.SplitCount | src/codeflask.js:166 | The pieces number one more than the separators. |
| Text.SplitPiecesFree | src/codeflask.js:166 | No piece contains the separator. |
| Text.JoinSplit | src/codeflask.js:166 | Joining the pieces with the separator restores the code, so splitting loses nothing. |
| Catalog.IsGrammarValue | src/codeflask.js:239-246 | The shape filter keeps a value exactly when it is an object or a function. `null` and all primitives are dropped. |
| Catalog.InsertPermutes | src/codeflask.js:248 | Inserting into the sorted prefix adds exactly the inserted name. |
| Catalog.InsertSorted | src/codeflask.js:248 | Inserting into a sorted sequence keeps it sorted by lower-cased name. |
| Catalog.SortSorted | src/codeflask.js:248 | The sort's result is ascending by lower-cased name. |
| Catalog.SortPermutes | src/codeflask.js:248 | The sort neither loses nor adds a name: same multiset. |
| Catalog.InsertStable | src/codeflask.js:248 | An inserted name goes before the equal-comparing names already there. |
| Catalog.SortStable | src/codeflask.js:248 | Names that lower-case alike keep their registry order. |
| Catalog.InsertDistinct | src/codeflask.js:248 | Inserting a new name keeps a sequence free of repetitions. |
| Catalog.SortDistinct | src/codeflask.js:248 | Sorting keeps a sequence free of repetitions. |
| Catalog.CandidatesMembers | src/codeflask.js:235-246 | A key survives both filters exactly when some registry entry with that key is not a helper key and holds an object or function. |
| Catalog.CandidatesDistinct | src/codeflask.js:236-246 | Distinct registry keys give filtered keys without repetitions. |
| Catalog.CatalogSorted | src/codeflask.js:248-250 | The catalog is sorted ascending by lower-cased name. Among names equal when lower-cased, the registry order is kept. |
| Catalog.CatalogMembers | src/codeflask.js:235-250 | A name is in the catalog exactly when a registry entry with that key passes both filters. |
| Catalog.CatalogExcludes | src/codeflask.js:235-246 | `extend`, `insertBefore` and `DFS` never appear. Nor does a key whose value is falsy or not an object or function. |
| Catalog.CatalogListsEachGrammarOnce | src/codeflask.js:235-250 | Every key that passes both filters appears exactly once. |
| Catalog.CatalogDistinct | src/codeflask.js:236-250 | The catalog has no repetitions. |
| ChooserList.BuildRows | src/codeflask.js:320-333 | The loop's rows equal `ListRows`: the items of the matching languages in catalog order, each marked when equal to the current language, or the single placeholder. |
| ChooserList.FilterIsSubsequence | src/codeflask.js:321-326 | The items are taken from strictly increasing catalog positions, element for element. A position is taken exactly when its entry matches. |
| ChooserList.FilterCount | src/codeflask.js:321-326 | A matching language appears as often as in the catalog, and a non-matching one never. Membership holds iff the language is in the catalog and matches. |
| ChooserList.FilterMatchesSubstring | src/codeflask.js:300-326 | Every shown language's lower-cased name contains the normalised query. |
| ChooserList.FilterEmptyQuery | src/codeflask.js:323 | An empty query keeps the whole catalog. |
| ChooserList.BlankQueryShowsAll | src/codeflask.js:300-326 | An empty or whitespace-only search value normalises to `""` and shows the whole catalog. |
| ChooserList.ItemRowsShape | src/codeflask.js:306-326 | The item rows name exactly the given languages, hold no placeholder, and are marked as often as the current language occurs. |
| ChooserList.ListRowsShape | src/codeflask.js:320-333 | The rows show exactly the matching languages. There is one placeholder exactly when nothing matches, and none otherwise. |
| ChooserList.SelectionMark | src/codeflask.js:310 | Only an item equal to the current language is marked `is-selected`. When the catalog has no repetitions, exactly one item is marked when that language is shown, and none otherwise. |
| ChooserList.OpenListShowsCatalog | src/codeflask.js:354-357 | The list rendered with the cleared search field shows the whole catalog. |
| CodeFlaskTool.CodeFlaskBlock.constructor | src/codeflask.js:106-109 | The data takes the defaults. Nothing is rendered. The overlay is closed, and no listener or cached catalog exists. |
| CodeFlaskTool.CodeFlaskBlock.GetAvailableLanguages | src/codeflask.js:232-251 | It returns the catalog and fills the cache. Once the cache is filled, the cached sequence is returned unchanged. |
| CodeFlaskTool.CodeFlaskBlock.RenderList | src/codeflask.js:298-334 | With a list present, the rows become `ListRows(catalog, trim-and-lower(query), language)`. Without one, nothing changes. |
| CodeFlaskTool.CodeFlaskBlock.InstallCloseHandlers | src/codeflask.js:368-393 | A previous listener is removed before the new one is added, so exactly one is installed afterwards. |
| CodeFlaskTool.CodeFlaskBlock.BuildChooser | src/codeflask.js:270-296 | The chooser exists and is closed. Its search field is empty and it lists the whole catalog, marked against the current language. |
| CodeFlaskTool.CodeFlaskBlock.BuildButton | src/codeflask.js:253-268 | The button exists. Its text is the language and its title is `Language: <language>`. |
| CodeFlaskTool.CodeFlaskBlock.BuildSelector | src/codeflask.js:150-154 | Chooser, button and exactly one listener exist, with the overlay closed and the full list. The invariant holds. |
| CodeFlaskTool.CodeFlaskBlock.Render | src/codeflask.js:140-179 | The editor holds the code and the language. The selector (closed, empty query, full list, labelled button, one listener) exists exactly outside read-only mode. In read-only mode no listener exists. |
| CodeFlaskTool.CodeFlaskBlock.Close | src/codeflask.js:363-366 | Afterwards the overlay is closed, whatever its state before, so closing is idempotent. |
| CodeFlaskTool.CodeFlaskBlock.Toggle | src/codeflask.js:336-361 | Without chooser or button, nothing changes. Open becomes closed with query and list unchanged. Closed becomes open with the query `""` and the whole catalog listed. |
| CodeFlaskTool.CodeFlaskBlock.TypeQuery | src/codeflask.js:280 | An input event re-renders the list for the new value, normalised. |
| CodeFlaskTool.CodeFlaskBlock.OnDocPointerDown | src/codeflask.js:374-387 | The overlay is closed afterwards exactly when it was open, the selector exists and the target lies outside both the chooser and the button. Otherwise it is unchanged. |
| CodeFlaskTool.CodeFlaskBlock.DocumentPointerDown | src/codeflask.js:389-392 | A document pointer-down reaches the handler only while the listener is installed. |
| CodeFlaskTool.CodeFlaskBlock.UpdateLanguage | src/codeflask.js:214-230 | The language and the editor's language become `lang`. The button, if present, shows `lang` with title `Language: lang`. |
| CodeFlaskTool.CodeFlaskBlock.SelectItem | src/codeflask.js:311-316 | Clicking a shown item sets the language, the button text to it and the title to `"Language: " + lang`, and closes the overlay. The selected language is a catalog member. |
| CodeFlaskTool.CodeFlaskBlock.ToggleLineNumbers | src/codeflask.js:205-212 | The line-number flag flips. Nothing else changes. |
| CodeFlaskTool.CodeFlaskBlock.OnPaste | src/codeflask.js:431-446 | Without content nothing changes. Otherwise the pasted text becomes the code, and also the editor's code once the editor exists. |
| CodeFlaskTool.CodeFlaskBlock.EditCode | src/codeflask.js:164-169 | After a change of the editor's code, the wrapper's height is `EditorHeight` of its line count. |
| CodeFlaskTool.CodeFlaskBlock.Save | src/codeflask.js:403-411 | The saved data is the editor's code with the stored language and line-number flag. |
| CodeFlaskTool.CodeFlaskBlock.Destroy | src/codeflask.js:470-475 | Afterwards no listener is installed, whatever the state before, so destroying is idempotent. |
| CodeFlaskTool.SaveAfterRender | src/codeflask.js:403-411 | Saving right after rendering returns the loaded data with its defaults. |
| CodeFlaskTool.CatalogIsCached | src/codeflask.js:232-251 | Two calls of the accessor return the same sorted catalog. |
| CodeFlaskTool.ReopenShowsCatalog | src/codeflask.js:354-357 | After typing a query, closing and reopening lists the whole catalog again. |
| CodeFlaskTool.OpenAndSelectFirst | src/codeflask.js:311-316 | Opening and clicking the first item selects it, labels the button with it and leaves the overlay closed. |
| CodeFlaskTool.DestroyIsIdempotent | src/codeflask.js:470-475 | After two `destroy` calls no listener remains, and a later outside pointer-down no longer closes the open overlay. |

## Left out

- DOM construction, CSS class names, the icon and style imports, and focus handling are left out. Elements are booleans and fields, and item rows are a datatype.
- `renderSettings`, `toolbox`, `pasteConfig`, `isReadOnlySupported`, and the unused `placeholder` and `preserveBlank` configuration are static metadata with no behaviour to state.
- `onKeyUp` (src/codeflask.js:122-132) is bound at src/codeflask.js:90 but never attached as a listener, so it never runs.
- CodeFlask and Prism are foreign libraries. The editor is the fields `editorCode`, `editorLanguage` and `height`. Grammar registration (`addLanguage`, wrapped in `try`/`catch`) is a no-op on the model's state.
- CodeFlaskTool.CodeFlaskBlock.Render: it states the state right after `render` returns. CodeFlask's own update notification after `updateCode`, which sets the height later, is the separate operation `EditCode`.
- The `getBoundingClientRect` positioning of the overlay is left out: it depends on layout and floating-point values.
- The `setTimeout` debounce is left out. The code writes the height on every change; see above.
- Catalog.NameLe: compares ASCII-lower-cased names in code-point order, in place of the locale-aware `localeCompare` of Unicode-lower-cased names.
- Text.Lower: maps only `A`-`Z`, not the full Unicode `toLowerCase`.
- The registry is the sequence of its entries in `Object.keys` order. An absent `Prism.languages` is the empty registry. The `Array.prototype.sort` algorithm is modelled as a stable insertion sort.
- The registry is fixed for the life of a block, because nothing in `src/codeflask.js` writes to `Prism.languages`. The model therefore does not capture the source's stale cache when a grammar is registered elsewhere after the first call. `CatalogIsCached`'s `first == second` holds both because of the cache and because `AvailableLanguages` is a function of that fixed registry.
- Block.WithDefaults: data fields are strings and booleans. A non-string `code` or `language` supplied by the host (for example `null`) is not modelled.
- CodeFlaskTool.CodeFlaskBlock.Save and CodeFlaskTool.CodeFlaskBlock.UpdateLanguage: they require a rendered block. Before `render` the editor instance is `{}`, and `getCode`/`updateLanguage` would throw.
- The `is-selected` marks are set when the list is rendered and are not refreshed by a selection. The invariant therefore tracks the language the rows were marked against (`rowsMarked`), which the next opening brings back to the current language.
