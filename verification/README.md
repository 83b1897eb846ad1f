# Theme composition and UI helpers, modelled in Dafny

This project models the core logic of a web-component library's build
tooling and a few of its components. It proves properties of that model.

**Theme composition engine** (`bin/builder/Theme.js`). A style registry
maps theme → component → mode → style text. A list of commands turns it
into a generated table of contribution buckets: component → mode → bucket.
A bucket holds each contributing theme's code, the operation that wrote
it, its priority, and the bucket's `_max_priority`. The model covers:

- the `themes` operation, which seeds the base theme;
- `overridden` and `extended`, each with `all`, `intersect` or
  `difference` over the tail themes, matched by `component` or by `mode`;
- the `difference` scratch table and its copy into the generated table;
- the `insert` helper;
- the payload check `_check`, `THEMES.isValid` and the command loop of
  `run`;
- `getMode`, which reads a mode from a style file name.

Files:

- `theme_model.dfy`: buckets and tables.
- `theme_options.dfy`: payload validation.
- `theme_runner.dfy`: the operations.
- `theme_laws.dfy`: the proved laws.
- `theme_files.dfy`: file names.
- `json.dfy`: the payload values.
- `strings.dfy`: the JavaScript string primitives the sources use.

**Grid component** (`psk-grid.tsx`). `grid.dfy` models:

- the layout parser `_createLayoutRules`, including JavaScript `parseInt`;
- the class each child receives (`_getClass`, the breakpoint switch);
- the row loop of `render`.

**Barcode scanner** (`psk-barcode-scanner.tsx`). `barcode.dfy` models:

- the GS1 group-separator formatting of `decodeCallback`;
- the red-channel copy of `decodeImage`.

**Utilities** (`utils.ts`). `utils.dfy` models `format`, the selector and
history URL of `scrollToElement`, and `closestParentElement`.

**Flags** (`bin/helpers/flags.js`). `flags.dfy` models the `FlagManager`
constructor and `add`.

**Attachments** (`psk-attachments-list.tsx`). `attachments.dfy` models
the extension → icon switch.

### Behaviour of the code worth knowing

- **`reset` does nothing.** `_resetTask` is an empty stub
  (Theme.js:217-219), so `Task` leaves the state unchanged for it.
- **`themes` is not idempotent.** `_themesTask` never clears the table,
  and it re-inserts the base theme at `_max_priority + 1`. A second run
  therefore moves the base theme to priority 2 and leaves priority 1
  unused (`ThemeLaws.ThemesTwiceBumps`).
- **Re-inserting a theme leaves a gap.** `insert` overwrites the record of
  a theme already in a bucket and also bumps `_max_priority`, so the
  theme's old priority is left unused (`ThemeLaws.InsertLeavesGap`).
  Priorities stay exactly 1..max only while themes not yet present are
  inserted (`ThemeLaws.InsertKeepsContiguous`). The invariant that holds
  for every run is `ThemeLaws.RunKeepsRanked`: priorities are distinct,
  lie in 1..max, and max is used.
- **`themes` accepts any array of strings.** An empty list, or an
  unregistered base theme, then crashes on `Object.keys(undefined)`. The
  model reports both as `Threw`. So does a `null` payload for override or
  extend, and an unregistered tail theme whose components must be listed.
- **Extra payload keys are accepted.** `_check` only looks at `match`,
  `type` and `components`.

## Model

| member | source | states |
|---|---|---|
| ThemeModel.Single | bin/builder/Theme.js:142-149 | a new bucket has max priority 1 and holds only the theme, at priority 1 |
| ThemeModel.Insert | bin/builder/Theme.js:140-159 | an absent bucket becomes a fresh priority-1 bucket; an existing one gets the theme at max+1, the max goes up by one, and every other theme's record is kept; a well-ranked bucket stays well-ranked |
| ThemeModel.Fresh | bin/builder/Theme.js:239-250 | reseeding a component gives each of the theme's modes a single-record bucket, and no other modes |
| ThemeModel.InsertAll | bin/builder/Theme.js:417-419 | inserting a theme into a component's modes touches exactly the theme's modes and keeps the others |
| ThemeModel.InsertAllRanked | bin/builder/Theme.js:417-419 | inserting a theme into well-ranked buckets keeps every one of them well-ranked |
| ThemeOptions.MatchOf | bin/builder/Theme.js:17 | only the strings 'component' and 'mode' are match values |
| ThemeOptions.SetOpOf | bin/builder/Theme.js:18 | only 'all', 'difference' and 'intersect' are type values |
| ThemeOptions.Check | bin/builder/Theme.js:31-50 | the payload check accepts exactly the objects with a valid `type` and a valid `match`, where an extend of type 'all' may omit `match`, and whose truthy `components` is an array of strings |
| ThemeOptions.Decode | bin/builder/Theme.js:225-231 | the decoded options carry the payload's type, its match (absent only for an extend of type 'all'), and its components list exactly when that key is truthy |
| ThemeOptions.ThemeList | bin/builder/Theme.js:53-59 | a theme list is accepted exactly when it is an array of strings, empty or not, and it is copied item by item |
| ThemeRunner.Contribute | bin/builder/Theme.js:239-250 | a theme's contribution to a component adds exactly the kept modes and leaves the other modes untouched |
| ThemeRunner.VisitAt | bin/builder/Theme.js:228-422 | one theme's pass over one component: a component the theme lacks is left alone; intersect never creates or deletes a component, and with mode match it keeps the mode set; component-match difference leaves a component present before the operation alone |
| ThemeRunner.SweepTheme | bin/builder/Theme.js:233-251 | a theme's pass changes only components that are among its candidates and that the theme defines |
| ThemeRunner.Sweep | bin/builder/Theme.js:230-252 | the passes of all tail themes change only components some tail theme offers |
| ThemeRunner.Copy | bin/builder/Theme.js:105-128 | copying the difference scratch table into the generated table keeps every bucket well-ranked |
| ThemeLaws.CopyFillsAbsentMode | bin/builder/Theme.js:115-127 | with match 'mode', a mode the table lacks is filled from the scratch table |
| ThemeRunner.ThemesTask | bin/builder/Theme.js:185-190 | `themes` records the new theme list |
| ThemeRunner.ApplyTask | bin/builder/Theme.js:221-226 | override and extend never change the theme list |
| ThemeRunner.Task | bin/builder/Theme.js:167-226 | unknown keys and `reset` change nothing; an invalid payload is skipped; `themes` with an empty list or an unregistered base throws, else runs the seeding; a null override or extend payload throws; a valid one runs the operation when every tail theme's components can be listed, and throws otherwise; only `themes` changes the theme list |
| ThemeRunner.RunFields | bin/builder/Theme.js:442-444 | a record without keyword keys changes nothing, and one without a `themes` key keeps the theme list |
| ThemeRunner.RunFieldsAppend | bin/builder/Theme.js:442-444 | the keys of a record run strictly in order, and a throw stops the remaining keys |
| ThemeRunner.RunCommand | bin/builder/Theme.js:441-444 | a null record throws; a string, number, boolean or array record changes nothing; a record without a `themes` key keeps the theme list |
| ThemeRunner.RunFrom | bin/builder/Theme.js:441-445 | a completed run met no null record; a run of records without keyword keys changes nothing |
| ThemeRunner.Run | bin/builder/Theme.js:433-445 | no commands leave the initial state; a completed run met no null record |
| ThemeLaws.RunKeepsRanked | bin/builder/Theme.js:441-445 | every bucket of a completed run is well-ranked: distinct priorities in 1..max, with max used |
| ThemeLaws.RunAppend | bin/builder/Theme.js:441-445 | running two command lists one after the other is running their concatenation, and a crash in the first stops the rest |
| ThemeLaws.ApplyTaskRanked | bin/builder/Theme.js:221-423 | every override and extend keeps every bucket well-ranked, including the copy of the difference scratch table |
| ThemeLaws.TaskKeepsRanked | bin/builder/Theme.js:167-183 | one command keeps every bucket well-ranked |
| ThemeLaws.ThemesSeedsBase | bin/builder/Theme.js:192-214 | `themes` inserts the base theme into each of its own locations, from 'themes', and leaves every other location as it was |
| ThemeLaws.ThemesTwiceBumps | bin/builder/Theme.js:192-214 | running `themes` twice on a fresh location leaves the base theme alone at priority 2, with priority 1 unused |
| ThemeLaws.InsertLeavesGap | bin/builder/Theme.js:153-158 | re-inserting a present theme raises max by one and leaves its old priority unheld |
| ThemeLaws.InsertKeepsContiguous | bin/builder/Theme.js:140-159 | inserting a theme not yet in a contiguous bucket keeps priorities exactly 1..max |
| ThemeLaws.IntersectKeepsLocations | bin/builder/Theme.js:228-255 | override or extend of type intersect keeps the set of components, and with mode match also the set of modes under each |
| ThemeLaws.DifferenceKeepsExisting | bin/builder/Theme.js:257-306 | a difference leaves every component (component match), or every bucket (mode match), that existed before it unchanged |
| ThemeLaws.OverrideModeLastWriter | bin/builder/Theme.js:308-333 | after an override of type all with mode match, each location holds a single-record bucket of the last tail theme that offers it, or is unchanged when none does |
| ThemeLaws.OverrideComponentLastWriter | bin/builder/Theme.js:228-333 | after an override with component match (all or intersect), a component is reseeded entirely from the last tail theme that offers it (intersect: only if it existed), else unchanged |
| ThemeLaws.LastOfferer | bin/builder/Theme.js:230-234 | the last offering tail theme exists exactly when some tail theme offers the component |
| ThemeLaws.LastModeOfferer | bin/builder/Theme.js:230-239 | the last tail theme offering a mode exists exactly when some offering theme defines that mode |
| ThemeLaws.InsertChain | bin/builder/Theme.js:405-422 | inserting the offering tail themes one after another keeps the bucket well-ranked, and yields a bucket exactly when there was one or some theme offers the mode |
| ThemeLaws.ExtendAllInserts | bin/builder/Theme.js:405-422 | an extend of type all leaves each location as the base bucket with every offering tail theme inserted in tail order |
| ThemeLaws.InsertChainHolds | bin/builder/Theme.js:405-422 | every tail theme that offers a location ends up in its bucket |
| ThemeLaws.InsertChainOrder | bin/builder/Theme.js:140-159 | among distinct tail themes, a later theme ranks above an earlier one in an extended bucket |
| ThemeLaws.ExtendDifferenceAddsAbsent | bin/builder/Theme.js:369-402 | a component-match extend of type difference builds each absent component's buckets from the tail themes' inserts alone |
| ThemeLaws.ExtendDifferenceModeAddsAbsent | bin/builder/Theme.js:369-402 | a mode-match extend of type difference builds each absent bucket from the tail themes' inserts alone |
| ThemeLaws.OverrideDifferenceAddsAbsent | bin/builder/Theme.js:257-306 | a component-match override of type difference gives an absent component the modes of the last tail theme offering it, each in a single-record bucket, and leaves it absent when none does |
| ThemeLaws.OverrideDifferenceModeAddsAbsent | bin/builder/Theme.js:257-306 | a mode-match override of type difference gives an absent bucket a single record of the last tail theme offering it, and leaves it absent when none does |
| ThemeLaws.ThemesThenExtend | bin/builder/Theme.js:185-215 | base theme X and tail theme Y on the same location give X at priority 1 from 'themes' and Y at priority 2 from 'extended', with max 2 |
| ThemeFiles.GetMode | bin/builder/Theme.js:457-462 | a file name has a mode exactly when it holds a '.'; a name with one '.' is the default mode |
| ThemeFiles.GetModeBetween | bin/builder/Theme.js:457-462 | `p.mid.q`, with no dot in p or q, has mode mid, whatever dots mid holds |
| ThemeFiles.GetModeDefault | bin/builder/Theme.js:460 | `p.q`, with no dot in p or q, is the default mode |
| ThemeFiles.GetModeSplits | bin/builder/Theme.js:457-462 | a name with two or more dots is its first piece, the mode and its last piece, joined by dots |
| Grid.ParseDecimal | src/components/psk-grid/psk-grid.tsx:159 | `parseInt` of leading spaces, an optional '-' or '+' and a number's decimal text gives that number back, negated after '-'. What follows may be anything that is not a digit; after the numeral 0 it must also not be 'x' or 'X', which would start a hex prefix |
| Grid.ParseIntOf | src/components/psk-grid/psk-grid.tsx:159 | `parseInt` skips leading spaces, reads an optional '-' or '+', and applies it to the magnitude of the rest; without a sign, the rest must not itself start with a space or a sign |
| Grid.ParseIntNaN | src/components/psk-grid/psk-grid.tsx:159 | a text starting with anything but a space, a sign or a digit is NaN |
| Grid.Classify | src/components/psk-grid/psk-grid.tsx:140-184 | a segment is kept exactly when its trimmed name is a breakpoint, it has an '=', and `columns` of its values are accepted, and the rule is that name with all the values; it fails exactly when the name is a breakpoint and it has no '=' |
| Grid.Segments | src/components/psk-grid/psk-grid.tsx:135-138 | segment i is piece i of the ']'-split, trimmed and lower-cased, with ']' appended |
| Grid.RulesOf | src/components/psk-grid/psk-grid.tsx:140-186 | every kept rule names a breakpoint and has at least `columns` values, exactly `columns` of them accepted |
| Grid.RulesOfFails | src/components/psk-grid/psk-grid.tsx:140-172 | parsing throws exactly when some segment names a breakpoint and has no '=' |
| Grid.LayoutRules | src/components/psk-grid/psk-grid.tsx:133-187 | the layout throws exactly when one of its segments fails; every rule it returns names a breakpoint and has `columns` accepted values |
| Grid.RuleRoundTrip | src/components/psk-grid/psk-grid.tsx:140-184 | a segment written `name=[v1,...,vn]` gives back the rule with name and all n values, accepted or not, exactly when the name is a breakpoint and `columns` values are accepted; otherwise it is skipped |
| Grid.ExampleRule | src/components/psk-grid/psk-grid.tsx:140-184 | with two columns, `xs=[6,6,x]` keeps the rule `xs` with values 6, 6 and x |
| Grid.ExampleAccepted | src/components/psk-grid/psk-grid.tsx:155-163 | among 6, 6 and x, two values are accepted |
| Grid.RulesOfAppend | src/components/psk-grid/psk-grid.tsx:140-186 | the rules of two segment lists in a row are the first list's rules followed by the second's, and a failure anywhere fails the whole |
| Grid.KeptIff | src/components/psk-grid/psk-grid.tsx:140-170 | a single segment yields a rule exactly when its name is a breakpoint, it has an '=', and its accepted values number `columns` |
| Grid.RulesNeverFail | src/components/psk-grid/psk-grid.tsx:141-151 | when no breakpoint name holds ']', layout parsing never throws |
| Grid.BreakpointClass | src/components/psk-grid/psk-grid.tsx:66-89 | xs, s, m, l and xl map to xs, sm, md, lg and xl; every other name adds no class |
| Grid.GetClass | src/components/psk-grid/psk-grid.tsx:116-131 | "0" gives the hidden class of the breakpoint, any other value `col-<bkpt>-<value>`, always followed by a space |
| Grid.RuleClass | src/components/psk-grid/psk-grid.tsx:66-89 | a rule adds a class exactly when its breakpoint is one of xs, s, m, l and xl, and the class ends in a space |
| Grid.ClassListEmpty | src/components/psk-grid/psk-grid.tsx:64-90 | a child gets no class exactly when no rule names a breakpoint with a class; otherwise the class text ends in a space |
| Grid.ClassListAppend | src/components/psk-grid/psk-grid.tsx:66-90 | the classes of two rule lists in a row are the first list's classes followed by the second's |
| Grid.Laid | src/components/psk-grid/psk-grid.tsx:60-63 | only children whose lower-cased tag is not ignored are laid out, and every such child is |
| Grid.LaidAppend | src/components/psk-grid/psk-grid.tsx:60-63 | laying out keeps the children's order: the laid-out children of two lists in a row are those of the first followed by those of the second |
| Grid.LaidOne | src/components/psk-grid/psk-grid.tsx:61-62 | a single child is laid out exactly when its lower-cased tag is not ignored |
| Grid.ChunksPartition | src/components/psk-grid/psk-grid.tsx:98-111 | the rows concatenate back to the children in order; every row but the last is full; no row is empty unless there are no children |
| Grid.RowLoop | src/components/psk-grid/psk-grid.tsx:98-111 | the splice loop emits exactly the chunk rows |
| Grid.Render | src/components/psk-grid/psk-grid.tsx:45-114 | with falsy columns or layout, or when no rule is kept, nothing changes; otherwise the children are restructured exactly when some rule is kept, and rendering crashes exactly when layout parsing throws; the rows are the restyled laid-out children cut into consecutive chunks of `columns` (Chunks), so every row but the last is full, and no laid child gives one empty row |
| Grid.Restyled | src/components/psk-grid/psk-grid.tsx:59-96 | each laid-out child is kept, in order, with its tag |
| Grid.ColumnIndexInRange | src/components/psk-grid/psk-grid.tsx:66-93 | `values[index]` is always defined: the column index is below every kept rule's value count |
| Barcode.Piece | src/components/psk-barcode/psk-barcode-scanner/psk-barcode-scanner.tsx:282-294 | a separator emits '('; any other byte emits its character, followed by ')' exactly when it is the second byte after a separator |
| Barcode.FormatResult | src/components/psk-barcode/psk-barcode-scanner/psk-barcode-scanner.tsx:276-296 | the loop with its separator state computes the byte-by-byte reference text |
| Barcode.NoSeparatorIdentity | src/components/psk-barcode/psk-barcode-scanner/psk-barcode-scanner.tsx:280-296 | without a separator, the text is the bytes' characters unchanged |
| Barcode.FormattedLength | src/components/psk-barcode/psk-barcode-scanner/psk-barcode-scanner.tsx:280-296 | the text has one character per byte plus one ')' per closed group |
| Barcode.ClosesBounded | src/components/psk-barcode/psk-barcode-scanner/psk-barcode-scanner.tsx:280-296 | closed groups plus an open one never outnumber the separators |
| Barcode.InterruptedGroup | src/components/psk-barcode/psk-barcode-scanner/psk-barcode-scanner.tsx:282-285 | a separator arriving one byte into a group restarts it, and the interrupted group gets no ')' |
| Barcode.Example | src/components/psk-barcode/psk-barcode-scanner/psk-barcode-scanner.tsx:280-296 | the bytes A, GS, 0, 1, 2 read "A(01)2" |
| Barcode.DecodeImage | src/components/psk-barcode/psk-barcode-scanner/psk-barcode-scanner.tsx:427-437 | heap address image+j receives frame byte 4j while inside the heap, and nothing else changes; the callback runs exactly when the decoder returns -2 and the callback is a function |
| Utils.Format | src/utils/utils.ts:1-7 | the length is the parts' lengths plus one space per non-empty middle or last part; the first part alone comes back unchanged; without a first part, the text starts with a space |
| Utils.FormatSplits | src/utils/utils.ts:1-7 | three space-free non-empty parts come back by splitting the text on spaces |
| Utils.Selector | src/utils/utils.ts:10 | the selector has the id's length; space, ':', '/' and '.' become '-', every other character is lower-cased in place, and none of the four remains |
| Utils.SelectorIdempotent | src/utils/utils.ts:10 | normalising a selector again changes nothing |
| Utils.ChapterUrl | src/utils/utils.ts:21-34 | the pushed URL replaces everything from the first "chapter=" (keeping the character before it as the operator), or otherwise appends with '&' when a '?' occurs past the first character, else with '?' |
| Utils.ChapterReplaces | src/utils/utils.ts:21-34 | navigating to a second chapter from a chapter URL gives the URL built from the original href |
| Utils.ScrollToElement | src/utils/utils.ts:9-35 | a URL is pushed exactly when the element is found, and it is the chapter URL of the selector |
| Utils.ClosestParent | src/utils/utils.ts:45-57 | returns the first ancestor-or-self that matches, provided no earlier one hits the stop selector; nothing otherwise |
| Flags.FlagArgs | bin/helpers/flags.js:8 | exactly the argv entries starting with "--", in order |
| Flags.FlagArgsAppend | bin/helpers/flags.js:8 | filtering keeps order and count: the flags of two argument lists in a row are the first list's flags followed by the second's |
| Flags.FlagArgsOne | bin/helpers/flags.js:8 | a single argument is kept exactly when it starts with "--" |
| Flags.AddAll | bin/helpers/flags.js:9 | adding the options one by one keeps the existing list as a prefix and adds at most one entry per option |
| Flags.AddAllAppend | bin/helpers/flags.js:9 | adding two option lists in a row is adding the first and then the second |
| Flags.Add | bin/helpers/flags.js:20-24 | a non-empty flag not yet listed is appended; anything else leaves the list unchanged |
| Flags.AddLaws | bin/helpers/flags.js:20-24 | adding keeps the list free of duplicates, and adding twice is adding once |
| Flags.Construct | bin/helpers/flags.js:2-14 | a malformed or null `npm_config_argv` leaves the list empty; otherwise the list is the argv flags in order followed by the options added one by one, so the non-empty options appear without duplicates and every non-empty option is present |
| Attachments.Extension | src/components/psk-attachments-list/psk-attachments-list.tsx:55 | the extension is the text after the last '.', or the whole name when there is none |
| Attachments.Icon | src/components/psk-attachments-list/psk-attachments-list.tsx:55-72 | pdf, xls, doc/docx and jpg/png map to their icons, and every other extension maps to the generic icon |
| Attachments.IconFor | src/components/psk-attachments-list/psk-attachments-list.tsx:55-72 | a file name's icon is that of the dot-free text after its last dot, or of the whole name when it has no dot |
| Attachments.IconOfStem | src/components/psk-attachments-list/psk-attachments-list.tsx:55 | the icon of `stem.ext` depends only on `ext`, whatever dots the stem holds |
| Attachments.GenericIcons | src/components/psk-attachments-list/psk-attachments-list.tsx:55-72 | the comparison is case-sensitive and exact: "PDF", "xlsx", "jpeg" and a name without a dot get the generic icon |

## Left out

- File I/O: `ThemeLoader`, `getDirectories`, `getFile` and the JSON writes of `run` (Theme.js:66-98, 433-440). The registry and the command list are inputs. The loader's enumeration order of components is the `order` of each registry theme.
- The `_max_priority` key: the model keeps it as a bucket field. In the code it sits beside the theme names, so a theme literally named `_max_priority` would collide with it.
- Names inherited from `Object.prototype` (a component or theme called `constructor`, say) are not modelled. The code would find the inherited member instead of missing it.
- JSON values: numbers are integers, and objects are field lists whose first matching field is read. `JSON.parse` keeps the last of duplicate keys, and fractional numbers are not represented. For the same reason `RunFields` runs a record's duplicate key once per occurrence, where the code sees the key once, with its last value.
- A base list that is empty is modelled as a crash. The code would look up a theme literally named "undefined".
- A configuration that is not an array: the command list is a sequence by construction.
- The order of keys in the generated output is not modelled. Only the contents of the table are.
- ThemeLaws.ExtendAllInserts: requires a `components` list without repeats. A repeated name inserts the theme again at that location, which the lemma does not describe.
- ThemeLaws.ExtendDifferenceAddsAbsent: requires a `components` list without repeats, for the same reason.
- ThemeLaws.ExtendDifferenceModeAddsAbsent: requires a `components` list without repeats, for the same reason.
- ThemeRunner.ThemesTask: its own contract states only the new theme list. Its effect on the table is stated by ThemeLaws.ThemesSeedsBase and ThemeLaws.ThemesTwiceBumps.
- ThemeRunner.ApplyTask: its own contract states only that the theme list is kept. Its effect on the table is stated by the ThemeLaws lemmas for each type.
- ThemeRunner.Copy: its own contract states only that buckets stay well-ranked. What the copy keeps and adds is stated by ThemeLaws.DifferenceKeepsExisting, ThemeLaws.CopyFillsAbsentMode and the four `...AddsAbsent` lemmas.
- ThemeLaws.IntersectKeepsLocations: describes extend and override of type intersect only by the locations they keep. The bucket contents they write are given by `VisitAt`.
- Grid.Restyled: states the count, order and tags of the laid-out children. It does not restate the class text, which is defined by `ClassList` and `GetClass` and described by Grid.ClassListEmpty and Grid.ClassListAppend.
- `toLowerCase` is ASCII-only here. Unicode case mapping in the grid segments and the selector is not modelled.
- Grid constants: the breakpoint names, hidden classes and ignored tags are defined in a constants file that is not part of this model. They are parameters.
- Grid DOM: the nodes are moved into rows and the element is re-rendered; the model returns the rows instead. A non-integer `columns` is not represented.
- Floating point: `bytesToSize` of the attachments list and the scanner's frame geometry are not modelled.
- Barcode runtime: the ZXing runtime, the camera, timers and `resultCallback`'s points are not modelled. The decoder's status is a parameter, and the heap is a byte sequence.
- DOM queries: `querySelector` and `matches` are predicates. The selector syntax errors they can throw, `scrollIntoView` and the history call itself are not modelled.
- `createCustomEvent` (utils.ts:37-43) only dispatches a DOM event, so it is left out.
- Flags: `process.argv` and `npm_config_argv` are parameters. Options are strings, so a non-string option or a non-iterable options value (which makes the constructor's handler leave the list empty) is not represented. The console message is left out.
