# smart-css: a verified model of the style registry and serialiser

This project models `src/core/SmartCSS.js`, the core of smart-css. smart-css is a small library that keeps CSS rules in per-module registries, makes up short class names for them, and serialises every registered rule into one CSS string. The model covers:

- **Selector decomposition.** `setClass` cuts `"id:pseudo:chain"` at its first `:` into the class id and the pseudo suffix (`Naming`).
- **Name allocation.** The shared counter `SmartCSS.__data.id` is read and bumped by `__getNextId`. `setClass` builds the name `c` or *base rule's name*, then optionally `-classId`, then `-counter`. With the counter as an unbounded integer, the model proves that every generated name differs from every other generated name, across all instances that share one `SharedData` and across `deleteStyles` (`Naming`, `Registry.SharedData`).
- **Registration.** `setClass` updates the two tables of an instance:
  - `__styleClasses`, an ordered dictionary whose order `_.values` exposes;
  - `__classNameMap`.

  The model proves the tables' invariant preserved and states the frame: which keys change and which do not (`Dict`, `Registry.SmartCSS`).
- **Lookup.** `getClass` gives `""` for a missing or undefined entry. `getClasses` filters, maps and joins (`Registry`).
- **Rendering.** All of it is pure string construction (`Render`):
  - `hyphenateProp` and `ruleToString`;
  - the recursive nested expander `rulesToString` / `_rulesToStringHeadless`;
  - the single-rule serialiser `renderStyleClass`;
  - the aggregate `getStylesAsString`.

The process-wide `SmartCSS.__data` is a `SharedData` object that every instance receives at construction. Its fields are `styles`, `contexts` and `id`, plus a ghost record of every generated name. The media-query validator of the `valid-media-queries` module is the function parameter `valid: string -> bool`.

A style object is an ordered list of `(key, Val)` pairs, in `for...in` order. `Val` is a string, a number (kept as its printed text) or a nested object. `for...in` over a string value visits one position per character of the model's string (`Styles.Entries`); JavaScript visits UTF-16 code units, which differ for characters outside the Basic Multilingual Plane (see "## Left out").

Where the code and the intent its comments state disagree (notably the comment at `src/core/SmartCSS.js:347-348`, which says the class name is reused so that `:hover` variants target the same class), the model follows the code:

- **Pseudo variants get their own name.** A pseudo variant registered after its base rule does not reuse the base rule's class name. The name is that class name extended by `-classId` (only when `prefixClassId` is set, lines 352-354) and then by `-counter` (lines 349-355; `Registry.VariantNameExtendsBase`).
- **Only an earlier base rule is reused.** Only the rule under the bare class id is consulted, so a variant registered before its base reuses nothing.
- **`getClass` changes after a variant.** `__classNameMap[classId]` is overwritten by each `setClass` for that class id, pseudo variants included, so `getClass(x)` changes after `x:hover` is registered (line 366; `Registry.ClassNameOfUpdate`).
- **A supplied `className` leaves the entry undefined.** The entry becomes undefined, modelled as `None`, because the local variable `className` is never assigned on that path.
- **`renderStyleClass` does not expand nested groups.** Every key of the rule's style definition goes through `ruleToString`, so a nested `:hover` object prints as `:hover:[object Object];` (lines 112-117; `Render.NestedGroupNotExpanded`). Only `rulesToString` expands nested groups; no other function calls it (it calls itself at line 156), and it is modelled on its own.

Files:

- `strings.dfy`: `join`, `split` on one character, and decimal text.
- `styles.dfy`: style values and the rule record.
- `dict.dfy`: the ordered dictionary.
- `naming.dfy`: selector split and generated names.
- `render.dfy`: the renderers.
- `registry.dfy`: shared data and instances.

## Model

| member | source | states |
|---|---|---|
| Naming.SplitSelector | src/core/SmartCSS.js:333-336 | computes the class id (`split(':')[0]`) and the pseudo suffix (the parts re-joined with `:` after blanking the first) |
| Naming.GeneratedName | src/core/SmartCSS.js:345-357 | computes base, then `-classId` when prefixing, then `-` and the counter's decimal text |
| Dict.Lookup | src/core/SmartCSS.js:349-350 | computes `obj[key]` on an ordered dictionary: the value of the entry with that key, or none |
| Dict.Put | src/core/SmartCSS.js:367 | computes `obj[key] = v`: replaces the entry with that key where it stands, or appends a new one |
| Dict.Values | src/core/SmartCSS.js:276-278 | computes `_.values(obj)`: the values in entry order |
| Registry.ClassNameOf | src/core/SmartCSS.js:265-272 | computes `getClass` on a name table: the stored name, or `""` when missing or undefined |
| Registry.BaseClassName | src/core/SmartCSS.js:346-351 | computes the start of a generated name: the class name of the rule under the bare class id, or `c` |
| Registry.SelectedClasses | src/core/SmartCSS.js:296-302 | computes the names `getClasses` collects: `getClass` of each flagged entry, in order |
| Registry.StylesText | src/core/SmartCSS.js:98-107 | computes the aggregate text: each context's rules rendered, context after context |
| Registry.SmartCSS.GetClass | src/core/SmartCSS.js:265-272 | the instance's `getClass`, reading its own name table |
| Registry.SmartCSS.StyleClasses | src/core/SmartCSS.js:276-278 | the instance's `getStyleClasses`: the rules of its table in entry order |
| Render.HyphenateProp | src/core/SmartCSS.js:191-199 | computes the CSS property name: `-` before every capital, lower-cased, a leading `ms-` turned into `-ms-` |
| Render.EscapeValueForProp | src/core/SmartCSS.js:200-204 | computes the value unchanged (no escaping) |
| Render.RuleToString | src/core/SmartCSS.js:184-188 | computes one declaration `name:value;` from the hyphenated name and the value text |
| Render.Headless | src/core/SmartCSS.js:169-183 | computes the declarations of an object, skipping `:` and `@media` keys |
| Render.Scan | src/core/SmartCSS.js:143-160 | computes the three accumulators (markup, pseudos, media queries) of the `rulesToString` loop after a prefix of the keys |
| Render.RulesToString | src/core/SmartCSS.js:138-167 | computes `rulesToString`: the base block when there is markup, then the pseudo blocks, then the media blocks |
| Render.RenderStyleClass | src/core/SmartCSS.js:109-135 | computes `renderStyleClass`: `.` + name + pseudo + `{declarations}`, with nothing between name and pseudo, wrapped in `@media (condition){...}` when the condition is non-empty |
| Render.RenderAll | src/core/SmartCSS.js:101-105 | computes the rendered rules concatenated in order with no separator |
| Styles.Entries | src/core/SmartCSS.js:143-145 | computes what `for (var key in v)` with `v[key]` visits: a nested object's own entries in order, a string's index keys `"0"`, `"1"`, … each with its one-character string, nothing for a number; the loops at lines 112-114 and 172-174 visit the same entries |
| Styles.ValueText | src/core/SmartCSS.js:187 | computes the string coercion of a value in `+`: a string itself, a number its printed text, a nested object `"[object Object]"` |
| Strings.Join | src/core/SmartCSS.js:306 | computes `Array.prototype.join(sep)`: the parts with `sep` between neighbours, `""` for no parts (also used at line 336 with `':'`) |
| Render.HyphenateUpper | src/core/SmartCSS.js:196 | computes `replace(/([A-Z])/g, '-$1')`: a `-` inserted before every capital letter, every other character kept |
| Render.ToLowerCase | src/core/SmartCSS.js:197 | computes `toLowerCase()` character by character |
| Render.ReplaceMsPrefix | src/core/SmartCSS.js:198 | computes `replace(/^ms-/, '-ms-')`: a leading `ms-` becomes `-ms-`, anything else is unchanged |
| Render.IsPseudoKey | src/core/SmartCSS.js:148 | decides `key[0] === ':'`: the key is non-empty and starts with `:` (the same test at line 177) |
| Render.IsMediaKey | src/core/SmartCSS.js:151 | decides `key.substring(0, 6) === '@media'`: the key starts with `@media` (the same test at line 177) |
| Render.PseudoBlock | src/core/SmartCSS.js:149-150 | computes one pseudo block: `.`, the class name, the key, then the nested object's declarations in braces |
| Render.MediaBlock | src/core/SmartCSS.js:156 | computes one media block: the key, then `rulesToString` of the nested object under the same class name, in braces |
| Render.BaseBlock | src/core/SmartCSS.js:162-164 | computes the base block: `.`, the class name and the markup in braces when the markup is non-empty, otherwise `""` |
| Render.HasMedia | src/core/SmartCSS.js:131 | decides the truthiness of `media`: present and not the empty string |
| Strings.Split | src/core/SmartCSS.js:333-334 | `split(':')` gives at least one part, no part holds the separator, and joining the parts with it gives back the input |
| Strings.SplitOfJoin | src/core/SmartCSS.js:303-307 | splitting undoes joining when no part holds the separator |
| Strings.NatToString | src/core/SmartCSS.js:355 | the decimal text of the counter is non-empty, all digits, one digit exactly below 10 |
| Strings.NatToStringInjective | src/core/SmartCSS.js:355 | two counter values have the same decimal text iff they are equal |
| Strings.AfterLastDashOf | src/core/SmartCSS.js:355 | the text after the last `-` of `x + "-" + d` is `d` when `d` has no `-` |
| Strings.ConcatMapAppend | src/core/SmartCSS.js:101-105 | concatenating the texts of `xs + ys` is the text of `xs` then that of `ys` |
| Strings.ConcatMapAccumulate | src/core/SmartCSS.js:102-104 | one `str += render(x)` step extends the accumulated text by the next element's text |
| Strings.ConcatMapNonEmpty | src/core/SmartCSS.js:162 | accumulated text is non-empty iff some element contributes non-empty text |
| Naming.SplitSelectorParts | src/core/SmartCSS.js:333-336 | class id + pseudo suffix == selector, the class id has no `:`, the suffix is empty or starts with `:` |
| Naming.SplitSelectorOf | src/core/SmartCSS.js:333-336 | conversely every colon-free id with an empty or `:`-led suffix is split back into exactly those parts |
| Naming.SplitSelectorKeepsLaterColons | src/core/SmartCSS.js:333-336 | `a:hover::before` splits into `a` and `:hover::before`, later colons kept verbatim |
| Naming.GeneratedNameInSteps | src/core/SmartCSS.js:352-355 | building the name piece by piece with `+=` gives the generated name |
| Naming.GeneratedNameShape | src/core/SmartCSS.js:345-357 | the generated name starts with its base, ends in `-` and the counter value, and that value is what follows its last `-` |
| Naming.IssuedNamesDiffer | src/core/SmartCSS.js:345-357 | names issued for different counter values differ, whatever their bases, prefixes and class ids |
| Naming.FreshNameDiffers | src/core/SmartCSS.js:355 | a name issued for a counter value not yet handed out differs from every earlier issued name |
| Naming.IssuedNamesDistinct | src/core/SmartCSS.js:345-357 | every record of issued names keyed by counter value is injective |
| Dict.LookupSpec | src/core/SmartCSS.js:349-350 | `obj[key]` is undefined iff the key is absent, and otherwise is the value stored under it |
| Dict.PutInPlace | src/core/SmartCSS.js:367 | assigning to a present key replaces its entry in place and keeps every other entry |
| Dict.PutAppends | src/core/SmartCSS.js:367 | assigning to an absent key appends the entry at the end |
| Dict.PutShape | src/core/SmartCSS.js:367 | after an assignment the keys stay distinct, the length grows by one iff the key was new, and entries of other keys keep their positions |
| Dict.LookupPutSame | src/core/SmartCSS.js:367-368 | after `obj[key] = v`, `obj[key]` is `v` (so `setClass` returns the stored rule) |
| Dict.LookupPutOther | src/core/SmartCSS.js:367 | after `obj[key] = v`, every other key reads as before |
| Dict.LookupPut | src/core/SmartCSS.js:367-368 | the assignment keeps keys distinct, reads `v` at `key`, and leaves every other key's value as before |
| Dict.ValuesAt | src/core/SmartCSS.js:276-278 | `_.values` has one value per entry, in entry order |
| Dict.ValuesOfPut | src/core/SmartCSS.js:276-278 | after an overwrite `_.values` has the new value where the old one stood; after a new key, the new value last |
| Registry.StoredUnder | src/core/SmartCSS.js:367 | a rule stored under `classId + pseudo` with its own pseudo is well placed and its key's class id is `classId` |
| Registry.SameKeySameClassId | src/core/SmartCSS.js:367 | two well-placed entries under one key have the same class id |
| Registry.PlacedKeepsConsistent | src/core/SmartCSS.js:366-367 | putting a class id's rule in its slot (or at the end) and setting its name entry keeps the table invariant |
| Registry.RegisterKeepsConsistent | src/core/SmartCSS.js:359-368 | the two table writes of `setClass` keep the invariant: distinct keys, rules under their own class id + pseudo, every rule's class id named, every defined name belonging to a rule of that id |
| Registry.VariantNameExtendsBase | src/core/SmartCSS.js:349-355 | a variant registered after its base rule gets a name that starts with the base rule's name and is strictly longer |
| Registry.ClassNameOfUpdate | src/core/SmartCSS.js:265-272 | after the name entry of `classId` is set, `getClass` reads the new name there (`""` if undefined) and every other id as before |
| Registry.ClassNameHasRule | src/core/SmartCSS.js:265-272 | under the invariant a non-empty `getClass` result is the class name of a registered rule of that class id |
| Registry.SelectedClassesAppend | src/core/SmartCSS.js:298-302 | the collected names of concatenated entries are the concatenation of the collected names |
| Registry.SelectedClassesOne | src/core/SmartCSS.js:299-301 | one entry contributes its `getClass` value exactly when its flag is set |
| Registry.FlagSetStep | src/core/SmartCSS.js:298-302 | the flagged positions of an extended list are the old ones plus the new position if flagged |
| Registry.SelectedClassesCount | src/core/SmartCSS.js:298-302 | `getClasses` collects exactly as many names as there are set flags |
| Registry.ClassStringSplits | src/core/SmartCSS.js:303-307 | the space-joined result splits back into the collected names when none holds a space |
| Registry.SharedData.constructor | src/core/SmartCSS.js:54-58 | the shared data starts with empty tables and counter 0 |
| Registry.SharedData.RegisterContext | src/core/SmartCSS.js:63-65 | the instance is appended to the context list; nothing else changes |
| Registry.SharedData.NextId | src/core/SmartCSS.js:70-72 | returns the counter before the increment and increments it by exactly one, keeping the issued-names invariant |
| Registry.SharedData.Record | src/core/SmartCSS.js:355-356 | records a generated name under its counter value, keeping the invariant that each recorded value was handed out and ends the name |
| Registry.SharedData.DeleteStyles | src/core/SmartCSS.js:87-90 | empties `styles` and `contexts` and leaves the counter and the issued names untouched |
| Registry.SharedData.GetStylesAsString | src/core/SmartCSS.js:98-107 | returns every context's rules rendered in table order, context after context, with no separator |
| Registry.AppendRendered | src/core/SmartCSS.js:102-104 | the inner loop appends the rendering of each rule, in order, to the text so far |
| Registry.StylesTextStep | src/core/SmartCSS.js:101-105 | one more context appends exactly that context's rendered rules |
| Registry.StylesTextIsRenderAll | src/core/SmartCSS.js:98-107 | the aggregate text is the rendering of the flat list of all rules, instance after instance |
| Registry.SmartCSS.constructor | src/core/SmartCSS.js:32-49 | a new instance has empty tables, keeps its `prefixClassId`, and is appended to the shared context list |
| Registry.SmartCSS.SetClass | src/core/SmartCSS.js:332-368 | returns the rule built from the split selector and the supplied or generated name; stores it under `classId + pseudo`; sets the name entry (undefined when a name was supplied); bumps the counter only when generating; the generated name differs from every earlier one; both invariants hold |
| Registry.SmartCSS.GetClasses | src/core/SmartCSS.js:296-308 | returns the `getClass` values of the flagged entries in order, as an array or joined by one space |
| Render.HyphenateUpperShape | src/core/SmartCSS.js:196 | the replace adds one character per upper-case letter and every upper-case letter follows a `-` |
| Render.ToLowerCaseAt | src/core/SmartCSS.js:197 | `toLowerCase` keeps the length and lower-cases each character in place |
| Render.ToLowerCaseAppend | src/core/SmartCSS.js:197 | lower-casing distributes over concatenation |
| Render.ReplaceMsPrefixAddsDash | src/core/SmartCSS.js:190-198 | `^ms-` replacement puts one `-` in front of a leading `ms-` and leaves any other string unchanged |
| Render.HyphenatePropHasNoUpper | src/core/SmartCSS.js:191-199 | a hyphenated property name has no upper-case letter |
| Render.LowerOfHyphenated | src/core/SmartCSS.js:196-197 | inserting dashes then lower-casing is the per-character map "capital to `-` + lower-case, else itself" |
| Render.HyphenatePropIsPerCharacter | src/core/SmartCSS.js:191-199 | hyphenation is that per-character map followed by at most one leading `-` when it starts with `ms-` |
| Render.HyphenateCharsOfLower | src/core/SmartCSS.js:196-197 | a name without capitals passes through the per-character map unchanged |
| Render.HyphenateCharsOneCapital | src/core/SmartCSS.js:196-197 | one capital between lower-case runs becomes `-` and its lower-case form |
| Render.HyphenateOneCapital | src/core/SmartCSS.js:191-199 | `backgroundColor`-shaped names become `background-color`, subject only to the `ms-` rule |
| Render.HyphenateMsVendor | src/core/SmartCSS.js:192-198 | `ms` + capital + lower-case rest (`msTransition`) becomes `-ms-` + the lower-cased rest (`-ms-transition`) |
| Render.HyphenateLeadingCapital | src/core/SmartCSS.js:192-198 | a leading capital (`MozTransition`) gives a leading `-` and lower-case letter, and the `ms-` rule does not apply |
| Render.HyphenateCharsNoColon | src/core/SmartCSS.js:196-197 | hyphenating a name without `:` adds no `:` (only `-` and lower-case letters are added) |
| Render.RuleToStringSplits | src/core/SmartCSS.js:184-204 | for a property name without `:`, the declaration splits at its first `:` into exactly the hyphenated name, ends in `;`, and when the value has no `:` splits into just the name and the unescaped value followed by `;` |
| Render.IndexKeysAreDecls | src/core/SmartCSS.js:148-151 | the index keys `for...in` visits on a string are ordinary declaration keys |
| Render.EntriesBelow | src/core/SmartCSS.js:156 | every `@media` value the expander recurses into is smaller than the object holding it |
| Render.ScanIsLayout | src/core/SmartCSS.js:143-160 | the expander loop's three accumulators are the declarations, pseudo blocks and accepted media blocks, each concatenated in key order |
| Render.ScanStep | src/core/SmartCSS.js:143-160 | one loop iteration adds the new key's text to its own accumulator only |
| Render.ScanPseudoStep | src/core/SmartCSS.js:148-150 | a `:` key adds `.cls<key>{headless body}` to the pseudo blocks only |
| Render.ScanMediaStep | src/core/SmartCSS.js:151-156 | an `@media` key adds `key{rulesToString(cls, value)}` to the media blocks when valid and nothing when rejected |
| Render.ScanDeclStep | src/core/SmartCSS.js:157-159 | any other key adds its declaration to the base markup only |
| Render.LayoutStep | src/core/SmartCSS.js:143-160 | the reference layout of a list is that of its prefix plus the last entry's text of each kind |
| Render.LayoutSnoc | src/core/SmartCSS.js:143-160 | the reference layout of a list with one more entry adds that entry's text of each kind |
| Render.RulesToStringLayout | src/core/SmartCSS.js:138-167 | whatever the key order, the output is the base block, then every pseudo block, then every accepted media block |
| Render.DeclarationsPresent | src/core/SmartCSS.js:162-164 | the base block is emitted iff some key is an ordinary declaration |
| Render.SwapNeighbours | src/core/SmartCSS.js:138-167 | swapping neighbouring keys of different kinds does not change the output |
| Render.LayoutSwap | src/core/SmartCSS.js:143-166 | the layout is unchanged by swapping neighbouring keys of different kinds |
| Render.DropsRejectedMedia | src/core/SmartCSS.js:151-155 | an `@media` key the validator rejects can be removed without changing the output |
| Render.LayoutDrop | src/core/SmartCSS.js:151-155 | a rejected `@media` entry contributes nothing to any accumulator |
| Render.RenderStyleClassMediaPrefix | src/core/SmartCSS.js:130-133 | the rendering opens with `@media` iff the rule has a non-empty media condition |
| Render.BodyOfDecls | src/core/SmartCSS.js:112-117 | for declaration-only objects the single-rule body equals the expander's base markup and there are no pseudo or media blocks |
| Render.RulesToStringOfDecls | src/core/SmartCSS.js:138-167 | the expander on a non-empty declaration-only object is one base block |
| Render.RenderAgreesWithRulesToString | src/core/SmartCSS.js:109-167 | for a plain rule the single-rule serialiser and the nested expander agree |
| Render.NestedGroupNotExpanded | src/core/SmartCSS.js:112-117 | in the single-rule serialiser a capital-free key not starting with `ms-` that holds an object prints as `key:[object Object];` |

## Left out

- `injectStyles` (lines 79-83) writes to the DOM; it is I/O and is not modelled.
- The `tinycolor` coercion in `ruleToString` (line 186) belongs to a foreign colour library. Values are strings or numbers.
- `mediaQueryValidator` (line 152) is a foreign library. It is the parameter `valid`, and the model states nothing about which keys it accepts.
- `SmartCSS.registerClass` (lines 207-238) is not modelled. It writes to the undefined variable `styleId` and is not reached from the instance API.
- The `console.warn` / `console.log` diagnostics (lines 153, 268) are output only and are not modelled.
- Option defaulting with `_.extend` (lines 33-35, 338-343) is replaced by explicit parameters:
  - `prefixClassId` for the constructor;
  - `className` and `media` for `setClass`.

  Callers' overrides of `options.pseudo` and `options.classId` have no effect: the source never reads them after the merge at line 343, and the `StyleClass` receives the local `pseudo` (line 361). Overrides of `options.smartCss` are not modelled. `SmartCSS.getDefaultOptions`, which the constructor also merges in, is not modelled either.
- `StyleClass` (`./StyleClass`) is not part of this model. A rule is a plain record of class name, pseudo suffix, style definition and media condition. Its back-reference to the owning instance is dropped.
- `getClassesAsMap` (lines 317-319) is a shallow copy of the rule table, with nothing to state beyond equality.
- Registry.SmartCSS.SetClass, Registry.BaseClassName, Registry.ClassNameOf: `__styleClasses` and `__classNameMap` are plain `{}` objects in the source, so a class id naming an `Object.prototype` property (`toString`, `constructor`, `valueOf`, `hasOwnProperty`, `__proto__`) reads the inherited value. There, `setClass` throws a TypeError at line 350 (the inherited function has no `getClassName`), `getClass` returns the inherited function instead of `""` (line 267), and writing `__styleClasses['__proto__']` (line 367) replaces the prototype, so `_.values` never renders that rule. Likewise an own key `hasOwnProperty` in a style definition shadows the method, so `styleDef.hasOwnProperty(key)` (lines 113, 144, 173) throws a TypeError, where the model emits a `has-own-property:…;` declaration. The model treats every class id and every style key as an ordinary key.
- Enumeration order follows insertion order. JavaScript's rule that integer-like keys come first is not modelled, and neither are inherited (prototype) keys.
- `Render.ToLowerCase` lower-cases ASCII letters only; full Unicode case mapping is not modelled.
- Flags passed to `getClasses` are booleans. JavaScript truthiness of other values is not modelled.
- Numbers are kept as the text JavaScript prints for them; number formatting itself is not modelled.
- Registry.SharedData.NextId: the counter is an unbounded `nat`. In JavaScript `__data.id` is a double, and past 2^53 `id++` (line 71) no longer changes it, so the source would repeat names; the uniqueness results (`Naming.FreshNameDiffers`, `Naming.IssuedNamesDistinct`, `Registry.SmartCSS.SetClass`) hold for the source only for fewer than 2^53 allocations.
- `Styles.Entries` gives one entry per character of a string value. JavaScript's `for...in` visits UTF-16 code units, so a character outside the Basic Multilingual Plane is two entries there and one here.
- `Styles.Val` is an acyclic datatype. A JavaScript style object that contains itself under a valid `@media` key makes `rulesToString` (line 156) recurse until the stack overflows; the model cannot express such a value, and every modelled expansion terminates.
- The imports `escapeHTML`, `Slick` and `util` (lines 4, 6-7) are unused.
- The hyphenation examples (`MozTransition`, `msTransition`, `backgroundColor`) are stated as lemmas over every name of the same shape (`Render.HyphenateLeadingCapital`, `Render.HyphenateMsVendor`, `Render.HyphenateOneCapital`), not as the three literal strings.
- `SharedData.styles` is written only by `registerClass` and by `deleteStyles` in this file. No modelled operation other than `DeleteStyles` touches it.
