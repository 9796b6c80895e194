# treelight, modelled in Dafny

treelight is a syntax highlighter. It has three parts:

- a TypeScript library, `src/treelight.ts`, that runs tree-sitter grammars compiled to WebAssembly;
- a native Rust counterpart, `src/lib.rs` and `src/theme.rs`;
- two Node scripts that scaffold theme and language packages.

This project models the logic of those parts and proves what they promise.

- **Renderer** (`Renderer`, `EventOrder`, `SweepProofs`, `MarkupProofs`).
  `renderHtmlFromCaptures` turns the captures of a parse (a name plus a start and an end offset) into nested `<span>` markup.
  - It emits a start and an end event per capture and sorts them stably.
  - It then sweeps the text with a cursor and a stack of open captures.
  - The method keeps the source's loops: the attribute map, the event list, the sweep and the removal scan.
  - It is proved equal to a specification built from the runs of text between event positions.
  - About that specification the model proves:
    - the events are sorted;
    - a capture wraps exactly the runs inside its range, while a zero-width capture wraps everything after it;
    - the text content of the markup (everything outside tags) is the escaped source, and unescaping it gives the source back.
- **HTML escaping** (`Html`): the five-entity `escapeHtml`. The model proves concatenation, length and identity laws, and a left inverse.
- **Theme cascade** (`Theme`): `resolveEntry` walks dot-separated prefixes; `getThemeColor` picks a channel.
- **The `Treelight` class** (`TreelightApi`). The class holds:
  - the theme registry, where names are normalised;
  - the language registry and its cache;
  - the one-shot parser initialisation;
  - `highlight`, with its strict and graceful failure policy and its pre-block colours.

  `HighlightProofs` shows that every successful `highlight` result reads, outside its tags, as the escaped code.
- **Native theme** (`NativeTheme`):
  - the `#rrggbb` parser and printer of `Color`;
  - palettes;
  - the flattening of a theme table;
  - `Theme::get`.
- **Native highlighter** (`NativeHighlight`):
  - the order-preserving deduplication of capture names;
  - the per-capture attributes;
  - the theme selection;
  - the pre block.
- **Scaffolding scripts** (`CliArgs`, `DirCheck`, `CreateThemePackage`, `CreateLanguagePackage`):
  - the `--key value` parser;
  - the required-argument checks;
  - the derived package names;
  - the package-directory existence check.

The web-tree-sitter runtime appears as a `Backend` value of total functions. It supplies `Parser.init`, binary loading, `Language.load`, `new Query`, `parse` and `captures`, and its failures are `Result` values. The file system of the scripts is reduced to the outcome of `access` on the package directory.

## Model

| member | source | states |
|---|---|---|
| Html.EscapeChar | src/utils/html.ts:1-9 | each of `& < > " '` becomes an entity that starts with `&` and ends with `;`; every other character is copied; the result has no raw `< > " '` |
| Html.EscapeHtml | src/utils/html.ts:11-16 | the output is never shorter than the input and contains no raw `<`, `>`, `"` or `'` |
| Html.EscapeEntities | src/utils/html.ts:1-7 | the exact entity of each special character: `&amp;`, `&lt;`, `&gt;`, `&quot;`, `&#39;` |
| Html.EscapeConcat | src/utils/html.ts:11-16 | escaping distributes over concatenation |
| Html.EscapeIdentity | src/utils/html.ts:13-15 | text without special characters is unchanged |
| Html.EscapeLength | src/utils/html.ts:11-16 | the length is unchanged iff there is no special character, and grows otherwise |
| Html.UnescapeEscape | src/utils/html.ts:1-16 | decoding the five entities undoes escaping, for every string |
| Html.EscapeInjective | src/utils/html.ts:1-16 | distinct strings escape to distinct strings |
| Strings.LastIndexOf | src/theme.ts:17 | `lastIndexOf`: the last occurrence of the character, or -1 exactly when it is absent |
| Strings.CollapseSpaces | src/treelight.ts:304 | `replace(/\s+/g, '-')`: no whitespace is left, every other character comes from the input, and a non-empty input stays non-empty |
| Theme.Resolve | src/theme.ts:11-24 | the cascade only ever returns a truthy entry |
| Theme.ResolveEntry | src/theme.ts:11-24 | the `while` loop over shrinking prefixes computes the cascade |
| Theme.ResolveNearest | src/theme.ts:12-23 | the result is absent iff no whole-segment prefix has a truthy entry; otherwise it is the entry of the longest such prefix |
| Theme.ResolveExact | src/theme.ts:13-16 | a truthy entry for the key itself is returned without looking at prefixes |
| Theme.ResolveSkipsFalsy | src/theme.ts:14 | an empty-string entry is treated as absent: the cascade continues past it |
| Theme.GetThemeColor | src/theme.ts:26-37 | no entry gives no colour; a string entry is the `fg` colour and never the `bg` one; an object entry gives its own channel |
| Theme.NoChannelCascade | src/theme.ts:31-36 | an object entry without the channel gives no colour; the lookup never continues to an ancestor that has one |
| Theme.BareHasNoBackground | src/theme.ts:29-35 | a string entry is the default (`fg`) colour and gives no `bg` colour |
| Theme.CascadeExample | src/theme.ts:17-21 | `variable.parameter.special` resolves to the entry of `variable.parameter` |
| Renderer.ClassName | src/treelight.ts:61 | the capture name with every `.` replaced by `-`, of the same length |
| Renderer.BuildAttribute | src/treelight.ts:60-67 | always a non-empty `class="…"`, with a `style` suffix exactly when a foreground colour resolves |
| Renderer.WrapText | src/treelight.ts:69-84 | the down-counting loop gives `''` for empty text, else the escaped text wrapped from the innermost stack entry outwards |
| Renderer.EventsOf | src/treelight.ts:101-110 | exactly 2·n events: a start at the start offset and an end at the end offset of capture i, both with id i |
| Renderer.SortEvents | src/treelight.ts:111-119 | the sorted events are a permutation of the events |
| Renderer.TopmostIndex | src/treelight.ts:130-136 | the highest stack index with the id, or -1 exactly when no entry has it |
| Renderer.RemoveTopmost | src/treelight.ts:129-138 | only the topmost entry with the id is removed and the rest keep their order; with no such entry the stack is unchanged |
| Renderer.CloseCapture | src/treelight.ts:129-138 | the downward scan with `splice` and `break` computes that removal |
| Renderer.BuildAttrByCapture | src/treelight.ts:94-99 | the attribute loop builds the attribute of every capture name |
| Renderer.BuildEvents | src/treelight.ts:101-110 | the push loop builds the event list |
| Renderer.Sweep | src/treelight.ts:121-139 | the sweep state tiles the text up to the cursor, and every event position is at most the cursor |
| Renderer.SweepCursorBound | src/treelight.ts:121-128 | with offsets inside the text the cursor never passes its end |
| Renderer.Runs | src/treelight.ts:121-142 | the flushed runs and the trailing run tile the whole source, in order and without gaps |
| Renderer.SweepEvents | src/treelight.ts:121-139 | the sweep loop's cursor, stack and markup are those of the sweep specification |
| Renderer.RenderHtmlFromCaptures | src/treelight.ts:86-144 | the whole render equals its specification: the escaped source without captures, else the wrapped runs followed by the trailing flush |
| EventOrder.SortedOrder | src/treelight.ts:111-119 | a permutation of the 2·n events with non-decreasing positions; at equal positions ends come before starts, and events of the same type keep capture order (stable sort) |
| SweepProofs.RemoveKeeps | src/treelight.ts:129-138 | removing by id keeps the stack ordered by opening and removes exactly the entries with that id |
| SweepProofs.RunsCovered | src/treelight.ts:121-142 | every run is wrapped by exactly the captures that cover it (zero-width captures once opened) |
| SweepProofs.ZeroWidthStaysOpen | src/treelight.ts:118 | a zero-width capture is never popped: it wraps every later run, the trailing one included |
| SweepProofs.NestedCapture | src/treelight.ts:101-142 | a capture of positive width wraps exactly the runs inside its range |
| MarkupProofs.WrapNests | src/treelight.ts:69-84 | wrapping nests exactly one span per stack entry, `stack[0]` outermost |
| MarkupProofs.WrapSkipsNothing | src/treelight.ts:76-81 | every stack entry of every run has a non-empty attribute, so the `continue` never fires |
| MarkupProofs.RenderLayout | src/treelight.ts:86-144 | the render is the concatenation, run by run, of open tags, escaped text and close tags |
| MarkupProofs.TextTiles | src/treelight.ts:121-142 | the texts of the runs concatenate to the source |
| MarkupProofs.TextContent | src/treelight.ts:86-144 | outside its tags the render reads as `escapeHtml(source)` |
| MarkupProofs.TextContentRoundTrip | src/treelight.ts:86-144 | unescaping the text content of the render gives back the source |
| TreelightApi.NormalizeThemeName | src/treelight.ts:210-215 | an absent or empty name gives `github-dark`; otherwise each character is lower-cased (ASCII) or `_` becomes `-`; the result is normalised |
| TreelightApi.NormalizeFixes | src/treelight.ts:210-215 | a normalised name is left unchanged |
| TreelightApi.NormalizeIdempotent | src/treelight.ts:210-215 | normalising twice equals normalising once |
| TreelightApi.PreBlockColors | src/treelight.ts:176-191 | the colours are never empty: `bg` then `fg` of `ui.background`, else `#ffffff`; `fg` of `ui.foreground`, else `#000000` |
| TreelightApi.BundledThemeBlock | src/treelight.ts:181-188 | a theme whose `ui.background` has only `bg` and which has no foreground entry gets that background on black |
| TreelightApi.ThemeClass | src/treelight.ts:304 | the class is never empty and has no whitespace; it is the collapsed id when there is one, else `github-dark` |
| TreelightApi.LoadModule | src/treelight.ts:193-208 | a binary-loading failure is returned as is; a module without a `highlights` query fails after the grammar loads; a success always has that query |
| TreelightApi.InitialThemes | src/treelight.ts:228-231 | the constructor's registry has one entry, under a normalised key whose theme carries that key as its id |
| TreelightApi.Treelight.constructor | src/treelight.ts:228-231 | empty language maps, no parser initialisation, the bundled theme registered, and the class invariant |
| TreelightApi.Treelight.RegisterTheme | src/treelight.ts:250-268 | a definition without `styles` is refused and nothing changes; otherwise only the entry under the normalised key is replaced, with `id` set to that key |
| TreelightApi.Treelight.GetThemeFallback | src/treelight.ts:270-280 | the requested name, else the configured theme, else `github-dark`, and then the default theme; fails only when the requested key and the default are both missing |
| TreelightApi.Treelight.RegisteredThemeWins | src/treelight.ts:250-280 | a registered theme is what `getTheme` returns for its name, with its class derived from that name |
| TreelightApi.Treelight.RegisterLanguage | src/treelight.ts:240-242 | stores the loader under the name and changes nothing else |
| TreelightApi.Treelight.EnsureParser | src/treelight.ts:233-238 | the first call starts initialisation and every later call gets that same outcome, a failure included |
| TreelightApi.Treelight.LoadProperties | src/treelight.ts:282-296 | a cached language is returned without its loader; an unregistered one fails; a load succeeds only with a `highlights` query; the cache only grows, by successes |
| TreelightApi.Treelight.LoadLanguage | src/treelight.ts:282-296 | the result, cache and initialisation state are those of the load specification; nothing else changes |
| TreelightApi.Treelight.Highlight | src/treelight.ts:298-321 | the result and new state are those of the highlight specification; registries are unchanged |
| TreelightApi.Treelight.HighlightPolicy | src/treelight.ts:306-317 | outside strict mode only a missing theme fails; a load failure becomes the escaped fallback or is rethrown in strict mode; a missing tree falls back in both modes |
| TreelightApi.Treelight.UnregisteredLanguage | src/treelight.ts:282-317 | an unregistered language yields the escaped code in a pre block, or the unknown-language error in strict mode |
| HighlightProofs.StripPreBlock | src/treelight.ts:176-191 | the pre block adds no text of its own when its class and colours hold no `>` |
| HighlightProofs.HighlightText | src/treelight.ts:298-321 | every successful `highlight` result reads, outside its tags, as the escaped code |
| NativeTheme.Display | src/theme.rs:28-35 | always `#` plus six lower-case hex digits |
| NativeTheme.PairValue | src/theme.rs:98-100 | `u8::from_str_radix` on two characters accepts two hex digits or `+` and a digit, with their value |
| NativeTheme.StringToRgbAccepts | src/theme.rs:95-107 | success iff the length is at least 7 and characters 1-2, 3-4 and 5-6 parse as bytes; the first character is not checked; otherwise the malformed-hexcode error |
| NativeTheme.StringToRgbIgnoresTail | src/theme.rs:96-103 | characters after the seventh are ignored |
| NativeTheme.DisplayRoundTrip | src/theme.rs:28-35 | parsing the printed form of an RGB colour gives the colour back |
| NativeTheme.NamedDisplaysBlack | src/theme.rs:31-33 | every named colour prints as `#000000` |
| NativeTheme.ParseRoundTrip | src/theme.rs:95-107 | a `#` string with six lower-case hex digits parses and prints back to itself |
| NativeTheme.NewPalette | src/theme.rs:42-76 | the default palette extended by the user entries, which override defaults of the same name |
| NativeTheme.ParseColorLookup | src/theme.rs:78-93 | non-strings are unrecognised values; a palette name gives its colour; any other string is parsed as hex |
| NativeTheme.NamedColor | src/theme.rs:42-87 | a default palette name such as `red` resolves to its named colour unless the user overrides it |
| NativeTheme.PaletteFrom | src/theme.rs:110-127 | a non-table gives the default palette; a table succeeds iff every entry is a hex string, and then holds them all |
| NativeTheme.PaletteTryFrom | src/theme.rs:110-127 | the insertion loop succeeds exactly as the specification does, with the same palette, and a failure is the error of some entry |
| NativeTheme.StyleEntries | src/theme.rs:196-207 | the theme table without its `palette` and `inherits` keys |
| NativeTheme.Flatten | src/theme.rs:192-228 | the flattened styles never hold `palette` or `inherits`, and are absent (a panic) iff some stored colour fails to parse |
| NativeTheme.FlattenEntries | src/theme.rs:209-225 | a table entry stores only its `fg` colour, and nothing without `fg`; a bare value is stored as a colour |
| NativeTheme.StoreStyle | src/theme.rs:209-225 | one loop step of a style fails iff its colour fails; otherwise it stores exactly what the specification says |
| NativeTheme.BuildThemeValues | src/theme.rs:192-228 | the loops compute the flattening specification |
| NativeTheme.GetNearest | src/theme.rs:163-166 | no colour iff no name cut at a `.` is stored, the empty prefix included; otherwise the colour of the longest such prefix |
| NativeTheme.GetTriesEmptyPrefix | src/theme.rs:163-166 | unlike the TypeScript cascade, `.x` falls back to the entry under the empty name |
| NativeHighlight.AddHighlightNames | src/lib.rs:122-128 | the push loop computes the order-preserving deduplication |
| NativeHighlight.AddedProperties | src/lib.rs:122-128 | the old list stays a prefix; afterwards every capture name is listed, and nothing else is added; a duplicate-free list stays duplicate-free |
| NativeHighlight.AddedListed | src/lib.rs:123-127 | names that are all listed already change nothing |
| NativeHighlight.BuildConfigWithRegex | src/lib.rs:130-142 | the names without repeats in first-occurrence order, and one class attribute per name in the same order |
| NativeHighlight.LoadTheme | src/lib.rs:164-171 | the two GitHub names map to their themes and every other name to the default theme |
| NativeHighlight.ThemeName | src/lib.rs:175-177 | missing options or a missing theme select `default` |
| NativeHighlight.CaptureAttribute | src/lib.rs:190-197 | the class attribute, with `style="color: …"` exactly when `Theme::get` finds a colour |
| NativeHighlight.HtmlAttrs | src/lib.rs:186-198 | one attribute per capture name of the query, in order |
| NativeHighlight.Background | src/lib.rs:208-213 | a `#` colour of seven characters, and `#000000` when `ui.background` resolves to nothing |
| NativeHighlight.HighlightTheme | src/lib.rs:174-213 | no options gives the default theme named `default`; an unknown name gives the default colours with the unknown name as its class |
| NativeHighlight.BackgroundFallback | src/lib.rs:211 | a theme without `ui.background` or `ui` gets a `#000000` background, since White prints so |
| CliArgs.ParseArgs | scripts/create-theme-package.mjs:10-24 | the index-skipping loop computes the parse specification; the language script's copy at scripts/create-language-package.mjs:14-28 is identical |
| CliArgs.SkipsPlain | scripts/create-theme-package.mjs:13-14 | a token not starting with `--` is skipped |
| CliArgs.StoresPair | scripts/create-theme-package.mjs:15-21 | `--k v` stores `v` under `k` and consumes both tokens |
| CliArgs.MissingValueFails | scripts/create-theme-package.mjs:16-19 | a flag whose next token is missing, empty or a flag fails with its key |
| CliArgs.LoneHelpFails | scripts/create-theme-package.mjs:16-19 | a lone `--help` fails instead of asking for the usage text |
| CliArgs.LastValueWins | scripts/create-theme-package.mjs:20 | a repeated key keeps the last value |
| CliArgs.ValuesClean | scripts/create-theme-package.mjs:17-20 | every stored value is non-empty and does not start with `--` |
| CliArgs.ValuesFromPairs | scripts/create-theme-package.mjs:15-21 | every stored value is the token right after a flag naming its key |
| DirCheck.EnsureDirDoesNotExist | scripts/create-theme-package.mjs:35-45 | passes exactly when `access` rejects with `ENOENT`; an existing path gives the already-exists error; any other rejection is rethrown |
| DirCheck.EnsureDirDoesNotExistAsWritten | scripts/create-language-package.mjs:39-49 | throws a `ReferenceError` for `error` whatever the file system says |
| CreateThemePackage.ThemePlan | scripts/create-theme-package.mjs:51-63 | parse errors propagate; `--help` or no arguments give usage; a missing `name` fails; then the directory check; `themeId` is `id` if given else `name`; the package is `treelight-theme-` + `name` |
| CreateLanguagePackage.FirstMissing | scripts/create-language-package.mjs:61-66 | none iff every required key is given, else the first one that is not |
| CreateLanguagePackage.LanguagePlan | scripts/create-language-package.mjs:55-77 | parse errors propagate; usage as above; the first missing of `name`, `repo`, `version`, `artifact` fails; then the (corrected) directory check; `languageId` defaults to `name`; the package is `treelight-language-` + `name` |

## Left out

- The web-tree-sitter runtime (`Parser.init`, `Language.load`, `new Parser`, `setLanguage`, `new Query`, `parse`, `captures`) is foreign code. It becomes the `Backend` value, and its captures are an input.
- `loadWasmBinary` (fetch and `instanceof` dispatch) and `src/utils/base64.ts` are I/O and buffer wrappers. Loading a binary is one possibly failing `Backend` operation.
- Promises are not modelled: `parserInit` is a one-shot field and `await` is sequencing. Concurrent first loads of the same language are out of scope.
- The `parser` option that `ensureParser` hands to `Parser.init` goes to foreign code and is not modelled.
- The Rust `Highlighter`/`HtmlRenderer` of tree-sitter-highlight are foreign: the rendered markup is a parameter of `NativeHighlight.Highlight`. So are the `lazy_static` language configurations, `configure`, `load_file`, the napi bindings and the unchecked UTF-8 conversion.
- `Theme::load_theme`, `load_toml` and `From<&str>` read files and parse TOML. The parsed TOML value is an input, modelled as the `TomlValue` datatype.
- The `log::warn!` side effects are not modelled.
- NativeTheme.StringToRgb counts characters where Rust counts bytes: `s.len()` and the slices `&s[1..3]`, `&s[3..5]`, `&s[5..7]` are byte offsets, and they panic when a multi-byte character straddles one. The model agrees with the source on ASCII strings only.
- NativeTheme.PaletteTryFrom: on failure it reports the error of some failing entry, not necessarily the first one in the table's iteration order.
- NativeTheme.BuildThemeValues: the `unwrap` panic on a colour that fails to parse is the result `None`.
- `String.prototype.toLowerCase` is modelled on ASCII letters only, and `\s` as ASCII white space.
- An argument named `--__proto__` sets the prototype of the JavaScript `args` object instead of a key. The model treats it as an ordinary key.
- The writing parts of the scaffolding scripts (`mkdir`, `writeFile`, `execFile`, the usage text and `process.exit`) are file-system and process effects.
- `src/index.ts`, `packages/*`, `docs/*`, the build scripts, benchmarks and tests are wiring, static data, UI or snapshots, and are not part of this model.

## Where the code and its description differ

The model follows the code in each case.

- A parse that yields no tree gives the escaped fallback block in strict mode too: only a load failure is rethrown (src/treelight.ts:306-317).
- A zero-width capture is not inert. Its end event sorts before its start event, so the start pushes it and nothing pops it. It then wraps all later text (src/treelight.ts:118, 129-142).
- The constructor's `strict` option is never read: only the per-call option decides the policy (src/treelight.ts:306).
- A failed parser initialisation is kept in `parserInit`, so every later load fails with the same error (src/treelight.ts:233-238).
- The native highlighter uses the requested theme name as the block class even when it falls back to the default theme. Its white background fallback prints as `#000000` (src/lib.rs:208-213, src/theme.rs:31-33).

## Findings

| source | as written | input that shows it | evidently intended | confidence | as-written member | corrected member |
|---|---|---|---|---|---|---|
| scripts/create-language-package.mjs:43-47 | the catch clause binds `_error` but reads `error.code` and rethrows `error` | any run that reaches the check, e.g. a package directory that does not exist (`access` rejects with `ENOENT`): a `ReferenceError` is thrown instead of returning | the same check as scripts/create-theme-package.mjs:39-43, binding `error`: return on `ENOENT`, rethrow otherwise | high, not executed | DirCheck.EnsureDirDoesNotExistAsWritten | DirCheck.EnsureDirDoesNotExist |
