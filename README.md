# Portfolio site: verified model of its stateful and derived logic

This project models in Dafny the parts of a Next.js portfolio site that carry
logic rather than markup, and proves what they promise:

- **ThemeToggle**: the floating theme button and its ripple controller. A
  click paints a full-screen `cover` ripple in the target theme's page colour
  and schedules a first timer (t1). t1 writes the theme that was captured at
  click time to the theme store, paints a `reveal` ripple and schedules a
  second timer (t2). t2 removes the two ripples of its own click by id.
  Unmounting clears every recorded timer. The controller is a class whose
  fields are the store, the mount flag, the ripple list, the id counter
  (`seq`), the recorded handles (`timers`) and the browser's pending timeouts
  (a map from handle to callback). Firing a timer is an explicit step method.
- **BrandVariant**: `pickBrandVariant`, a page-wide memo. It draws one of
  four variants and records it in a global window slot and a data attribute,
  so every later call answers the same variant.
- **BrandCorner**: the `.ap` corner tile. `cssVar` reads a custom property
  with a fallback for server rendering and for blank values. The tile starts
  blue and takes the page's pick on mount. The tile's style maps each variant
  to a background, a text colour and a border.
- **RandomFavicon**: the favicon. It has its own `cssVar` and the same
  colour map, reduced to (bg, fg), and builds an SVG whose rect and text
  fills are those colours.
- **ContactSection**: the send button and thank-you pill. Both derive from
  the form's `submitting` and `succeeded` flags.
- **ProjectsGallery**: `toneStyle` and the project grid. The grid rules are
  the centred last card when the count is odd, the slide-in side, the
  decorative icon colour, the card link, and the twelve-fold hover marquee.

Two helper modules are shared. `Browser` holds `String.prototype.trim` over
the ECMAScript white-space and line-terminator characters, and the computed
style as a map from property name to value (an undeclared property reads as
the empty string). `Wrappers` holds `Option`.

Modelling choices:

- `Math.random()` is a parameter `r` with `0 <= r < 1`. The pool index is
  `floor(r * 4)`.
- The theme store (next-themes) is two fields. `setTheme(x)` is modelled as
  writing `x` to both `theme` and `resolvedTheme`.
- A timer callback runs only while its handle is still pending and of the
  right kind. Otherwise firing it changes nothing; this is what a cleared
  timeout does.
- `toneStyle` takes the tone as the string it is at run time, so its
  `default` branch is reachable.

## Model

| member | source | states |
|---|---|---|
| ThemeToggle.Opposite | src/components/ThemeToggle.tsx:46 | the other theme is never the same theme |
| ThemeToggle.PageColor | src/components/ThemeToggle.tsx:7 | the ripple colour is `#000000` exactly for dark and `#ffffff` exactly for light |
| ThemeToggle.Current | src/components/ThemeToggle.tsx:41-44 | "dark" before mount whatever is stored; after mount "light" exactly when `resolvedTheme ?? theme` is "light" |
| ThemeToggle.Next | src/components/ThemeToggle.tsx:46 | the click target differs from the current theme, and its opposite is the current theme |
| ThemeToggle.ButtonDot | src/components/ThemeToggle.tsx:46-50 | the dot is black exactly when mounted and the target is dark; otherwise white, including the placeholder before mount |
| ThemeToggle.ButtonLabel | src/components/ThemeToggle.tsx:101 | "Switch theme" exactly before mount; after mount "Switch to " followed by the target's name and " theme" |
| ThemeToggle.LabelNamesTarget | src/components/ThemeToggle.tsx:101 | after mount distinct targets give distinct aria-labels, none equal to the pre-mount "Switch theme" |
| ThemeToggle.PreviewsOpposite | src/components/ThemeToggle.tsx:41-111 | once mounted, the button names and previews the theme opposite to the stored one; before mount it shows the neutral label and the white dot |
| ThemeToggle.Without | src/components/ThemeToggle.tsx:79 | the filter keeps exactly the ripples whose id is neither `idA` nor `idB`, and never lengthens the list |
| ThemeToggle.WithoutOrdered | src/components/ThemeToggle.tsx:79 | filtering keeps the remaining ripples in their order |
| ThemeToggle.WithoutIds | src/components/ThemeToggle.tsx:79 | the id set after filtering is the old one minus `{idA, idB}` |
| ThemeToggle.WithoutLength | src/components/ThemeToggle.tsx:79 | on ids in increasing order, filtering removes one ripple per id present |
| ThemeToggle.AppendFresh | src/components/ThemeToggle.tsx:69-76 | appending a ripple with the next id keeps ids strictly increasing and adds exactly that id |
| ThemeToggle.ClickKeeps | src/components/ThemeToggle.tsx:63-86 | a click preserves the controller invariant: ordered fresh ids, every pending handle recorded, every pending timer naming ripples on screen, no two timers naming the same ripple |
| ThemeToggle.FlipKeeps | src/components/ThemeToggle.tsx:72-83 | running t1 preserves the invariant; the t2 it schedules names its cover id and a later reveal id |
| ThemeToggle.CleanupKeeps | src/components/ThemeToggle.tsx:78-80 | running t2 preserves the invariant and removes exactly its two ripples, both on screen |
| ThemeToggle.IdleConsistent | src/components/ThemeToggle.tsx:56-61 | with no pending timer, any ordered ripple list satisfies the invariant |
| ThemeToggle.Controller.constructor | src/components/ThemeToggle.tsx:34-54 | unmounted, no ripples, counter at 0, no timers |
| ThemeToggle.Controller.Mount | src/components/ThemeToggle.tsx:38 | sets the mount flag and keeps the invariant |
| ThemeToggle.Controller.CurrentTheme | src/components/ThemeToggle.tsx:41-44 | the controller reports dark before mount, and after mount light exactly when `resolvedTheme ?? theme` is "light" |
| ThemeToggle.ClearKeeps | src/components/ThemeToggle.tsx:58 | dropping any handle from the pending timeouts preserves the controller invariant |
| ThemeToggle.Controller.ClearTimeout | src/components/ThemeToggle.tsx:58 | removes exactly the cleared handle from the pending timeouts and keeps the controller invariant |
| ThemeToggle.Controller.Click | src/components/ThemeToggle.tsx:63-86 | appends one cover ripple with a fresh id, colour `PAGE_COLOR[next]` and origin (100%, 0%); schedules and records t1 carrying the target; leaves the theme and earlier ripples untouched |
| ThemeToggle.Controller.FireT1 | src/components/ThemeToggle.tsx:72-83 | a pending t1 writes the target captured at click time, appends a reveal ripple with a fresh id and the same colour, and schedules and records t2; any other handle changes nothing |
| ThemeToggle.Controller.FireT2 | src/components/ThemeToggle.tsx:78-80 | a pending t2 removes exactly its cover and reveal ripples (two fewer, others kept in order); any other handle changes nothing |
| ThemeToggle.Controller.Unmount | src/components/ThemeToggle.tsx:56-61 | clears every recorded handle, leaving nothing pending, and empties the list |
| ThemeToggle.LoneActivation | src/components/ThemeToggle.tsx:63-86 | one click with both timers run takes the ripple count 0, 1, 2, 0 and ends on the opposite theme |
| ThemeToggle.ClickTwice | src/components/ThemeToggle.tsx:67-72 | two clicks before any t1 schedule two t1s with the same target |
| ThemeToggle.FlipBoth | src/components/ThemeToggle.tsx:72-83 | both t1s write the same target; each t2 names its own cover and reveal ids |
| ThemeToggle.FirstCleanup | src/components/ThemeToggle.tsx:78-80 | after both flips, the first click's t2 leaves only the second click's two ripples and keeps the theme |
| ThemeToggle.DoubleActivation | src/components/ThemeToggle.tsx:67-83 | two quick clicks target the same theme, and the first t2 leaves exactly the second click's two ripples |
| ThemeToggle.TeardownBeforeFlip | src/components/ThemeToggle.tsx:56-73 | after unmount, the cancelled t1 never changes the theme |
| BrandVariant.PoolIndex | src/lib/brandVariant.ts:16-17 | `floor(r * 4)` is an index of the pool, and it is the floor |
| BrandVariant.EveryVariantReachable | src/lib/brandVariant.ts:16-17 | every variant is drawn by some `r` in [0, 1) |
| BrandVariant.NamesDistinct | src/lib/brandVariant.ts:4 | distinct variants are written as distinct strings |
| BrandVariant.Page.constructor | src/lib/brandVariant.ts:6-10 | a page starts with an empty slot and no attribute |
| BrandVariant.Page.PickBrandVariant | src/lib/brandVariant.ts:12-22 | no window: blue, nothing written; slot set: the stored value, nothing written; otherwise `pool[floor(r*4)]`, written to slot and attribute; always one of the four |
| BrandVariant.PickTwice | src/lib/brandVariant.ts:14-21 | two calls on one page agree whatever the draws; the attribute holds the first draw's name |
| Browser.TrimStart | src/components/BrandCorner.tsx:12-15 | drops exactly a leading run of white space |
| Browser.TrimEnd | src/components/BrandCorner.tsx:12-15 | drops exactly a trailing run of white space |
| Browser.Trim | src/components/BrandCorner.tsx:12-15 | the result starts and ends with non-space, and is empty exactly when the input is all white space |
| Browser.TrimIdentity | src/components/BrandCorner.tsx:12-15 | trimming leaves a string unchanged exactly when it is already trimmed |
| Browser.TrimIdempotent | src/components/BrandCorner.tsx:12-15 | trimming twice is trimming once |
| Browser.TrimKeepsChars | src/components/BrandCorner.tsx:12-15 | trimming only removes characters: each character of the result occurs in the input |
| Browser.AllSpaceAppend | src/components/BrandCorner.tsx:12-15 | a concatenation is all white space exactly when both parts are |
| Browser.AllSpaceSuffix | src/components/BrandCorner.tsx:12-15 | a suffix of a white-space string is white space |
| Browser.PropertyValue | src/components/BrandCorner.tsx:12-14 | an undeclared property reads as the empty string |
| BrandCorner.CssVar | src/components/BrandCorner.tsx:9-17 | the fallback without a window or root element, or when the value is blank; otherwise the trimmed, non-empty value |
| BrandCorner.UndeclaredFallsBack | src/components/BrandCorner.tsx:12-16 | an undeclared property yields the fallback |
| BrandCorner.CssVarNonEmpty | src/components/BrandCorner.tsx:9-17 | a non-empty fallback makes every read non-empty |
| BrandCorner.ReadPalette | src/components/BrandCorner.tsx:24-27 | the four colours are non-empty, and are the fallbacks on the server or with nothing declared |
| BrandCorner.StyleOf | src/components/BrandCorner.tsx:29-36 | bg is the variant's own colour; fg is WHITE for blue and ink, INK for banana, BLUE for white; the light border exactly for blue and ink |
| BrandCorner.ReadableOnDistinctPalette | src/components/BrandCorner.tsx:30-35 | with distinct colours no tile has fg equal to bg |
| BrandCorner.FallbackReadable | src/components/BrandCorner.tsx:24-35 | with the fallback colours no tile has fg equal to bg |
| BrandCorner.Corner.constructor | src/components/BrandCorner.tsx:20-37 | the first render is blue, with the blue style read from the document at that moment |
| BrandCorner.Corner.Mount | src/components/BrandCorner.tsx:21-37 | on a page and document that agree on having a window, the tile takes the page's pick: blue without a window, the stored pick if any, otherwise the new draw; the memoised style is recomputed from the current document only when the variant changes, and kept as it was otherwise |
| BrandCorner.TwoCorners | src/components/BrandCorner.tsx:20-37 | a tile renders blue first and then the draw (blue again without a window); a second tile on the same page shows the same style |
| RandomFavicon.CssVar | src/components/RandomFavicon.tsx:7-12 | the trimmed non-empty value, or the fallback when it is blank |
| RandomFavicon.CssVarsAgree | src/components/RandomFavicon.tsx:7-12 | in a browser the favicon's `cssVar` equals the corner tile's |
| RandomFavicon.ReadPalette | src/components/RandomFavicon.tsx:15-18 | the favicon reads the same four colours as the corner tile |
| RandomFavicon.Colors | src/components/RandomFavicon.tsx:20-26 | for every variant the favicon's (bg, fg) is the corner tile's (bg, fg) |
| RandomFavicon.FallbackFaviconReadable | src/components/RandomFavicon.tsx:15-25 | with the fallback colours bg differs from fg for every variant |
| RandomFavicon.UpToQuoteParts | src/components/RandomFavicon.tsx:28-35 | splitting at the first double quote loses nothing, and the first part holds no quote |
| RandomFavicon.UpToQuoteSplit | src/components/RandomFavicon.tsx:28-35 | a quote-free prefix followed by a quote is exactly what the split returns |
| RandomFavicon.Svg | src/components/RandomFavicon.tsx:28-35 | the markup holds `bg` right after the header, `fg` right before the closing tail, and nothing else between them but the fixed middle |
| RandomFavicon.BuildSvg | src/components/RandomFavicon.tsx:14-36 | the favicon for a variant is the markup filled with the corner tile's background and text colour for that variant |
| RandomFavicon.HolesReadBack | src/components/RandomFavicon.tsx:28-35 | two quote-free values between quote-started text read back unchanged |
| RandomFavicon.FillsRoundTrip | src/components/RandomFavicon.tsx:28-35 | the rect fill and text fill read back from the markup, followed by exactly the tail carrying the `.ap` glyph |
| RandomFavicon.CssVarQuoteless | src/components/RandomFavicon.tsx:7-12 | a read of a property whose value holds no double quote, with a quote-free fallback, holds none |
| RandomFavicon.PaletteQuoteless | src/components/RandomFavicon.tsx:15-18 | when the four colour properties hold no double quote, neither do the four colours read from them |
| RandomFavicon.BuildSvgFills | src/components/RandomFavicon.tsx:14-36 | when none of the four colour properties holds a double quote, the favicon's rect is filled with the variant's bg and its `.ap` text with its fg |
| RandomFavicon.Run | src/components/RandomFavicon.tsx:60-62 | the favicon uses the page's memoised variant and the SVG built for it |
| RandomFavicon.MountCorner | src/components/BrandCorner.tsx:20-37 | a mounted corner tile shows the page's draw and that variant's style |
| RandomFavicon.FaviconShowsTile | src/components/RandomFavicon.tsx:14-36 | the favicon built for a variant is filled with that variant's tile bg and fg |
| RandomFavicon.CornerAndFavicon | src/components/RandomFavicon.tsx:58-71 | with the tile mounting first and the favicon's deferred run second, corner tile and favicon show the variant of the first draw, whatever the second, so the favicon's fills are the tile's bg and fg |
| ContactSection.Label | src/components/ContactSection.tsx:57-60 | "Sent" exactly when succeeded; "Sending…" exactly when submitting and not succeeded; "Send" exactly when neither |
| ContactSection.Disabled | src/components/ContactSection.tsx:58-59 | the button is disabled exactly when its label is not "Send" |
| ContactSection.ShowsThanks | src/components/ContactSection.tsx:350 | the thank-you pill shows exactly when the button reads "Sent" |
| ContactSection.RenderButton | src/components/ContactSection.tsx:321-344 | disabled and aria-disabled agree and hold exactly when submitting or succeeded; sent styling and no icon exactly when succeeded; aria-label and text are the label |
| ContactSection.EnabledOnlyWhenSend | src/components/ContactSection.tsx:56-60 | the button is clickable exactly when it reads "Send"; with the pill shown it is disabled and iconless |
| ContactSection.ThanksMatchesButton | src/components/ContactSection.tsx:323-350 | the thank-you pill shows exactly when the button has sent styling and no icon |
| ContactSection.LabelDeterminesState | src/components/ContactSection.tsx:60 | the label alone determines `succeeded`, and `submitting` when not succeeded |
| ProjectsGallery.ToneStyle | src/components/ProjectsGallery.tsx:22-73 | total; white text exactly for dark, phthalo and unknown tones, `#0a0a0b` otherwise; light border exactly with white text; "dark" and every unknown tone get the dark style |
| ProjectsGallery.TonesDistinct | src/data/projects.ts:10-17 | every declared tone has its own case and distinct tones get distinct backgrounds |
| ProjectsGallery.DecoColor | src/components/ProjectsGallery.tsx:196-199 | the light translucent colour exactly when the text is white |
| ProjectsGallery.EntryX | src/components/ProjectsGallery.tsx:204 | -40 exactly for even indices, +40 exactly for odd ones |
| ProjectsGallery.NeighboursOpposite | src/components/ProjectsGallery.tsx:204 | neighbouring cards enter from opposite sides |
| ProjectsGallery.CardHref | src/components/ProjectsGallery.tsx:223 | the link is "/projects/" followed by the slug |
| ProjectsGallery.HrefRoundTrip | src/components/ProjectsGallery.tsx:223 | the slug reads back from the link, and only its own link yields it |
| ProjectsGallery.OddLastIdx | src/components/ProjectsGallery.tsx:122-123 | the index is non-negative exactly for an odd count, and then it is the last index; otherwise it is -1 |
| ProjectsGallery.CardAt | src/components/ProjectsGallery.tsx:193-223 | the card for project i is keyed by its slug, links to a URL the slug reads back from, is full-row exactly when it is the last of an odd count, and takes its side, tone style and icon colour from its index and tone |
| ProjectsGallery.Cards | src/components/ProjectsGallery.tsx:193-223 | one card per project in order, keyed and linked by its slug; the full-row flag is set exactly on the last card of an odd count; each card slides in from its index's side, wears its tone's style and the icon colour that style implies |
| ProjectsGallery.CountMarked | src/components/ProjectsGallery.tsx:195-213 | a list with only position k marked has one mark when k is inside it and none otherwise |
| ProjectsGallery.OneFullRowWhenOdd | src/components/ProjectsGallery.tsx:122-123 | the number of full-row cards is the project count mod 2 |
| ProjectsGallery.PillMarquee | src/components/ProjectsGallery.tsx:89-98 | two copies of six spans, each keyed `copy-i` and showing the text and separator |
| ProjectsGallery.OccurrencesAppend | src/components/ProjectsGallery.tsx:89-98 | occurrences of a span text add up over concatenation |
| ProjectsGallery.OccurrencesAll | src/components/ProjectsGallery.tsx:91-97 | a row of identical spans shows its text once per span |
| ProjectsGallery.FlattenTwo | src/components/ProjectsGallery.tsx:89-100 | rendering two copies lays them out one after the other |
| ProjectsGallery.MarqueeKeys | src/components/ProjectsGallery.tsx:89-93 | the twelve spans are keyed by copy and position |
| ProjectsGallery.TwelveRepetitions | src/components/ProjectsGallery.tsx:89-98 | the text is shown twelve times under twelve distinct keys |

## Left out

- Animation and timing: framer-motion transitions, clip-path radii, and the durations and delays (0.65 s, 500 ms, 60 ms). Timers are discrete events, fired in whatever order the caller chooses. The ripple markup, and the dot's hex colour, are not modelled.
- next-themes persistence and system-theme resolution: `setTheme` is a write of both store fields.
- `Math.random` is the parameter `r`.
- Browser I/O: `getComputedStyle` is the computed-style map. Also out: `replaceAllIcons` and its `Date.now()` cache-buster, `encodeURIComponent` and the data URL, the `readyState`/`DOMContentLoaded` wiring and the `setTimeout(run, 0)` deferral of the favicon.
- RandomFavicon.BuildSvgFills: reading the fills back needs the four colour properties (`--pill-blue`, `--pill-ink`, `--pill-banana`, `--card-white`) to hold no double quote; a value containing `"` would break the markup, and the lemma says nothing about it. The same holds for RandomFavicon.FillsRoundTrip, RandomFavicon.FaviconShowsTile and RandomFavicon.CornerAndFavicon.
- RandomFavicon.CornerAndFavicon: only the order the page actually runs is proved, the tile's mount effect before the favicon's `setTimeout(run, 0)`. Run in the other order the favicon would make the first draw; the memo makes both agree as well, but that order is not stated.
- BrandCorner.Corner.Mount: the memo depends on the variant only, so a later change of the custom properties does not reach a mounted tile. The model keeps the style computed when the variant last changed, and does not model re-renders for other reasons.
- The Formspree submission (`useForm`, `ValidationError`): only its two flags enter the model.
- The gallery's `IntersectionObserver` and `history.replaceState` effect, card titles, blurbs, icons and stacks.
- Static content and purely presentational components: projects data, experience, skills marquees, hero tiles, header, intro pill, the app pages and layout.
- BrandCorner's `Link` markup, and the corner tile's class names.
