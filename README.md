# HB Suites site logic in Dafny

This project models the three pieces of the HB Suites marketing site that are
logic rather than markup or library calls, and proves what they promise.

- **Hero slide controller** (`hero.dfy`, module `Hero`, after
  `src/components/Hero.jsx`). `HeroController` is a class with these fields:
  - `currentSlide`, the slide index.
  - `prevSlide`, the outgoing slide.
  - `activeBg`, the selector of one of two background layers (1 or 2).
  - the heading text.

  `Layer` is a class for the two background layers, each with inline image,
  position, size, opacity and z-index. The controller's operations are:
  - the timer's advance.
  - an indicator click (`goToSlide`).
  - the slide-1 framing effect.
  - the transition commit, which paints the selected layer and hides the other.

  The commit is specified against the predicate `Displayed`: the selected layer
  shows the current slide, opaque and in front, and the heading is its title.
  `Tick` and `SelectSlide` model how React runs the effects: the effects are
  keyed on `currentSlide`, so they run only when a state change altered it.
  These two methods prove the following:
  - Every change of slide restores `Displayed`.
  - Clicking the slide already shown flips the selector with no repaint, which
    breaks `Displayed`. A timer period with a single slide does the same.
- **Gallery view toggle** (`gallery.dfy`, module `Gallery`, after
  `src/components/PhotoGallery.jsx`):
  - Every photo has a view index.
  - `PhotoGallery.SwitchImage` copies the index array into a fresh array,
    rewrites one slot and makes the copy the state.
  - What a photo shows is a pure function of its own index: the opaque view,
    the arrow and the side indicator.
- **Asset file naming** (`asset_names.dfy`, module `AssetNames`, after
  `vite.config.js`). `assetFileNames` takes the text after the last "." of an
  asset's name. It tests that text against the image pattern, then the font
  pattern; both patterns are unanchored and case-insensitive. It returns one of
  three path templates. Chunks and entries use one fixed template.
- `marks.dfy` (module `Marks`) holds the one-hot row of indicator marks that
  the hero indicators and the gallery side indicator both render.

Some behaviour of the code is easy to misread, so it is stated here:

- The contact form has no submission logic. Its button only calls `alert`
  (`src/components/ContactUs.jsx:200-207`), and its inputs are bound to no
  state, so there is nothing to model there.
- On mobile (below 768 px), slide 1 is shifted left and stretched, and every
  other slide is framed "top center", not centred
  (`src/components/Hero.jsx:75-76`). `Hero.SlideFraming` follows this.
- Re-selecting the current slide repaints nothing. The repainting effects are
  keyed on `currentSlide` (`src/components/Hero.jsx:121`), which does not change.

## Model

| member | source | states |
|---|---|---|
| Hero.Flip | src/components/Hero.jsx:19 | the selector always moves to the other layer and stays in {1,2} |
| Hero.FlipTwice | src/components/Hero.jsx:126 | two flips restore the selector |
| Hero.NextSlide | src/components/Hero.jsx:18 | the advance target is in [0, N): the next index, or 0 after the last slide |
| Hero.AdvancedCompose | src/components/Hero.jsx:15-22 | a advances followed by b advances equal a + b advances |
| Hero.AdvanceVisitsInOrder | src/components/Hero.jsx:18 | from slide 0 the k-th advance (k < N) reaches slide k |
| Hero.AdvanceCycles | src/components/Hero.jsx:18 | N advances from 0 visit 0..N-1 in order, return to 0, and repeat with period N |
| Hero.SlideFraming | src/components/Hero.jsx:66-78 | all four framing cases; desktop is always centred "cover"; only mobile slide 1 is not "cover"; on mobile "left center" iff slide 1 |
| Hero.Layer.constructor | src/components/Hero.jsx:135-152 | a layer with the given image, opacity and z-index, and no inline position or size |
| Hero.HeroController.ActiveLayer | src/components/Hero.jsx:26-27 | the layer `activeBg` names is one of the two layers |
| Hero.HeroController.OtherLayer | src/components/Hero.jsx:88-89 | the layer `activeBg` does not name is the other of the two |
| Hero.HeroController.constructor | src/components/Hero.jsx:135-152 | first render: slide 0, no previous slide, selector 1, layer 1 showing slide 0 opaque at z 2 with no inline framing, layer 2 transparent at z 1, heading is slide 0's title (state from lines 8-12) |
| Hero.HeroController.IndicatorAriaCurrent | src/components/Hero.jsx:206-212 | one value per slide, "true" exactly at the current slide, so exactly one indicator is current |
| Hero.HeroController.Advance | src/components/Hero.jsx:16-20 | stores the outgoing slide in `prevSlide`, moves to `(i+1) mod N`, flips the selector, keeps the heading |
| Hero.HeroController.GoToSlide | src/components/Hero.jsx:123-127 | stores the outgoing slide, sets the slide to exactly `index`, flips the selector even for the current index |
| Hero.HeroController.ApplySlideOneFraming | src/components/Hero.jsx:25-38 | on slide 1 the selected layer gets slide 1's framing for the width; otherwise nothing changes; the other layer and the selected layer's image, opacity and z-index are untouched |
| Hero.HeroController.CommitTransition | src/components/Hero.jsx:60-96 | the selected layer shows the current slide's image with its framing, opacity 1, z 2; the other layer gets opacity 0, z 1 and keeps its image; the heading becomes the slide's title |
| Hero.HeroController.RunSlideEffects | src/components/Hero.jsx:121 | running both slide-keyed effects in order leaves the committed picture, with the commit's framing winning |
| Hero.HeroController.Tick | src/components/Hero.jsx:15-22 | one timer period: with N > 1 the picture matches the new state, the newly selected layer carries the new slide's framing for the width, and the hidden layer keeps the outgoing image and framing; with N = 1 nothing repaints and a displayed picture stops matching |
| Hero.HeroController.SelectSlide | src/components/Hero.jsx:123-127 | a click on another slide leaves the picture matching, with the chosen slide's framing for the width on the selected layer and the outgoing image and framing kept on the hidden layer; a click on the current slide repaints nothing and breaks the match |
| Hero.Url | src/components/Hero.jsx:63 | the CSS value is "url(" + the slide's background + ")", so the background can be read back from it |
| Hero.HeroController.Displayed | src/components/Hero.jsx:60-96 | the picture matches the state: the layer `activeBg` names shows the current slide opaque at z 2, the other is at opacity 0 and z 1, and the heading is the slide's title |
| Hero.Mount | src/components/Hero.jsx:8-121 | first render plus the mount run of the slide effects: slide 0 on layer 1 with its inline framing, layer 2 transparent behind, and the picture matches the state |
| Hero.SiteSlides | src/components/Slide.jsx:1-30 | the site has four slides |
| Hero.SameSlideClickHidesSelectedLayer | src/components/Hero.jsx:123-127 | after mounting, clicking slide 0 leaves the selector on a layer at opacity 0 while the opaque layer is the other one |
| Hero.OtherSlideClickShowsSelectedLayer | src/components/Hero.jsx:123-127 | after mounting, clicking slide 2 leaves the selector on an opaque layer showing slide 2 |
| Hero.MobileSlideOneClickShiftsLeft | src/components/Hero.jsx:66-69 | after mounting, clicking slide 1 below 768 px leaves the selected layer framed "left center" at "125% 100%" |
| Gallery.Switched | src/components/PhotoGallery.jsx:119-129 | same length, every other entry unchanged, the switched entry is 0 or 1 unless nothing changed |
| Gallery.SwitchFlipsBinary | src/components/PhotoGallery.jsx:122-126 | on an entry in {0,1} both "next" and "prev" flip it |
| Gallery.SwitchKeepsBinary | src/components/PhotoGallery.jsx:122-127 | switching keeps every entry in {0,1} |
| Gallery.SwitchTwiceRestores | src/components/PhotoGallery.jsx:122-127 | switching an entry in {0,1} twice in the same direction restores the array |
| Gallery.UnknownDirectionChangesNothing | src/components/PhotoGallery.jsx:122-127 | any direction other than "next" and "prev" returns an equal array |
| Gallery.ArrowsAgreeOnBinary | src/components/PhotoGallery.jsx:122-126 | on an entry in {0,1} the two directions give the same array |
| Gallery.ViewOpacity | src/components/PhotoGallery.jsx:201-202 | a view is "opacity-100" exactly when the photo's index names it, and "opacity-0" otherwise (also lines 215-216) |
| Gallery.ShowsForwardArrow | src/components/PhotoGallery.jsx:302 | the forward arrow shows only on view 0; `ExactlyOneViewAndArrow` proves exactly one of the two arrows shows |
| Gallery.ShowsBackArrow | src/components/PhotoGallery.jsx:329 | the back arrow shows only on view 1; `ArrowClickShowsOtherView` proves clicking the shown arrow swaps which arrow shows |
| Gallery.ExactlyOneViewAndArrow | src/components/PhotoGallery.jsx:201-216 | for an index in {0,1} exactly one view is opaque, the one the index names; exactly one arrow shows, the forward one at 0 (arrows at lines 302 and 329) |
| Gallery.ArrowClickShowsOtherView | src/components/PhotoGallery.jsx:302-329 | clicking the arrow a photo shows makes the other view opaque and shows the other arrow |
| Gallery.ShowsNextButton | src/components/PhotoGallery.jsx:288-294 | the "Next" button shows on every photo but the last, so its target index + 1 is a photo |
| Gallery.SideIndicator | src/components/PhotoGallery.jsx:360-365 | one bar per photo, highlighted exactly at the photo's own position, so exactly one is highlighted |
| Gallery.PhotoGallery.constructor | src/components/PhotoGallery.jsx:100-102 | one index per photo (10), all 0 |
| Gallery.PhotoGallery.SwitchImage | src/components/PhotoGallery.jsx:119-129 | the new state is a fresh array equal to `Switched` of the old one; the old array is left as it was; entries stay in {0,1} |
| AssetNames.Split | vite.config.js:29 | at least one piece, no piece contains the separator, a single piece iff the text has no separator |
| AssetNames.JoinSplit | vite.config.js:29 | joining the pieces with the separator gives back the name |
| AssetNames.LastPieceIsTail | vite.config.js:29-30 | the last piece is a suffix of the name, preceded by the separator unless it is the whole name |
| AssetNames.LastPieceAfterSeparator | vite.config.js:29-30 | whatever precedes the last separator, the last piece is all that follows it |
| AssetNames.Extension | vite.config.js:29-30 | the extension has no ".", is the suffix after the last ".", and is the whole name when there is no "." |
| AssetNames.ExtensionOf | vite.config.js:29-30 | the extension of stem + "." + ext is ext whenever ext has no "." |
| AssetNames.LowerChar | vite.config.js:31 | upper-case ASCII letters map to their lower-case letters; every other character is kept |
| AssetNames.Lower | vite.config.js:31 | same length, each character lower-cased |
| AssetNames.Contains | vite.config.js:31 | the unanchored search: a pattern is found only in a text at least as long; `ContainsIffOccurs` proves it finds exactly the occurrences |
| AssetNames.IsImageExtension | vite.config.js:31 | the case-insensitive, unanchored image pattern: one of png, jpg, jpeg (the pattern jpe?g), svg, gif, tiff, bmp or ico occurs in the lower-cased extension |
| AssetNames.ImageTestMatchesList | vite.config.js:31 | the image test succeeds iff some alternative of the image list occurs in the lower-cased extension |
| AssetNames.IsFontExtension | vite.config.js:34 | the case-insensitive, unanchored font pattern: one of woff, woff2, eot, ttf or otf occurs in the lower-cased extension |
| AssetNames.FontTestMatchesList | vite.config.js:34 | the font test succeeds iff some alternative of the font list occurs in the lower-cased extension |
| AssetNames.ContainsIffOccurs | vite.config.js:31 | the unanchored search succeeds iff the pattern sits in the text at some offset |
| AssetNames.ContainsEmbedded | vite.config.js:31 | an alternative surrounded by any text is found |
| AssetNames.ContainsPrefix | vite.config.js:34 | any text containing an extension of p contains p |
| AssetNames.ContainedCharsOccur | vite.config.js:31 | a text that contains p contains each of p's characters |
| AssetNames.LacksChar | vite.config.js:31 | a text missing one character of p does not contain p |
| AssetNames.NotImageWithout | vite.config.js:31 | an extension with none of the letters n, j, v, g, t, m, i fails the image test |
| AssetNames.NotFontWithout | vite.config.js:34 | an extension with none of the letters f, o, t fails the font test |
| AssetNames.AssetFileName | vite.config.js:28-38 | always one of the three templates, always under "assets/"; images iff the extension passes the image test; fonts iff it fails the image test and passes the font test |
| AssetNames.TemplatesUnderAssets | vite.config.js:32-37 | all three asset templates start with "assets/" |
| AssetNames.TemplateForExtension | vite.config.js:31-37 | images iff image test; fonts iff not image and font test; catch-all iff neither |
| AssetNames.EmbeddedImageAlternative | vite.config.js:31-33 | an extension whose lower-cased form contains an image alternative anywhere is an image, even if it also matches a font |
| AssetNames.EmbeddedFontAlternative | vite.config.js:34-36 | an extension that contains a font alternative and fails the image test is a font |
| AssetNames.Woff2MatchesThroughWoff | vite.config.js:34 | every text containing "woff2" contains "woff" |
| AssetNames.ScriptTemplatesApart | vite.config.js:39-40 | chunks and entries share one template under "assets/js/", distinct from the asset templates |
| AssetNames.UpperCaseImage | vite.config.js:31-33 | "logo.PNG" is an image (case-insensitive) |
| AssetNames.UnanchoredImage | vite.config.js:31-33 | "sprite.xpngx" is an image (unanchored) |
| AssetNames.ExampleExtensions | vite.config.js:29-30 | the extensions of "inter.woff2", "index.css" and "photo.webp" |
| AssetNames.Woff2IsNotImage | vite.config.js:31 | "woff2" fails the image test |
| AssetNames.Woff2Font | vite.config.js:34-36 | "woff2" is a font |
| AssetNames.StylesheetFallsThrough | vite.config.js:37 | "css" gets the catch-all template |
| AssetNames.WebpIsNotImage | vite.config.js:31 | "webp" fails the image test |
| AssetNames.WebpIsNotFont | vite.config.js:34 | "webp" fails the font test |
| AssetNames.WebpFallsThrough | vite.config.js:37 | "webp" gets the catch-all template |
| Marks.OneHot | src/components/Hero.jsx:206-212 | the indicator row: one entry per position, the "on" value exactly at the current position (also the gallery side indicator, `src/components/PhotoGallery.jsx:360-365`) |
| Marks.ExactlyOneMark | src/components/Hero.jsx:206-212 | a row that reaches the current position carries exactly one "on" mark |

## Left out

- The contact form (`src/components/ContactUs.jsx`) has no submission logic, only an `alert`.
- Animations are not modelled: the GSAP timelines, SplitText line splitting, and the eases, durations, staggers and scale/opacity tweens. They are floating-point animation-library behaviour. Only the committed end state of a transition is modelled.
- The 6000 ms interval and its cleanup are not modelled. An advance is one call to `Tick`, not a point in time.
- Hero.HeroController.CommitTransition: the whole commit is modelled as one atomic step, so no click can interleave with it. In the code, the `tl.call` body runs only after the old heading has faded out, which takes at least 0.5 s (`src/components/Hero.jsx:51-57`). It then reads `activeBg` and its own `currentSlide` (lines 61-63). The completion callback of the fade-in reads `activeBg` again when it fires (lines 88-89). A click during either wait can make the commit paint or hide a different layer, and that interleaving is not captured.
- React rendering is reduced to what it does here. After mount, a state change reruns the `currentSlide` effects iff `currentSlide` changed. On mount React runs both effects once: `Hero.Mount` models that run, while `Hero.HeroController.constructor` is the first render alone. `prevSlide` is stored but nothing reads it. The closure's `currentSlide` is the current value, because the interval is re-created whenever the slide changes.
- The heading is set only by the commit. React also writes `slides[currentSlide].title` into the `h1` on every re-render (`src/components/Hero.jsx:180`), before the commit runs. That intermediate text is not modelled. The end state is the same, because both write the same title, and a re-render without a slide change writes the title already shown.
- Layer defaults from the stylesheet classes `bg-top md:bg-center bg-cover` are modelled as `None` in the inline position and size fields. Opacity and z-index are plain integers. Layer 2 starts at opacity 0, which its `opacity-0` class gives it, and at z-index 1. The `scale` and `transition` styles are not modelled.
- Hero.SiteSlides: only the count and order of the four slides matter. Their image URLs are shortened to labels, and their subtitles and descriptions, which are never rendered, are omitted.
- The viewport width is a parameter. Reading `window.innerWidth` is not modelled.
- Gallery.Switched: requires the photo index to be in range, which every caller guarantees. JavaScript would grow the array for an index out of range.
- `scrollToImage`, the gallery's scroll tweens, Embla carousels, StatsContainer, Header, Footer, AvailableSuites, `App.jsx` and `useScrollTrigger.jsx` are not modelled. They are DOM and scroll plumbing or library behaviour.
- AssetNames.AssetFileName: Rollup can call `assetFileNames` with no `name`, where the code would throw. Names are modelled as always present.
- AssetNames.Lower: the `i` flag is modelled as ASCII case folding. This is exact for these all-ASCII, lower-case patterns, which no non-ASCII character folds onto without the `u` flag.
- The rest of `vite.config.js` is not modelled. It holds declarative build settings.
