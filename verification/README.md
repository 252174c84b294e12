# Semla Consultancy site — a Dafny model of its interactive state

This project models the client-side state machines and pure rules of the
Semla Educational Consultancy marketing site, a React single-page
application. Rendering, styling and animation are left aside. What remains
is the logic a visitor drives:

- the **gallery** (`FullGallery`):
  - the shortest-column masonry distributor;
  - the narrow-viewport rule and the loading skeleton;
  - the lightbox with wrap-around stepping.
- the **team carousel** (`AboutTeam`): a four-card window over the team list, the previous/next buttons, and promotion of a clicked card.
- the **testimonial stack** (`HomeTestimonials`): the up/down buttons, arrow keys, a two-entry window, and a one-shot reveal.
- the **FAQ accordion** (`Question`): at most one answer open.
- the **language switcher** (`LanguageSwitcher`) and the start-up repair of the stored language (`i18n.js`).
- the **university strip** (`HomeUni`): a clamped index.
- the **contact form** (`ContactForm`):
  - field edits and validation;
  - the WhatsApp message template and link;
  - the submit → processing → submitted → reset lifecycle driven by two timers;
  - the click behaviour of the contact cards and their icon tile colours.
- the **work-process scroller** (`WorkProcess`): the observer callback that picks the active step.
- the **video section** (`HomeVideo`): the load flag, the modal, the body-scroll lock and the Escape key.
- the **reveal sections** (`AboutIntro`, `HomeSocial`): a one-shot visibility latch and the staggered delay classes it drives.

Shared modules:

- `Ring`: circular index arithmetic;
- `Reveal`: the latch, the transition classes and the `delay-N` class names;
- `Text`: JavaScript's `indexOf` and first-match `replace`, and decimal numerals;
- `Arith`: division facts;
- `Wrappers`: `Option`.

Each interactive component is a pure `Step` over an immutable state
datatype. Browser side effects appear as effect tags in the step's result.
Timers and observer firings are events.

## Model

| member | source | states |
|---|---|---|
| Gallery.ShortestColumn | src/Components/GalleryComponents/FullGallery.jsx:179-183 | the reduce picks a shortest column, and the leftmost one among ties |
| Gallery.DistributeIsRoundRobin | src/Components/GalleryComponents/FullGallery.jsx:176-185 | after n items, column c holds exactly the items whose index is ≡ c mod the column count, so the shortest-column rule deals round-robin |
| Gallery.DistributeCovers | src/Components/GalleryComponents/FullGallery.jsx:176-185 | every catalog item lands in column i mod C at row i div C |
| Gallery.DistributeSound | src/Components/GalleryComponents/FullGallery.jsx:176-185 | every placed entry carries its true catalog index and file, and sits in the column its index selects |
| Gallery.DistributeNoDuplicates | src/Components/GalleryComponents/FullGallery.jsx:176-185 | no catalog index appears twice anywhere in the masonry |
| Gallery.DistributeBalanced | src/Components/GalleryComponents/FullGallery.jsx:176-185 | any two column lengths differ by at most one |
| Gallery.DistributeOrdered | src/Components/GalleryComponents/FullGallery.jsx:176-185 | within each column, items keep catalog order |
| Gallery.SingleColumnIsCatalogOrder | src/Components/GalleryComponents/FullGallery.jsx:154-185 | with one column, the distributor gives exactly the flat grid's order |
| Gallery.ImprovedMasonry | src/Components/GalleryComponents/FullGallery.jsx:176-185 | four columns; catalog item i sits in column i mod 4 at row i div 4, and every placed entry is a catalog item in the column its index selects |
| Gallery.ResponsiveGrid | src/Components/GalleryComponents/FullGallery.jsx:154-174 | the flat layout is chosen exactly on a mobile viewport; it lists item i at position i, and the masonry puts item i in column i mod 4 at row i div 4 |
| Gallery.EightItemMasonry | src/Components/GalleryComponents/FullGallery.jsx:88-137 | the eight shipped photos give columns {0,4}, {1,5}, {2,6}, {3,7} |
| Gallery.ResizeChoosesLayout | src/Components/GalleryComponents/FullGallery.jsx:69-71 | after a resize to width w the loaded gallery shows the flat grid when w < 768 and the four-column masonry otherwise, and the lightbox invariant still holds |
| Gallery.FlatGrid | src/Components/GalleryComponents/FullGallery.jsx:156-169 | the mobile grid shows every file once, in catalog order, each tagged with its index |
| Gallery.LayoutsAgree | src/Components/GalleryComponents/FullGallery.jsx:154-185 | an entry is in the flat grid if and only if it is in some masonry column: both layouts show the same items |
| Gallery.SkeletonGrid | src/Components/GalleryComponents/FullGallery.jsx:45-58 | one cell per requested index; a cell has a second shimmer exactly when its index is a multiple of 3 |
| Gallery.SkeletonShimmers | src/Components/GalleryComponents/FullGallery.jsx:45-58 | a skeleton of n cells has n + ⌈n/3⌉ shimmer bars, one per cell plus one for every cell whose index is a multiple of 3 |
| Gallery.PageSkeletonShimmers | src/Components/GalleryComponents/FullGallery.jsx:232-233 | the page's twelve-cell skeleton shows 16 shimmer bars |
| Gallery.OpenModal | src/Components/GalleryComponents/FullGallery.jsx:139-142 | the lightbox becomes shown on the clicked index; loading and viewport flags are untouched |
| Gallery.CloseModal | src/Components/GalleryComponents/FullGallery.jsx:144-147 | the lightbox is hidden and the selection cleared; nothing else changes |
| Gallery.NextMedia | src/Components/GalleryComponents/FullGallery.jsx:149-150 | the selection advances one slot around the catalog ring; openness is unchanged |
| Gallery.PrevMedia | src/Components/GalleryComponents/FullGallery.jsx:151-152 | the selection steps back one slot, with the first wrapping to the last; openness is unchanged |
| Gallery.Step | src/Components/GalleryComponents/FullGallery.jsx:139-152 | a click opens the lightbox on the clicked index; close hides it; with the lightbox hidden, close, next and previous change nothing; only the timer ends loading, and only a resize sets the viewport flag, to width < 768 |
| Gallery.StepValid | src/Components/GalleryComponents/FullGallery.jsx:139-152 | every event keeps the invariant: the lightbox is open exactly when an index is selected, and that index is in the catalog |
| Gallery.RunValid | src/Components/GalleryComponents/FullGallery.jsx:139-152 | the invariant holds after any sequence of in-range events |
| Gallery.LoadingNeverReturns | src/Components/GalleryComponents/FullGallery.jsx:78-85 | once loading has finished, no event sequence brings the skeleton back |
| Gallery.LoadingClearedOnlyByTimer | src/Components/GalleryComponents/FullGallery.jsx:78-85 | while loading, an event ends loading if and only if it is the 1.5 s timer |
| Gallery.LightboxRoundTrip | src/Components/GalleryComponents/FullGallery.jsx:149-152 | next then previous, and previous then next, return to the same state |
| Gallery.NextFullCycle | src/Components/GalleryComponents/FullGallery.jsx:149-150 | pressing next as many times as there are items returns to the starting item |
| Gallery.Render | src/Components/GalleryComponents/FullGallery.jsx:232-252 | the skeleton is shown exactly while loading, content exactly when loaded and non-empty; the lightbox shows exactly the selected file when open |
| Gallery.MasonryClickOpensItem | src/Components/GalleryComponents/FullGallery.jsx:195 | clicking a masonry tile opens the lightbox on that tile's own catalog file |
| Ring.PrevNext | src/Components/AboutComponents/AboutTeam.jsx:88-94 | the wrap-around step back undoes the step forward, and vice versa |
| Ring.AdvanceIsOffset | src/Components/AboutComponents/AboutTeam.jsx:78 | k forward steps from a land on (a + k) mod n |
| Ring.FullCycle | src/Components/HomeComponents/HomeTestimonials.jsx:82-90 | n steps around a ring of n slots, either way, return to the start |
| Team.VisibleCards | src/Components/AboutComponents/AboutTeam.jsx:75-86 | four cards; card i shows the member at (active + i) mod the team size, with that index and position i |
| Team.MainCard | src/Components/AboutComponents/AboutTeam.jsx:104-105 | the main card is the active member at position 0 |
| Team.SmallCards | src/Components/AboutComponents/AboutTeam.jsx:106 | the three small cards occupy positions 1, 2 and 3; the card at position k shows the team member (active + k) mod n |
| Team.NextSlide | src/Components/AboutComponents/AboutTeam.jsx:88-90 | next advances one slot around the team ring |
| Team.PrevSlide | src/Components/AboutComponents/AboutTeam.jsx:92-94 | previous stays in range, and next after previous is the identity |
| Team.HandleCardClick | src/Components/AboutComponents/AboutTeam.jsx:96-102 | clicking position p makes the member p slots ahead the active one |
| Team.SlideRoundTrip | src/Components/AboutComponents/AboutTeam.jsx:88-94 | next and previous are mutual inverses |
| Team.RepeatedNext | src/Components/AboutComponents/AboutTeam.jsx:88-90 | k presses of the next button advance k slots around the team ring |
| Team.RepeatedPrev | src/Components/AboutComponents/AboutTeam.jsx:92-94 | k presses of the previous button retreat k slots around the team ring |
| Team.SlideFullCycle | src/Components/AboutComponents/AboutTeam.jsx:88-94 | seven presses of the next button, or of the previous button, return to the starting member |
| Team.CardsDistinct | src/Components/AboutComponents/AboutTeam.jsx:75-86 | the four visible cards show four different members |
| Team.MainCardClickIsNoop | src/Components/AboutComponents/AboutTeam.jsx:97 | clicking the main card leaves the carousel where it is |
| Team.ClickPromotesCard | src/Components/AboutComponents/AboutTeam.jsx:96-102 | after clicking a small card, that same member is the main card |
| Team.ClickIsRepeatedNext | src/Components/AboutComponents/AboutTeam.jsx:96-102 | clicking position p equals p presses of next; position 1 equals one press |
| Testimonials.HandleUpArrow | src/Components/HomeComponents/HomeTestimonials.jsx:82-84 | up advances one slot around the testimonial ring |
| Testimonials.HandleDownArrow | src/Components/HomeComponents/HomeTestimonials.jsx:86-90 | down stays in range and is undone by up |
| Testimonials.HandleKeyDown | src/Components/HomeComponents/HomeTestimonials.jsx:67-76 | ArrowUp acts as up, ArrowDown as down, and every other key is ignored |
| Testimonials.Step | src/Components/HomeComponents/HomeTestimonials.jsx:49-90 | the up button and ArrowUp move the active index as up does, the down button and ArrowDown as down does, other keys change nothing, and a firing keeps the index and leaves the section visible exactly when it was or the firing intersected |
| Testimonials.VisibleTestimonials | src/Components/HomeComponents/HomeTestimonials.jsx:103-115 | two entries, (active + i) mod n at position i, and only position 0 is active |
| Testimonials.ExactlyOneActive | src/Components/HomeComponents/HomeTestimonials.jsx:110 | exactly one shown entry is marked active, and it is the current testimonial |
| Testimonials.StackDistinct | src/Components/HomeComponents/HomeTestimonials.jsx:103-115 | the two shown testimonials differ |
| Testimonials.ArrowRoundTrip | src/Components/HomeComponents/HomeTestimonials.jsx:82-90 | up and down are mutual inverses |
| Testimonials.RunInRange | src/Components/HomeComponents/HomeTestimonials.jsx:67-90 | the active index stays a valid testimonial under any events |
| Testimonials.VisibleStaysVisible | src/Components/HomeComponents/HomeTestimonials.jsx:49-57 | once revealed, the section stays revealed |
| Testimonials.EventsAreIndependent | src/Components/HomeComponents/HomeTestimonials.jsx:6-7 | navigation never changes visibility, and observer firings never change the active index |
| Reveal.Observe | src/Components/HomeComponents/HomeTestimonials.jsx:51-54 | an intersecting firing sets the flag, a set flag stays set, and a non-intersecting firing changes nothing |
| Reveal.ObserveAllCharacterised | src/Components/AboutComponents/AboutIntro.jsx:9-18 | after a series of firings the section is visible if and only if it was, or some firing intersected |
| Reveal.NeverResets | src/Components/HomeComponents/HomeSocial.jsx:9-18 | a visible section stays visible whatever fires next |
| Reveal.TextReveal | src/Components/AboutComponents/AboutIntro.jsx:101-106 | text uses the slid-in classes exactly when visible |
| Reveal.ImageReveal | src/Components/AboutComponents/AboutIntro.jsx:181-183 | images use the zoomed-in classes exactly when visible |
| Reveal.DelayClass | src/Components/AboutComponents/AboutIntro.jsx:144-146 | the class is "delay-" followed by decimal digits that read back as the given milliseconds |
| Reveal.DelayClassInjective | src/Components/HomeComponents/HomeSocial.jsx:127-129 | different delays give different class names |
| Text.ParseNatToString | src/Components/AboutComponents/AboutIntro.jsx:144-146 | the decimal rendering of a number reads back as that number |
| AboutIntro.TextBlocks | src/Components/AboutComponents/AboutIntro.jsx:101-170 | four blocks share the reveal state; the last three are delayed by 300, 500 and 700 ms |
| AboutIntro.BlockDelaysAsWritten | src/Components/AboutComponents/AboutIntro.jsx:117-162 | those delays render as "delay-300", "delay-500" and "delay-700" |
| AboutIntro.FeatureDelayClass | src/Components/AboutComponents/AboutIntro.jsx:144-146 | feature i's class is "delay-" followed by decimal digits that read back as i × 100 |
| AboutIntro.FeatureDelaysAsWritten | src/Components/AboutComponents/AboutIntro.jsx:26-50 | the four features render as delay-0, delay-100, delay-200 and delay-300 |
| AboutIntro.ImageTiles | src/Components/AboutComponents/AboutIntro.jsx:180-244 | the five tiles show images 0, 2, 4, 1, 3 with the zoom state; each image i is delayed by 200 × (i + 1) ms |
| AboutIntro.EachImageOnce | src/Components/AboutComponents/AboutIntro.jsx:53-79 | the masonry tiles show every image exactly once |
| AboutIntro.ImageDelay | src/Components/AboutComponents/AboutIntro.jsx:184-237 | image i's transition delay is 200 × (i + 1) ms |
| AboutIntro.DelaysFollowCatalogue | src/Components/AboutComponents/AboutIntro.jsx:184-237 | images appear in catalog order even though the columns interleave them |
| AboutIntro.Render | src/Components/AboutComponents/AboutIntro.jsx:101-244 | four blocks and five tiles; each block is slid in and each tile zoomed in exactly when the section is visible; the blocks are delayed by nothing, 300, 500 and 700 ms, and tile j shows its slot's image delayed by 200 × (image + 1) ms |
| AboutIntro.VisibilityOnlyMovesClasses | src/Components/AboutComponents/AboutIntro.jsx:101-244 | hidden and visible renders differ only in the transition classes: delays and images are the same |
| AboutIntro.RevealedStays | src/Components/AboutComponents/AboutIntro.jsx:9-18 | after any intersecting firing, the section renders revealed for good |
| AboutIntro.HiddenUntilSeen | src/Components/AboutComponents/AboutIntro.jsx:6-18 | without an intersecting firing, the section renders hidden |
| HomeSocial.TextBlocks | src/Components/HomeComponents/HomeSocial.jsx:87-130 | three blocks share the reveal state, delayed by nothing, delay-300 and delay-500 |
| HomeSocial.Icons | src/Components/HomeComponents/HomeSocial.jsx:122-129 | each social icon appears in order, with icon k delayed by k × 100 ms |
| HomeSocial.IconDelaysAsWritten | src/Components/HomeComponents/HomeSocial.jsx:26-31 | the four icons render as delay-0 through delay-300 |
| HomeSocial.ImageTiles | src/Components/HomeComponents/HomeSocial.jsx:143-224 | six tiles show the images in order with the zoom state, delayed by 200 to 1200 ms |
| HomeSocial.TilesInOrder | src/Components/HomeComponents/HomeSocial.jsx:143-224 | later tiles are delayed strictly longer and show different images |
| HomeSocial.Render | src/Components/HomeComponents/HomeSocial.jsx:87-224 | three blocks, six tiles and four icons; blocks are slid in and tiles zoomed in exactly when visible; block delays are none, delay-300 and delay-500; tile j shows image j delayed by 200 × (j + 1) ms; icon k is the k-th icon with class delay-(k × 100) |
| HomeSocial.VisibilityOnlyMovesClasses | src/Components/HomeComponents/HomeSocial.jsx:87-224 | hidden and visible renders differ only in the transition classes: icons, delays and images are the same |
| HomeSocial.RevealedStays | src/Components/HomeComponents/HomeSocial.jsx:9-18 | after any intersecting firing, the section renders revealed for good |
| HomeSocial.HiddenUntilSeen | src/Components/HomeComponents/HomeSocial.jsx:6-18 | without an intersecting firing, the section renders hidden |
| Faq.ToggleFaq | src/Components/FAQComponents/Question.jsx:168-170 | after a click, answer j is open if and only if j is the clicked one and it was not already open |
| Faq.AtMostOneOpen | src/Components/FAQComponents/Question.jsx:206 | no two answers are open at once |
| Faq.ToggleOtherSwitches | src/Components/FAQComponents/Question.jsx:168-170 | clicking another question opens it and closes the one that was open |
| Faq.ToggleTwiceFromOpen | src/Components/FAQComponents/Question.jsx:168-170 | clicking the open question twice leaves it open again |
| Faq.ToggleTwiceFromOther | src/Components/FAQComponents/Question.jsx:168-170 | clicking a closed question twice leaves every answer closed |
| Faq.RunInRange | src/Components/FAQComponents/Question.jsx:166-170 | clicks on listed questions only ever open a listed question |
| Faq.RunOpensLastClicked | src/Components/FAQComponents/Question.jsx:168-170 | whatever is open after a series of clicks is the last question clicked |
| Language.FindIndex | src/Components/HelperComponents/LanguageSwitcher.jsx:18-20 | the first entry with the code, or -1 exactly when no entry has it |
| Language.InitialCode | src/Components/HelperComponents/LanguageSwitcher.jsx:6 | on its first render the switcher holds i18n's language when that is non-empty, and "en" when it is missing or empty |
| Language.ToggleLanguage | src/Components/HelperComponents/LanguageSwitcher.jsx:17-23 | English goes to Japanese, Japanese to English, and any unknown code to English; the result is always supported |
| Language.CurrentLanguage | src/Components/HelperComponents/LanguageSwitcher.jsx:25-26 | the badge shows the entry for a supported code, and the first entry otherwise |
| Language.ToggleTwice | src/Components/HelperComponents/LanguageSwitcher.jsx:17-23 | toggling twice returns to a supported language |
| Language.NormaliseStored | src/i18n.js:10-16 | a stored language is kept if supported and replaced by "en" otherwise, including when nothing is stored |
| Language.NormaliseIdempotent | src/i18n.js:10-16 | repairing an already repaired value changes nothing |
| Language.NormaliseKeepsIffSupported | src/i18n.js:14 | a stored value survives if and only if it is a supported code |
| Language.RegionCodesFallBack | src/i18n.js:13-16 | region codes such as en-US and ja-JP, and a missing value, become "en" |
| Language.SwitcherMatchesSupported | src/Components/HelperComponents/LanguageSwitcher.jsx:12-15 | the switcher lists exactly the supported codes, in the same order |
| Uni.Scroll | src/Components/HomeComponents/HomeUni.jsx:52-66 | without a container nothing happens; left decrements with a floor of 0 and scrolls by −320; any other direction increments with a cap at the last card and scrolls by +320 |
| Uni.ScrollInRange | src/Components/HomeComponents/HomeUni.jsx:59-65 | from a valid card, scrolling stays on a valid card |
| Uni.ScrollClamps | src/Components/HomeComponents/HomeUni.jsx:61-64 | left never goes below 0, and right never past the last card |
| Uni.RunInRange | src/Components/HomeComponents/HomeUni.jsx:52-66 | any series of presses keeps the index on a card |
| Uni.ScrollSaturates | src/Components/HomeComponents/HomeUni.jsx:61-64 | left at the first card and right at the last card stay put |
| Uni.LeftThenRight | src/Components/HomeComponents/HomeUni.jsx:59-65 | away from the first card, right undoes left |
| Uni.RightThenLeft | src/Components/HomeComponents/HomeUni.jsx:59-65 | away from the last card, left undoes right |
| Uni.RepeatedRight | src/Components/HomeComponents/HomeUni.jsx:64 | k right presses reach min(last, current + k) |
| Contact.HandleInputChange | src/Components/ContactComponents/ContactForm.jsx:38-44 | the named field takes the new value and every other field is unchanged |
| Contact.IsCompleteMeansEveryField | src/Components/ContactComponents/ContactForm.jsx:48-55 | the form passes validation if and only if no field is empty |
| Contact.ChoiceText | src/Components/ContactComponents/ContactForm.jsx:67-74 | the label of the first option with the value, or the raw value when none matches or its label is empty |
| Contact.ListedChoicesUseLabels | src/Components/ContactComponents/ContactForm.jsx:25-36 | every listed course and subject value is shown by its label |
| Contact.WhatsAppMessage | src/Components/ContactComponents/ContactForm.jsx:63-80 | the message opens with the bold header line and a blank line, then "*Name:* first last" on its own line, and ends with the user's text, a blank line, the rule and the signature |
| Contact.MessageNamesSender | src/Components/ContactComponents/ContactForm.jsx:63-66 | after the header and a blank line comes the sender's first and last name on its own line |
| Contact.MessageStartsWithHeader | src/Components/ContactComponents/ContactForm.jsx:63-64 | the message opens with the bold header line |
| Contact.MessageEndsWithText | src/Components/ContactComponents/ContactForm.jsx:76-80 | the message ends with the user's text, a blank line, the rule and the signature |
| Contact.WhatsAppUrl | src/Components/ContactComponents/ContactForm.jsx:83-88 | the link is https://wa.me/, then the chat number, then "?text=" and the encoded text, and nothing else |
| Contact.Step | src/Components/ContactComponents/ContactForm.jsx:46-111 | an idle submit alerts if and only if a field is missing, otherwise starts processing the same form; a submit while busy does nothing; the chat opens only when the processing timer fires, with the message captured at submit; an edit changes only the edited field and is ignored once submitted; the reset timer empties the form and hides the confirmation |
| Contact.StepValid | src/Components/ContactComponents/ContactForm.jsx:22-23 | each flag matches its timer, so the form is never both submitting and submitted |
| Contact.RunValid | src/Components/ContactComponents/ContactForm.jsx:91-110 | that agreement survives any series of events |
| Contact.SubmitLifecycle | src/Components/ContactComponents/ContactForm.jsx:60-110 | submit, then the 1 s timer, then the 3 s timer: processing, then the chat opens with the form's message and the confirmation shows, then back to the initial empty form |
| Contact.EditsDuringDelayNotSent | src/Components/ContactComponents/ContactForm.jsx:63-96 | edits made during the one-second delay do not alter the message that is sent |
| Contact.ClickAction | src/Components/ContactComponents/ContactForm.jsx:187-203 | Call Us and WhatsApp copy the content, Email navigates to mailto, Address opens a maps search, and nothing else acts |
| Contact.EveryCardActs | src/Components/ContactComponents/ContactForm.jsx:113-138 | each of the four shipped cards has an action, and both phone cards copy the number |
| Contact.IconBackground | src/Components/ContactComponents/ContactForm.jsx:218-223 | a text-⟨hue⟩-600 colour with a lower-case hue becomes bg-⟨hue⟩-100, and a colour containing neither "text-" nor "-600" is returned unchanged |
| Contact.IconBackgroundOfHue | src/Components/ContactComponents/ContactForm.jsx:218-223 | for text-⟨hue⟩-600 with a lower-case hue, the two replaces give bg-⟨hue⟩-100 |
| Contact.CardTile | src/Components/ContactComponents/ContactForm.jsx:113-138 | the four cards get blue, green, purple and red tiles |
| Text.ReplaceAtFirst | src/Components/ContactComponents/ContactForm.jsx:218-223 | a string-pattern replace rewrites only the first occurrence |
| Text.ReplaceAbsent | src/Components/ContactComponents/ContactForm.jsx:218-223 | a replace with no occurrence returns the input unchanged |
| WorkProcess.IndexOf | src/Components/ServicesComponents/WorkProcess.jsx:109 | the first registered slot holding the element, or -1 exactly when none does |
| WorkProcess.ObserveEntry | src/Components/ServicesComponents/WorkProcess.jsx:107-111 | an intersecting, registered target makes its own step active; anything else leaves the step unchanged |
| WorkProcess.ObserverCallback | src/Components/ServicesComponents/WorkProcess.jsx:105-113 | a batch keeps an in-range active step in range |
| WorkProcess.LastQualifying | src/Components/ServicesComponents/WorkProcess.jsx:106-112 | no result exactly when no entry in the batch intersects on a registered panel |
| WorkProcess.CallbackIsLastQualifying | src/Components/ServicesComponents/WorkProcess.jsx:105-113 | a batch leaves active the last intersecting registered entry, or the previous step when there is none |
| WorkProcess.PanelActivatesItsStep | src/Components/ServicesComponents/WorkProcess.jsx:154 | with one element per panel, a panel scrolling into view activates its own step |
| WorkProcess.ActiveStepInRange | src/Components/ServicesComponents/WorkProcess.jsx:101-113 | starting from step 0, the active step always indexes the step list, so the lookups never go out of bounds |
| WorkProcess.ActiveDetails | src/Components/ServicesComponents/WorkProcess.jsx:254-310 | the details panel shows the step whose id is the active index plus one |
| HomeVideo.OpenModal | src/Components/HomeComponents/HomeVideo.jsx:30-33 | the modal opens and body scrolling is locked |
| HomeVideo.CloseModal | src/Components/HomeComponents/HomeVideo.jsx:35-43 | the modal closes and scrolling is restored; the video is paused and rewound if and only if the modal was open |
| HomeVideo.Step | src/Components/HomeComponents/HomeVideo.jsx:12-55 | Escape closes only an open modal, and other keys do nothing; a click inside the content does nothing; only the load timer sets the load flag |
| HomeVideo.RunConsistent | src/Components/HomeComponents/HomeVideo.jsx:30-43 | any events keep the body locked whenever the modal is open |
| HomeVideo.LoadedNeverResets | src/Components/HomeComponents/HomeVideo.jsx:12-15 | once loaded, the section stays loaded |
| HomeVideo.CloseIdempotent | src/Components/HomeComponents/HomeVideo.jsx:35-43 | closing twice is closing once, and the second close does not touch the video |
| HomeVideo.OpenThenClose | src/Components/HomeComponents/HomeVideo.jsx:30-43 | open then close restores the state with scrolling unset, and rewinds the video |
| HomeVideo.ClosingRoutesAgree | src/Components/HomeComponents/HomeVideo.jsx:293-304 | the backdrop, the close button and Escape have the same effect on an open modal |

## Left out

- Rendering is left out: markup, styling, framer-motion animation and the icons.
  - The HomeVideo parallax offset (scroll position) is left out: it is floating-point and decorative.
  - The emoji flags are carried as data only.
- Browser effects are kept only as tags, with their arguments:
  - `alert`;
  - `window.open` of the chat;
  - clipboard writes with their toast;
  - `mailto` navigation;
  - the Google Maps search;
  - pausing and rewinding the video.
- `encodeURIComponent` is not modelled. `Contact.WhatsAppUrl` takes the already encoded text as a parameter.
- Timers, `addEventListener` and the observers are left out as mechanisms. Their firings are events.
  - The reveal sections' callbacks destructure only the first entry of a batch, so a firing is one boolean.
  - The sections disconnect their observers on unmount, which is not modelled. The latch is idempotent, so firings after the reveal change nothing.
- The i18next initialisation, the language detector and the translation resources are left out.
  - `Language.InitialCode` and `Language.ToggleLanguage` model the switcher's own rules. `Language.NormaliseStored` models the local-storage repair.
  - The effect that copies `i18n.language` into the switcher is not modelled as a step. `Language.InitialCode` describes the first render only; after the effect a missing or empty language is copied as it is, with no fallback to "en". `Language.ToggleLanguage` and `Language.CurrentLanguage` accept any code.
- The gallery's fixed `layoutType` is left out. It is always "improved-masonry", so the one layout branch is the only one.
- `HomeUni.scroll` is modelled as written, although no element of the markup calls it.
- Gallery next, previous and close while the lightbox is hidden are modelled as no-ops. Their buttons are rendered only inside the open lightbox.
- The narrow-viewport gallery is the flat grid of the code, not a two-column distribution.
  - The lightbox does not lock body scrolling; only the video modal does.
  - No placeholder exists for media that fails to load.
- The testimonial key handler's `event.preventDefault()` on ArrowUp and ArrowDown is left out. It only stops the page from scrolling and does not touch the component's state.
- HomeTestimonials shows two entries, as the loop bound says, not the three its comment mentions.
- Contact.WhatsAppMessage: states the header, name and closing lines, not the whole template text. The message is defined line by line, and the address, course and subject lines are pinned by `Contact.ChoiceText` and the field values.
- WorkProcess.ObserverCallback: states only the range bound. Which step wins is stated separately by `WorkProcess.CallbackIsLastQualifying`.
- The remaining components of the site have no state or rules beyond markup and are not part of this model: the heroes, the calls to action, the footer, the navigation bar and the service lists.
