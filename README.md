# NextSure landing page scripts: a Dafny model of the widget logic

The site's `js/main.js` sets up several UI widgets when the page loads. This project models the
four that hold logic which can be stated precisely:

- **Hero carousel (`HeroSlider`)**: a fixed list of four slides, one slide element and one dot
  element per slide, each with an `active` class, a `currentIndex` cursor, and one recurring
  autoplay interval of 3000 ms. A dot click jumps to its slide. The next and previous buttons and
  the autoplay tick move the cursor with modular wrap-around. Each manual move then clears the
  stored interval and arms a new one. Module `Carousel` (`carousel.dfy`) models this as a class with two `array<bool>`
  flag arrays. The browser's interval table is a set of live handles.
- **Mobile navigation (`MobileNav`)**: the menu's open state and the toggle's `aria-expanded`
  attribute, plus an `active` flag on each `.has-submenu` item and on its `.submenu` panel. The
  handlers cover the toggle, the overlay, nav links, submenu main links, submenu links, clicks
  outside, Escape, and resizes past the 992 px breakpoint. Module `Navigation` (`navigation.dfy`).
- **Contact form validation (`FormHandler`)**: `trim`, the e-mail regular expression
  `/^[^\s@]+@[^\s@]+\.[^\s@]+$/`, `validateField` with its error class and error messages, the
  blur and input revalidation, and the submit decision in `handleSubmit`. Module `Forms`
  (`forms.dfy`).
- **Product links (`ProductLinksUpdater.updateLinks`)**: each of the first four product cards gets
  its page from a fixed table. Module `ProductLinks` (`product_links.dfy`).

Two small modules support these. `Wrappers` holds `Option`. `Flags` holds counting and
exactly-one / at-most-one facts about lists of `active` flags.

Main results:
- The carousel's object invariant `HeroSlider.Valid()` is established by the constructor and
  kept by `Init`, `NextSlide`, `PrevSlide`, `ResetAutoPlay`, `DotClick`, `NextButtonClick`,
  `PrevButtonClick` and `TimerFires`. Once mounted, exactly one slide and exactly one dot are
  active, both at `currentIndex`, and exactly one interval is live: the stored one. If
  `#heroSlider` or `#dots` is missing, nothing is created and nothing is armed. The helpers
  `CreateSlides`, `CreateDots`, `ShowSlide`, `StartAutoPlay` and `ClearInterval` run only inside
  those methods and do not keep the invariant on their own. For example, `StartAutoPlay` alone
  would leave two intervals live, which is why `resetAutoPlay` clears before it arms.
- `MobileNav.Valid()` keeps at most one submenu item active. It also keeps each panel's flag
  equal to its item's flag.
- The e-mail regular expression accepts a string exactly when the string has no white space,
  exactly one `@`, a non-empty part before it, and a `.` after it that is neither the first nor
  the last character of that part (`Forms.IsValidEmailIff`).
- `handleSubmit` validates every required input and textarea, with no short-circuit. It submits
  exactly when each of them is non-blank and, for an e-mail input, holds an address.

Environment inputs are method parameters:
- whether the containers exist;
- the window width;
- the key pressed;
- whether a click landed inside the nav list or on the toggle;
- which interval the browser runs.

## Model

| member | source | states |
|---|---|---|
| `Carousel.NextIndex` | js/main.js:216-219 | the next index is in range, wraps from the last slide to 0, and is otherwise the successor |
| `Carousel.PrevIndex` | js/main.js:221-224 | the previous index is in range, wraps from 0 to the last slide, and is otherwise the predecessor |
| `Carousel.PrevNextInverse` | js/main.js:216-224 | previous after next, and next after previous, return to the starting index |
| `Carousel.AdvanceIsModular` | js/main.js:216-217 | after k autoplay ticks from i, the cursor is at (i + k) mod n |
| `Carousel.FullRoundReturns` | js/main.js:216-217 | n ticks bring the carousel back to the slide it started from |
| `Carousel.HeroSlider.ValidCountsActive` | js/main.js:207-214 | under the invariant, exactly one slide and one dot are counted active once mounted, and none before |
| `Carousel.HeroSlider.constructor` | js/main.js:113-158 | with both containers present, slide 0 is active and one timer is live; otherwise nothing is armed; the invariant holds |
| `Carousel.HeroSlider.Init` | js/main.js:160-171 | a missing container leaves the object unchanged; otherwise slides and dots are fresh, index 0 is active, and exactly the new timer is live |
| `Carousel.HeroSlider.CreateSlides` | js/main.js:173-191 | one slide element per slide, only the first active |
| `Carousel.HeroSlider.CreateDots` | js/main.js:193-205 | one dot element per slide, only the first active |
| `Carousel.HeroSlider.ShowSlide` | js/main.js:207-214 | exactly one slide and one dot are active, both at the index, which becomes `currentIndex`; showing the already active index changes no flag |
| `Carousel.HeroSlider.NextSlide` | js/main.js:216-219 | the cursor moves to `NextIndex` and the invariant is kept |
| `Carousel.HeroSlider.PrevSlide` | js/main.js:221-224 | the cursor moves to `PrevIndex` and the invariant is kept |
| `Carousel.HeroSlider.StartAutoPlay` | js/main.js:226-228 | arms a timer under a handle that was not live and stores that handle |
| `Carousel.HeroSlider.ClearInterval` | js/main.js:230-231 | the given handle stops being live; a null handle changes nothing |
| `Carousel.HeroSlider.ResetAutoPlay` | js/main.js:230-233 | the old timer is no longer live and exactly one new timer is |
| `Carousel.HeroSlider.DotClick` | js/main.js:198-201 | shows slide i, leaves exactly one fresh timer live, and changes no flag when i is already shown |
| `Carousel.HeroSlider.NextButtonClick` | js/main.js:236-241 | moves to the next slide and leaves exactly one fresh timer live |
| `Carousel.HeroSlider.PrevButtonClick` | js/main.js:243-248 | moves to the previous slide and leaves exactly one fresh timer live |
| `Carousel.HeroSlider.TimerFires` | js/main.js:227 | a live interval advances one slide; a cleared one changes nothing |
| `Flags.ActiveExactlyAtCountsOne` | js/main.js:207-214 | flags active exactly at one index have exactly one active element |
| `Flags.CountOneActiveExactlyAt` | js/main.js:207-214 | conversely, flags with exactly one active element are active exactly at some index |
| `Flags.ActiveExactlyAtUnique` | js/main.js:207-214 | the flags after a show depend only on the index shown |
| `Flags.NoneActiveCountsZero` | js/main.js:389-393 | no flag active iff the count of active flags is zero |
| `Flags.AtMostOneActiveIffCount` | js/main.js:307-322 | "at most one submenu active" iff at most one flag is counted |
| `Navigation.BoolText` | js/main.js:378 | `setAttribute` writes "true" exactly for true and "false" exactly for false |
| `Navigation.MobileNav.ValidCountsActive` | js/main.js:307-322 | under the invariant, at most one submenu item and at most one panel are counted active |
| `Navigation.MobileNav.constructor` | js/main.js:256-265 | the menu is closed and nothing is active; handlers exist only when the toggle and the list are both present |
| `Navigation.MobileNav.ToggleMenu` | js/main.js:372-379 | the open state flips and `aria-expanded` holds the new state |
| `Navigation.MobileNav.CloseSubmenus` | js/main.js:388-393 | no submenu item and no panel is active |
| `Navigation.MobileNav.CloseMenu` | js/main.js:381-394 | the menu is closed, `aria-expanded` is "false", and no submenu is active |
| `Navigation.MobileNav.ToggleSubmenu` | js/main.js:298-323 | afterwards only item i can be active, and it is active exactly when it was inactive before |
| `Navigation.MobileNav.ToggleClick` | js/main.js:271-274 | a toggle click toggles the menu |
| `Navigation.MobileNav.LinkClick` | js/main.js:282-292 | a nav link closes the menu unless it sits in a submenu item on a narrow screen, in which case nothing changes |
| `Navigation.MobileNav.MainLinkClick` | js/main.js:282-324 | a narrow screen toggles item i and leaves the menu as it was; a wide screen closes everything |
| `Navigation.MobileNav.SubmenuLinkClick` | js/main.js:326-332 | a submenu link always leaves the menu and every submenu closed |
| `Navigation.MobileNav.OverlayClick` | js/main.js:277-279 | an overlay click closes the menu and every submenu |
| `Navigation.MobileNav.DocumentClick` | js/main.js:336-343 | a click outside the list and the toggle closes an open menu; any other click changes nothing |
| `Navigation.MobileNav.KeyDown` | js/main.js:346-350 | Escape closes an open menu; any other key changes nothing |
| `Navigation.MobileNav.Resize` | js/main.js:353-362 | a width above 992 closes the menu and every submenu; a narrow width changes nothing |
| `Forms.LeadingSpaces` | js/main.js:485 | counts the white space `trim` removes at the start: all of it is space, and the next character, if any, is not |
| `Forms.TrailingSpaces` | js/main.js:485 | counts the white space `trim` removes at the end: all of it is space, and the character before it, if any, is not |
| `Forms.Trim` | js/main.js:485 | the trimmed value is the slice of the value after its leading white space, with only white space after the slice; it is empty iff the value is blank, and otherwise both its ends are non-space |
| `Forms.IsValidEmailIff` | js/main.js:583-585 | the regular expression matches iff: no white space, exactly one `@`, non-empty local part, an inner `.` after the `@` |
| `Forms.MatchIsWellFormed` | js/main.js:584 | every match of the pattern is a well-formed address |
| `Forms.WellFormedMatches` | js/main.js:584 | every well-formed address matches the pattern |
| `Forms.ValidateField` | js/main.js:484-508 | a required blank field is invalid with a "required" message; a non-blank e-mail input failing the pattern `IsValidEmail` (js/main.js:583-585) on the trimmed value is invalid with an e-mail message; any other field is valid with no new message; the old first message is removed (`WithoutFirst`, js/main.js:490-491); the error class is set iff invalid |
| `Forms.ShowFieldError` | js/main.js:510-523 | marks the control and appends one message to its parent |
| `Forms.AtMostOneMessage` | js/main.js:488-505 | starting from at most one message, a field keeps at most one, and has none iff it is valid |
| `Forms.RequiredFieldValid` | js/main.js:493-505 | a required field is valid iff it is not blank and, for an e-mail input, its trimmed value is a well-formed address |
| `Forms.FormHandler.constructor` | js/main.js:455-462 | the handler holds the form's controls as loaded, and is mounted iff `#contactForm` and `#formMsg` both exist; the blur, input and submit handlers require a mounted form, since `init` attaches none otherwise |
| `Forms.FormHandler.Blur` | js/main.js:472-474 | losing focus revalidates that control and changes no other control |
| `Forms.FormHandler.InputEvent` | js/main.js:476-480 | an edit updates the value and revalidates only a control that already shows an error |
| `Forms.FormHandler.CompleteSubmit` | js/main.js:552-561 | after an accepted submit, every control holds its default value and has no error class and no error message; the number of controls is unchanged |
| `Forms.FormHandler.HandleSubmit` | js/main.js:525-541 | every required input and textarea (`CheckedOnSubmit`, js/main.js:526) is validated, with no short-circuit, and no other control changes; the form submits iff each of them is non-blank and, if it is an e-mail input, holds an address |
| `ProductLinks.PageFor` | js/main.js:694-698 | the first four cards have a non-empty page from the table; later cards have none |
| `ProductLinks.UpdatedLink` | js/main.js:696-700 | a card with a link among the first four gets its page; a card without a link stays without one; later cards keep their link |
| `ProductLinks.PagesDistinct` | js/main.js:694 | different cards among the first four get different pages |
| `ProductLinks.UpdateLinks` | js/main.js:692-702 | every card's link becomes `UpdatedLink` of its old link and its position |
| `ProductLinks.UpdateIdempotent` | js/main.js:692-702 | running the update twice gives the same links as running it once |

## Left out

- Utility `debounce` and `throttle`: they depend on real timer scheduling. `Resize` models the
  debounced callback when it finally runs.
- Wall-clock time: intervals fire only when the environment calls `HeroSlider.TimerFires`. The
  3000 ms delay is kept as `AutoPlayDelay`; that the next tick comes a full interval after a
  manual move is not modelled. What is proved instead: after a reset, the old handle never fires
  again and exactly one fresh handle is live.
- The slide markup written with `innerHTML` (image, caption, button): only the slide count and
  the `active` flags are modelled. The slide descriptors are kept as data.
- The next and previous buttons may be absent. Then their click handlers never run, and the
  click methods model only clicks on buttons that exist.
- The nav overlay is an existing `.menu-overlay` or a newly created one. Its `active` class
  moves with the menu's open state. The four classes that `toggleMenu` and `closeMenu` flip
  together are one flag, `menuOpen`. This assumes the page loads with none of them and with no
  submenu active.
- `MobileNav.ToggleMenu` does not touch submenus, as `main.js` does not. Closing the menu with the
  toggle can therefore leave a submenu item active. Only `closeMenu` clears them.
- Each control's `.error-msg` elements are modelled as the control's own list. Controls that
  share a parent element would share one list in the page.
- `FormHandler.showMessage`, the submit button's text and disabled state during `submitForm`, the
  1500 ms simulated network delay, and inline style writes (border colours, message styling).
  `HandleSubmit` returns whether it would submit. What `submitForm` does to the controls after the
  delay is `FormHandler.CompleteSubmit`; the environment calls it after an accepted submit.
- `Navigation.MobileNav.constructor`: assumes every `.has-submenu` item has a main link
  (`a:first-child`). When one does not, `init` throws at the `addEventListener` call at line 298
  of `main.js`. The toggle, overlay and nav-link handlers are attached by then. That item's
  handler, the handlers of the items after it, and the document-click, Escape and resize handlers
  are not. The exception also ends widget setup in `App`, so the later widgets, `FormHandler`
  among them, never start. The model has no such partly mounted state.
- `Preloader`, `HeaderScroll`, `BackToTop`, `ScrollAnimations`, `SmoothScroll`, `FooterYear`,
  `ScrollProgressBar`, `LazyImageLoader`, `PerformanceMonitor`, `App`: browser layout geometry,
  observers, the clock, floating point, console output and bootstrapping. Nothing in them is a
  stated contract.
- Keyboard arrows, swipe gestures, hover or visibility pause and a transition lock: `main.js` has
  none of them for the carousel, so none is modelled.
