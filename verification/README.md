# Kabini Palace landing page — interaction state machines in Dafny

This project models the interaction logic in three sections of the resort's
landing page. Each section is a small state machine driven by discrete UI
events. Its handlers are pure step functions over an immutable state record.

- **Testimonials carousel** (`Carousel`, `testimonials.dfy`). It holds the
  fixed list of five guest reviews and the index of the review on display.
  Four things move the index. An auto-advance timer tick goes forward, the
  right arrow goes forward, and the left arrow goes back; all three wrap at
  the ends. A dot button jumps to its index. The render side is also
  modelled: which dot is highlighted, and how many stars the displayed
  review gets.
- **Cursor effects** (`CursorEffects`, `cursor_effects.dfy`). The state is
  the pointer position, a hovering flag and a visual variant (default,
  luxury, text, pointer). `mousemove` moves the cursor. `mouseenter`
  classifies the entered element by its class list and tag name, in a fixed
  priority order. `mouseleave` resets to idle. The model also gives the
  animation target of the cursor dot in each variant, and the target of the
  trail ring, which is mounted while hovering.
- **Navigation bar** (`Navigation`, `navigation.dfy`). It has two flags.
  The bar turns solid when the page is scrolled strictly past 50 pixels.
  The mobile menu is flipped by the menu button and closed by a mobile-menu
  link. The module also holds the static list of six section links.

`optional.dfy` defines `Option`, and `modular.dfy` holds the facts about
Euclidean `%` that the carousel proofs use.

Sequences of events are folded by a `Run` function per component. The
lemmas state what holds after any run:

- the carousel index stays in range;
- the cursor hovers exactly when it shows a non-default variant;
- the scroll flag and the menu flag are independent of each other.

## Model

| member | source | states |
|---|---|---|
| Carousel.TestimonialsWellFormed | src/components/TestimonialsSection.tsx:13-59 | the review list has exactly five records; their ids are 1..5 in order, so unique; every rating is between 1 and 5 |
| Carousel.Mount | src/components/TestimonialsSection.tsx:11-13 | on mount the carousel holds exactly the shipped list and shows its index 0; that list is well formed with five records, so the index bound holds from the start |
| Carousel.Next | src/components/TestimonialsSection.tsx:71-73 | the right arrow keeps the records; from a valid index it yields the valid index `(i + 1) mod N`, so it wraps from the last record to the first |
| Carousel.Prev | src/components/TestimonialsSection.tsx:75-77 | the left arrow keeps the records; from a valid index it yields the valid index `(i + N - 1) mod N`, so it wraps from the first record to the last |
| Carousel.AutoAdvance | src/components/TestimonialsSection.tsx:61-66 | the timer's state update computes exactly the same successor as the right-arrow button |
| Carousel.GoTo | src/components/TestimonialsSection.tsx:79-81 | a dot click sets the index to exactly the given value; the result is in range if and only if that value is a record index |
| Carousel.Run | src/components/TestimonialsSection.tsx:61-81 | no sequence of ticks, arrow clicks or dot clicks changes the record list; from a valid state, and with dots carrying only record indices, the index bound holds after every run |
| Carousel.PrevNextInverse | src/components/TestimonialsSection.tsx:71-77 | next then prev, and prev then next, each return to the starting state |
| Carousel.AdvanceModular | src/components/TestimonialsSection.tsx:71-73 | `k` forward steps from valid index `i` give the valid index `(i + k) mod N` |
| Carousel.RetreatModular | src/components/TestimonialsSection.tsx:75-77 | `k` backward steps from valid index `i` give the valid index `(i - k) mod N` |
| Carousel.FullCycle | src/components/TestimonialsSection.tsx:71-77 | `N` steps forward, or `N` steps back, return to the starting state |
| Carousel.RetreatFromFirst | src/components/TestimonialsSection.tsx:75-77 | from the first record, `k` backward steps land on `(N - k mod N) mod N` |
| Carousel.TicksAdvance | src/components/TestimonialsSection.tsx:61-69 | running `k` timer ticks is the same as pressing the right arrow `k` times |
| Carousel.TicksFromMount | src/components/TestimonialsSection.tsx:11-69 | with no user input, after `k` ticks from mount the index is `k mod 5` |
| Carousel.Dots | src/components/TestimonialsSection.tsx:237-245 | there is one dot per record, and dot `k` is highlighted exactly when `k` is the current index |
| Carousel.ExactlyOneDotActive | src/components/TestimonialsSection.tsx:237-245 | in a valid state the set of highlighted dots is exactly the current index, so exactly one dot is highlighted |
| Carousel.Current | src/components/TestimonialsSection.tsx:164-203 | the card shows a record of the list; in a well-formed list it is the one record whose id is the index plus one |
| Carousel.CurrentText | src/components/TestimonialsSection.tsx:177 | the quoted text on the card is, in a well-formed list, the review body of id index plus one |
| Carousel.CurrentAfterTicks | src/components/TestimonialsSection.tsx:61-69 | with no user input, after `k` ticks from mount the card shows shipped record `k mod 5`, whose id is `k mod 5 + 1` |
| Carousel.StarCount | src/components/TestimonialsSection.tsx:164 | the number of stars drawn equals the displayed record's rating, and for a well-formed list it is between 1 and 5 |
| CursorEffects.Init | src/components/CursorEffects.tsx:5-7 | the cursor starts at (0, 0), not hovering, with the default variant, which is a consistent state |
| CursorEffects.Classify | src/components/CursorEffects.tsx:17-26 | entering an element never selects the default variant; no variant is chosen if and only if the element has neither marker class and is neither an `A` nor a `BUTTON` |
| CursorEffects.ClassifyPriority | src/components/CursorEffects.tsx:17-26 | the luxury class wins over everything; the text class wins when the luxury class is absent; the link/button tag counts only when both classes are absent (each as an if-and-only-if) |
| CursorEffects.MoveTo | src/components/CursorEffects.tsx:10-12 | `mousemove` sets the position to exactly the client coordinates and leaves hovering and variant unchanged |
| CursorEffects.Enter | src/components/CursorEffects.tsx:14-27 | `mouseenter` never moves the cursor; on a classified element it sets hovering with that variant; on any other element the state is unchanged, because the handler has no else branch |
| CursorEffects.Leave | src/components/CursorEffects.tsx:29-32 | `mouseleave` yields not-hovering with the default variant from any state, keeping the position |
| CursorEffects.Step | src/components/CursorEffects.tsx:10-32 | every event preserves "hovering if and only if the variant is not default" |
| CursorEffects.Run | src/components/CursorEffects.tsx:5-32 | the hovering/variant invariant holds after any sequence of events from a consistent state |
| CursorEffects.RunPosition | src/components/CursorEffects.tsx:10-12 | after any events the position is the one reported by the last `mousemove`, or the starting position if there was none |
| CursorEffects.RunHover | src/components/CursorEffects.tsx:14-32 | after any events the variant is the one chosen by the last leave or classified enter; moves and unclassified enters do not matter |
| CursorEffects.EnterLeaveIdempotent | src/components/CursorEffects.tsx:14-32 | entering the same element twice equals entering once; leaving twice equals leaving once |
| CursorEffects.Offset | src/components/CursorEffects.tsx:47-76 | the dot's target is up and left of the pointer by (16,16) for default, (24,24) for luxury, (12,24) for text and (20,20) for pointer; only the default offset is half the 32-pixel dot |
| CursorEffects.CursorTopLeft | src/components/CursorEffects.tsx:47-83 | the dot's animation target is the pointer position minus the current variant's offset |
| CursorEffects.CursorFollowsPointer | src/components/CursorEffects.tsx:47-76 | in every variant, moving the pointer by (dx, dy) moves the dot's target by exactly (dx, dy) |
| CursorEffects.Trail | src/components/CursorEffects.tsx:94-103 | the trail ring is mounted if and only if the cursor is hovering, and then its target is the pointer minus (24, 24) |
| CursorEffects.TrailMatchesVariant | src/components/CursorEffects.tsx:94-103 | in a consistent state the trail is mounted exactly for a non-default variant, and it is unmounted after any `mouseleave` |
| CursorEffects.CentredOnPointer | src/components/CursorEffects.tsx:47-102 | the idle dot's target puts the centre of the 32-pixel dot on the pointer, and no other variant's does; while hovering, the trail's target puts the centre of the 48-pixel ring on the pointer |
| Navigation.NavItemsWellFormed | src/components/Navigation.tsx:19-26 | there are exactly six nav items with pairwise distinct names; each `href` is `#` followed by the lower-cased name |
| Navigation.AnchorIsLowerName | src/components/Navigation.tsx:19-26 | the character-by-character anchor rule holds if and only if `href` equals `#` followed by the lower-cased name |
| Navigation.Init | src/components/Navigation.tsx:7-8 | the bar starts transparent with the menu closed |
| Navigation.OnScroll | src/components/Navigation.tsx:11-13 | after a scroll the bar is solid if and only if `scrollY > 50`, strictly, so exactly 50 stays transparent; the menu flag is untouched |
| Navigation.ToggleMenu | src/components/Navigation.tsx:99 | the menu button flips the menu flag and leaves the scroll flag alone |
| Navigation.ToggleTwice | src/components/Navigation.tsx:99 | pressing the menu button twice restores the original state |
| Navigation.MobileLinkCloses | src/components/Navigation.tsx:118-123 | a mobile-menu link click leaves the menu closed whatever its prior state and does not touch the scroll flag |
| Navigation.DesktopLinkInert | src/components/Navigation.tsx:59-63 | a desktop link click changes nothing in the bar state |
| Navigation.ScrollAndMenuIndependent | src/components/Navigation.tsx:11-13 | after any events the menu flag is what the non-scroll events alone produce, and the scroll flag is what the scroll events alone produce |
| Navigation.ProjectionsSeparate | src/components/Navigation.tsx:11-13 | after any events each flag depends on the starting state only through that same flag |
| Navigation.NonScrollRunKeepsBar | src/components/Navigation.tsx:99 | a run with no scroll events leaves the scroll flag as it was |
| Navigation.ScrollRunKeepsMenu | src/components/Navigation.tsx:11-13 | a run of scroll events only leaves the menu flag as it was |
| Navigation.RunScrolled | src/components/Navigation.tsx:11-13 | after any events the bar is solid if and only if the last reported `scrollY` exceeded 50, or as it started if no scroll happened |
| Navigation.MenuParity | src/components/Navigation.tsx:99 | after `k` menu-button presses the menu flag is flipped exactly when `k` is odd, and the scroll flag is unchanged |

## Left out

- The component keeps no transition direction and has no drag gesture, so neither is modelled.
- The contact section is not part of this model. It holds static contact data and a simulated submission: a two-second wait, then a toast.
- Rendering is left out: markup, spring parameters, in-view triggers, icons and class strings. Of the cursor's `variants` only the x/y targets are modelled.
- CursorEffects.CursorTopLeft: positions are the targets the springs animate towards, not what is on screen at a given moment. The glide towards a target, the trail's fade-out after hovering ends, and the hiding of both elements below the md breakpoint are not modelled.
- The cursor's float `scale` factors and its rgba colours are styling only, so they are not modelled.
- Listener registration and removal, and the 5000 ms interval, are I/O and timer plumbing. The timer is a discrete `TimerTick` event. Mount and unmount cleanup is not modelled.
- Smooth scrolling to a section (`scrollIntoView`) is not modelled. A link click keeps only its effect on the menu flag.
- React state batching and stale closures are left out. The arrow buttons read the `currentIndex` captured at render time, while the timer uses a functional update. Events here are delivered strictly one after another, each seeing the previous state, so a click that interleaves with a tick in the same frame is not modelled.
- Carousel.Run: its index-bound guarantee assumes every dot event carries a record index. That is all the rendered dots can send. `GoTo` itself accepts any number, as the handler does.
- Navigation.MobileLinkCloses: the mobile links exist only while the menu is open. The step function still accepts the click in any state, as the handler would.
- CursorEffects.Classify: class lists and tag names are compared as exact strings. Browser tag names are upper-case for HTML elements, and no case folding is modelled.
- The carousel index is an unbounded integer. JavaScript numbers are doubles, but the index never leaves 0..4, so precision never matters.
- The review bodies are not fields of the record. `Carousel.ReviewText` looks them up by record id, verbatim, so proofs about the list never unfold the long strings. No property of the texts themselves is stated.
- Mouse coordinates and `scrollY` are exact reals. Browser doubles would round, but the handlers only compare or subtract small values, so rounding is not modelled.
