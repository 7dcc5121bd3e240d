# Mystical Island and portfolio page interactions — a Dafny model

This project models the sequential logic of a personal portfolio site: the
"Mystical Island" mini-game (`game.js`) and the page interactions
(`interact.js`).

- **Island walk.** A player walks on a circular island of radius 75. Each
  animation frame, the held arrow or WASD keys give a displacement of length
  0.28. The resolver `tryMove` then does one of three things:
  - if the step would cross the shore boundary (radius 74.8), it bounces the
    step off the shore, damped by 0.6;
  - if the step runs into a circular obstacle, it bounces off the first such
    obstacle in registration order, slides along the X axis, slides along the
    Z axis, or stays put;
  - otherwise, it takes the step whole.

  After the move, a shore warning is shown once the player is at least 69
  units from the centre.
- **Page.** The headline typewriter, the contact-form validation, the mobile
  navigation drawer, the scroll spy that highlights the current section's
  navigation link, and the image carousels with their dots.

Everything is modelled over exact `real` and `int` with immutable datatypes
and pure step functions. Each comparison of `Math.hypot(...)` against a
non-negative bound becomes a comparison of squares, which is exact over the
reals. Modules:

- `Vectors`: the x/z plane, `reflectVec`, and a square-root-free reflection
  about an unnormalised offset.
- `Movement`: colliders, the first-hit search and the resolver.
- `Controls`: keys, the per-frame step, the shore warning and one frame.
- `ContactForm`: JavaScript whitespace, `trim`, the e-mail pattern and the
  submit decision.
- `Typewriter`: the headline typewriter's chain of callbacks.
- `Carousel`: JavaScript `%`, next/prev/go-to and the dots.
- `MobileNav`: the drawer's attributes.
- `ScrollSpy`: the current section and the highlighted links.
- `Wrappers`: `Option`.

The Z-only slide test in `tryMove` (`game.js:887`) measures the distance
from `(col.x, 0)` instead of from the collider's centre. `Movement.TryMove`
models this as written. `Movement.TryMoveCorrected` uses the centred test.
Both are instances of `Movement.Resolve`, whose other lemmas hold for either
test (see "## Findings").

## Model

| member | source | states |
|---|---|---|
| Vectors.ReflectUnit | game.js:853-856 | with a unit normal `n`, `reflectVec(v, n)` negates the component along `n` (`r·n = −v·n`) and keeps the squared length |
| Vectors.ReflectAboutIsReflection | game.js:863-865 | reflecting about any non-zero offset `m` keeps the squared length and negates the component along `m`; a zero offset leaves the step unchanged |
| Vectors.ReflectAboutAgrees | game.js:864-865 | reflecting about `s·n` (with `s > 0` and `n` a unit vector) equals `reflectVec(v, n)`: this is how the resolver's `next / |next|` and `dC / d` normals are replaced by square-root-free offsets |
| Vectors.ReflectZeroNormal | game.js:878-879 | the zero normal from the `d \|\| 1` guard leaves the displacement unchanged, with no division by zero |
| Movement.AddCollider | game.js:440 | `addCollider` appends `{x, z, r}` at the end, keeps registration order, and does not validate `r` |
| Movement.FirstHit | game.js:872-876 | returns the index of the first collider, in registration order, that is not the island disc and whose open disc contains the tentative point; every earlier collider misses; `None` exactly when all colliders miss |
| Movement.EdgeResponse | game.js:862-869 | past the shore boundary, the damped bounce off the shore is taken whenever it lands within radius 74.8; otherwise the player does not move |
| Movement.SlideResponse | game.js:883-890 | the X-only slide is taken whenever it clears the obstacle and stays on the island; only if it does not, the Z-only slide is taken when it passes its test and stays on the island; otherwise no move. The result is on the island, and outside the obstacle unless the player stays or the as-written Z slide was taken |
| Movement.HitResponse | game.js:878-890 | the damped bounce off the obstacle is taken whenever it clears the obstacle and stays on the island, and the slide is used otherwise; the result stays on the island and never ends inside the obstacle except through the as-written Z slide |
| Movement.Resolve | game.js:857-896 | every written position lies within radius 75; past the boundary, the damped bounce is taken whenever it lands within 74.8, and otherwise the player stays (never the tentative point); a clear step goes exactly to `pos + d`; after a hit, only the as-written Z slide can end inside the obstacle |
| Movement.CollisionOrder | game.js:876-891 | after hitting obstacle `c`, the resolver tries, in this order, the damped bounce, the X-only slide and the Z-only slide, takes the first that clears `c` (by its test) and stays on the island, and otherwise does not move |
| Movement.TryMove | game.js:857-896 | `tryMove` as written: a player who starts on the island stays on it |
| Movement.TryMoveCorrected | game.js:887 | with the centred Z test, a move that hits an obstacle never ends inside that obstacle, unless the player stays where they were |
| Movement.ObstacleDropMiss | game.js:872-876 | removing a collider that the tentative point misses, from any position in the list, does not change which obstacle decides |
| Movement.ObstacleIgnoresLater | game.js:876-892 | colliders registered after the deciding obstacle are never consulted (the loop returns) |
| Movement.ObstacleDropMisses | game.js:872-876 | a prefix of missed colliders can be dropped |
| Movement.IslandDiscIgnored | game.js:873 | the island disc `(0, 0, 75)`, wherever it sits in the list, never changes the result |
| Movement.IslandRegisteredFirst | game.js:246 | registering the island disc first with `addCollider(0, 0, ISLAND_R)`, as set-up does, never changes a move |
| Movement.LaterColliderIgnored | game.js:440 | once some collider decides a move, a collider registered after it with `addCollider` does not change the move |
| Movement.DegenerateColliderIgnored | game.js:876 | a collider with `r ≤ 0` never changes the result, because no distance is below it |
| Movement.OnlyFirstHitMatters | game.js:872-893 | resolving against the whole list equals resolving against the first hit collider alone |
| Movement.SameObstacleSameMove | game.js:872-893 | two collider lists with the same deciding obstacle give the same move |
| Movement.ZeroStepStays | game.js:857-896 | a zero displacement leaves the player where they are, in every branch |
| Movement.BounceDampsLength | game.js:865-866 | a bounce moves the player by 0.6 of the step's length (0.36 in squares) |
| Movement.BounceMatchesReflectVec | game.js:864-866 | the model's bounce is `pos + 0.6·reflectVec(d, n)` with the source's unit normal, or `pos + 0.6·d` for the zero normal |
| Movement.ZSlideEntersObstacle | game.js:884-889 | from `(0, 75)` with step `(0.1, −0.26)` against collider `(0, 73.9, 1)`, the as-written resolver moves the player to `(0, 74.74)`, inside that collider |
| Movement.CorrectedZSlideStays | game.js:887 | with the same input, the centred Z test refuses the slide and the player stays at `(0, 75)` |
| Controls.LowerChar | game.js:282-283 | ASCII capitals map to lower case and every other character is kept; the result is never a capital |
| Controls.KeyDown | game.js:282 | `keydown` marks the lower-cased key as held, keeps every key already held, and holds nothing else new |
| Controls.KeyUp | game.js:283 | `keyup` marks the lower-cased key as released and leaves the other held keys alone |
| Controls.KeyUpUndoesKeyDown | game.js:282-283 | releasing a key that was not held before undoes pressing it |
| Controls.ShiftIgnored | game.js:282 | pressing `W` holds the same key as pressing `w` |
| Controls.Direction | game.js:915-919 | each axis is −1, 0 or 1; it is −1 exactly when only the negative key pair (`a`/`arrowleft`, `w`/`arrowup`) is held and 1 exactly when only the positive pair is held; opposite keys cancel |
| Controls.UnitQuotients | game.js:921-923 | dividing `(mx, mz)` by its length gives a unit vector |
| Controls.Step | game.js:914-924 | there is no step exactly when the keys cancel out; otherwise the step is `0.28·(mx, mz)/len` (stated as `step·len = 0.28·(mx, mz)`), of length 0.28 and with the sign of each axis of the intent |
| Controls.SetShoreWarning | game.js:899-908 | with the element present, the flag ends equal to `show` and a change of the flag writes the `hidden` class to match; repeating a call changes nothing; a class that agrees with the flag keeps agreeing; without the element nothing changes |
| Controls.SetShoreWarningIdempotent | game.js:899-908 | calling `setShoreWarning(show)` twice is the same as calling it once |
| Controls.Frame | game.js:911-985 | when the keys give a step, the player moves exactly as `tryMove` with that step moves them; when the keys cancel, the player does not move; a player on the island stays on it; the warning is then updated by `setShoreWarning` with "at least 69 from the centre": with the element present it is shown exactly when the new position is that far out, and without the element nothing changes |
| Controls.IdleFrameStable | game.js:983-985 | with no direction held and the warning already matching the position, a frame changes nothing |
| ContactForm.SkipSpace | interact.js:47-49 | finds the first non-whitespace index at or after `i`; everything skipped is whitespace |
| ContactForm.SkipSpaceBack | interact.js:47-49 | finds the end of the text before trailing whitespace; everything skipped is whitespace |
| ContactForm.Trim | interact.js:47-49 | a trimmed field neither starts nor ends with whitespace and is no longer than the input |
| ContactForm.TrimDropsOnlySpace | interact.js:47-49 | the input is leading whitespace, then the trimmed text, then trailing whitespace |
| ContactForm.TrimEmptyIffAllSpace | interact.js:51 | a field trims to the empty string exactly when it is all whitespace, so `!name` after `trim()` means blank |
| ContactForm.TrimIdempotent | interact.js:47-49 | trimming twice equals trimming once |
| ContactForm.EmailPatternIsWellFormed | interact.js:55 | `^[^\s@]+@[^\s@]+\.[^\s@]+$` accepts exactly the strings with no whitespace, exactly one `@` with something before it, and a `.` after the `@` with at least one character on each side |
| ContactForm.Submit | interact.js:44-58 | rejects with "Please fill in all fields." exactly when some field is missing or blank (checked before the e-mail); otherwise rejects with "Please enter a valid email." exactly when the trimmed e-mail is not well formed; otherwise accepts the three trimmed fields |
| ContactForm.AcceptedIsClean | interact.js:47-58 | an accepted submission has a well-formed address and non-empty name and message, all already trimmed |
| Typewriter.Prefix | interact.js:26 | `substring(0, e)` clamps `e` into the text and returns a prefix of that length |
| Typewriter.TypeEffect | interact.js:13-33 | without the span, a run changes nothing and schedules no further callback; with the span showing the first `charIndex` characters, it still does afterwards; below the end it types one character and schedules `typeEffect`; at the end it only schedules the switch to deleting; while deleting it removes one character, switching back to typing only at index 0, and schedules `typeEffect` |
| Typewriter.StartValid | interact.js:10-11 | the start state (index 0, typing, nothing shown, one callback scheduled at line 35) satisfies the invariant |
| Typewriter.FirePreservesValid | interact.js:13-33 | the invariant `0 ≤ charIndex ≤ text.length`, span text = `text[..charIndex]` is preserved; typing only adds one character, deleting only removes one; the phase flips to deleting only at `text.length` and to typing only at 0 |
| Typewriter.FireNPreservesValid | interact.js:13-33 | every state reached from a valid one satisfies the invariant |
| Typewriter.AbsentSpanInert | interact.js:14 | without the span, the chain stops at its first callback |
| Typewriter.TypingRun | interact.js:16-19 | `k` typing callbacks from `i` show `text[..i+k]` |
| Typewriter.DeletingRun | interact.js:25-28 | `k` deleting callbacks from `i` show `text[..i−k]` |
| Typewriter.CycleReturnsToStart | interact.js:13-33 | after `2·text.length + 2` callbacks, the typewriter is back in its start state |
| Typewriter.TurnAround | interact.js:20-31 | from the fully typed text, `text.length + 2` callbacks wait, delete every character and resume typing from the start state |
| Typewriter.HeadlineCycle | interact.js:7 | the page's 22-character headline returns to the start state every 46 callbacks |
| Carousel.JsRem | interact.js:201 | JavaScript `%` (Number::remainder, ECMA-262 section 6.1.6.1.6): NaN exactly for a zero divisor; otherwise the remainder is smaller than the divisor in magnitude, is zero or has the dividend's sign, and differs from the dividend by a multiple of the divisor |
| Carousel.JsRemUnique | interact.js:201 | those three facts determine the remainder: any value meeting them is the one `JsRem` returns |
| Carousel.Next | interact.js:200-203 | with at least one image, `nextSlide` keeps the index in `[0, totalImages)`; with none, it gives NaN |
| Carousel.Prev | interact.js:205-208 | with at least one image, `prevSlide` keeps the index in `[0, totalImages)`; with none, it gives NaN |
| Carousel.NextWraps | interact.js:200-203 | next goes to the following image, and from the last image to the first |
| Carousel.PrevWraps | interact.js:205-208 | prev goes to the preceding image, and from the first image to the last |
| Carousel.PrevNextInverse | interact.js:200-208 | `prevSlide` undoes `nextSlide` and the other way round |
| Carousel.NextNForward | interact.js:200-203 | `k` presses move `k` places forward, up to the wrap to the first image |
| Carousel.NextFullCircle | interact.js:200-203 | `totalImages` presses of next return to the starting image |
| Carousel.UpdateDots | interact.js:188-193 | `updateCarousel`'s toggle loop, run over the existing dot flags, leaves dot `k` active exactly when `k` equals the current index, whatever was active before; one dot is active when the index is in range and none otherwise |
| Carousel.ExactlyOneActive | interact.js:188-193 | exactly one dot is active when the index is in range, and none otherwise |
| Carousel.Init | interact.js:175-184 | set-up keeps the image count and gives index 0 with only the first dot active |
| Carousel.GoToSlide | interact.js:195-198 | clicking dot `k` makes `k` current with exactly that dot active |
| Carousel.NextSlide | interact.js:188-203 | from an in-range index, the next button moves one image forward (from the last image to the first) with only the new image's dot active; with no images the index becomes NaN |
| Carousel.PrevSlide | interact.js:188-208 | from an in-range index, the prev button moves one image back (from the first image to the last) with only the new image's dot active; with no images the index becomes NaN |
| Carousel.SlideButtonsInverse | interact.js:188-208 | on a consistent carousel, the prev button undoes the next button (index and dots), and the other way round |
| MobileNav.CloseNav | interact.js:81-86 | with both elements present, the drawer ends closed (`hidden`, `aria-hidden="true"`, `aria-expanded="false"`); closing a closed drawer changes nothing; otherwise nothing changes |
| MobileNav.OpenNav | interact.js:88-93 | with both elements present, the drawer ends open; opening an open drawer changes nothing; otherwise nothing changes |
| MobileNav.Toggle | interact.js:96-100 | a toggle click flips `aria-expanded` between "true" and not "true"; afterwards the drawer is hidden exactly when it is not expanded; without both elements nothing changes |
| MobileNav.Resize | interact.js:102-104 | a resize wider than 860 always ends closed; a narrower one, or one without both elements, changes nothing |
| MobileNav.AnchorClick | interact.js:107-124 | on a window at most 860 wide, a click on an in-page link whose target `document.querySelector(href)` finds closes the drawer; any other click, or any click without both elements, leaves it alone |
| MobileNav.CloseIdempotent | interact.js:81-86 | closing twice is closing once |
| MobileNav.ToggleTwice | interact.js:96-100 | two toggle clicks on a consistent drawer undo each other |
| MobileNav.OperationsKeepSynced | interact.js:81-124 | every operation keeps the three attributes in agreement |
| ScrollSpy.LastReached | interact.js:131-137 | finds the last section, in document order, with `pageYOffset ≥ offsetTop − 100`: that one is reached and every later one is not; `None` exactly when none is reached |
| ScrollSpy.CurrentSection | interact.js:129-137 | the scroll loop leaves `current` as the id of the last reached section (`null` when it has no id), or `''` when none is reached |
| ScrollSpy.HighlightLinks | interact.js:139-144 | the link loop, run over the links' current flags, leaves exactly the links whose `href` equals `'#' + current` active, whatever was active before |
| ScrollSpy.ScrollDownNeverMovesBack | interact.js:134 | scrolling further down never makes an earlier section current |
| ScrollSpy.NullIdHighlightsHashNull | interact.js:135-141 | a current section without an id highlights exactly the links to `#null` |

## Left out

- Three.js scene, mesh, light and material construction, rendering, camera follow, and the boat, bird, cloud, ocean and glow animation: declarative content and foreign library calls.
- The player's facing (`Math.atan2`, game.js:925) and the vertical `y` coordinate: neither affects movement.
- Raycasting and click labels (`onCanvasClick`, `screenRay`, `burstLabelAt`): they depend on library geometry.
- All Web Audio code and its timers: I/O.
- Timer delays. The typewriter waits 100, 2000, 50 or 500 ms between callbacks. The carousel autoplays every 4000 ms and pauses on hover. The model keeps the order of callbacks but not their timing.
- The mailto link (`encodeURIComponent`, navigation), `form.reset`, the status texts shown after acceptance, and the missing-status-element case. `Submit` returns the status text or the trimmed fields, and leaves out showing them.
- `scrollIntoView`, the carousel track's CSS transform, and the IntersectionObserver fade-in: presentation only.
- IEEE floating-point rounding, and the random placement of colliders. The model is exact over `real`, and colliders are an arbitrary input sequence.
- Controls.Step: `Math.hypot(mx, mz)` is passed in as `len`, with `len² = mx² + mz²` required, because √2 is irrational.
- Controls.LowerChar: lower-cases ASCII letters only. `toLowerCase` also maps non-ASCII capitals, and no movement key involves them.
- Controls.SetShoreWarning: the element's initial class is not known. Agreement between class and flag is stated as preserved, not as established.
- Typewriter.Start: the headline span is assumed to start empty, since the source appends to whatever text it already holds.
- MobileNav.AnchorClick: the target lookup is a parameter. `document.querySelector(href)` reads `href` as a CSS selector, so an `href` such as `#1intro` throws and `#a.b` looks for a class too. The model treats a throwing lookup as `targetExists` false, because the drawer then stays as it was.
- MobileNav.Nav: the initial attribute values come from the page markup, which is not part of this model. `Toggle` makes them agree from any starting state.

## Findings

| source | as written | input that shows it | evidently intended | confidence | as-written member | corrected member |
|---|---|---|---|---|---|---|
| game.js:887 | the Z-only slide accepts `tryZ` when `hypot(tryZ.x − col.x, tryZ.z) ≥ col.r`, which measures the distance from `(col.x, 0)` | player at `(0, 75)`, step `(0.1, −0.26)`, a single collider `(0, 73.9, 1)`: the bounce and the X slide leave the island, and the Z slide is accepted at `(0, 74.74)`, which is 0.84 from the collider's centre | `hypot(tryZ.x − col.x, tryZ.z − col.z) ≥ col.r`, like the X-only test on the line above | high (not executed) | Movement.ZSlideEntersObstacle | Movement.TryMoveCorrected |
