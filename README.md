# Portfolio page behaviour: a verified model

This project models the self-contained logic of the portfolio page script `script.js`:

- **Particle field** (`Particles`): the decorative background keeps a fixed collection of
  particles `{x, y, vx, vy}`. Every animation frame moves each particle by its velocity,
  reverses the velocity on an axis when the moved coordinate is at or beyond an edge of the
  viewport, and clamps the position into `[0, W] × [0, H]`. After a window resize, a
  particle past the new right or bottom edge is put 10 px inside that edge. A periodic scan
  over all pairs `i < j` draws a link between particles closer than 150 px, with line
  opacity `1 - d/150`. `ParticleField` is a class over an array of particle records; its
  methods update the array in place with loops, and they are proved against the pure
  functions `Frame`, `ResizeField` and the link predicate `Near`.
- **Contact form** (`ContactForm`): `trim`, the e-mail pattern `^[^\s@]+@[^\s@]+\.[^\s@]+$`
  written as a character-level automaton (`Scan`, `IsValidEmail`), the verdict for one field
  (`ValidateField`, run on blur) and the check of all required fields on submit
  (`ValidateForm`). The automaton is proved to accept exactly the strings described by the
  four conditions of a valid address (`EmailShape`), and those conditions are proved
  equivalent to the pattern read literally (`PatternMatch`).
- **Page effects** (`PageEffects`): the header rule on scroll with its remembered
  `lastScrollY` and pending-update flag (class `HeaderEffects`), the colour thresholds of the
  message character counter, and the colour-theme choice at start-up, on a toggle click and on
  a change of the system preference.

Coordinates are exact reals. The viewport size, the scroll position, the stored theme, the
system colour preference and the field contents are inputs of the operations that read them.

## Model

| member | source | states |
|---|---|---|
| Particles.AxisStep | script.js:64-77 | On one axis the velocity is reversed when the moved coordinate is `<= 0` or `>= limit` and kept otherwise, its magnitude is always kept, and the coordinate ends in `[0, limit]`: the moved value when strictly inside, 0 below, `limit` above |
| Particles.Step | script.js:63-78 | One frame of one particle ends inside a non-negative viewport and keeps the magnitude of both velocity components; each axis follows `AxisStep` (see `StepAxesIndependent`) |
| Particles.Frame | script.js:62-82 | A frame steps every particle in place: the count and the order of the particles are unchanged |
| Particles.FrameInBounds | script.js:62-82 | After a frame every particle satisfies `0 <= x <= W` and `0 <= y <= H` when `W >= 0` and `H >= 0` |
| Particles.FramePreservesSpeed | script.js:68-73 | A frame never changes the magnitude of `vx` or `vy` |
| Particles.StepAxesIndependent | script.js:64-77 | The horizontal outcome depends only on `x`, `vx` and `W`, the vertical one only on `y`, `vy` and `H` |
| Particles.BounceOffLeftEdge | script.js:64-77 | A particle at `x = 0` with `vx = -0.1` leaves the frame with `vx = 0.1` and `x >= 0` |
| Particles.Snap | script.js:172-177 | A coordinate past the new edge becomes edge minus 10, any other is kept; the result is never past the edge |
| Particles.Resize | script.js:171-178 | After the correction `x <= W` and `y <= H`; a coordinate already within its edge is kept; the velocity is untouched |
| Particles.ResizeField | script.js:168-180 | The resize correction keeps the count and order of the particles |
| Particles.ResizeBounds | script.js:171-178 | After the correction every `x <= W` and `y <= H`, and no velocity has changed |
| Particles.ResizeKeepsInBounds | script.js:171-178 | A field inside the old viewport is inside the new one when the new one is at least 10 px in each direction |
| Particles.ResizeIdempotent | script.js:171-178 | Applying the correction twice equals applying it once |
| Particles.ShrinkSnapsInside | script.js:172-174 | A particle at the old right edge ends at `W_new - 10` after shrinking to `W_new` |
| Particles.NarrowViewportLeavesField | script.js:172-174 | In a viewport narrower than 10 px the correction gives a negative coordinate (W = 5, x = 8 gives x = -5) |
| Particles.SqDist | script.js:114 | The squared distance is never negative and is 0 for two particles at the same place (the quantity under `Math.sqrt`) |
| Particles.Near | script.js:114-117 | `distance < 150`, tested as squared distance `< 22500`; the two tests agree on every pair by `NearIffDistance`, and the threshold is strict by `ThresholdIsStrict` |
| Particles.NearSymmetric | script.js:114-117 | Whether two particles are linked does not depend on their order |
| Particles.ThresholdIsStrict | script.js:117 | Two particles exactly 150 px apart are not linked; 149.999 px apart they are |
| Particles.RootBelowThreshold | script.js:114-117 | A non-negative distance whose square is below 22500 is below 150 |
| Particles.DistanceBelowGivesSquareBelow | script.js:114-117 | A non-negative distance below 150 has a square below 22500 |
| Particles.NearIffDistance | script.js:114-117 | For any non-negative `d` with `d * d` the squared distance, `Near` holds iff `d < 150`: the model links exactly the pairs the page links |
| Particles.Opacity | script.js:122 | `1 - distance/150` is 1 at distance 0 and lies in `(0, 1]` for any distance in `[0, 150)` |
| Particles.OpacityOfLink | script.js:122 | A linked pair's opacity `1 - d/150` lies in `(0, 1]` |
| Particles.OpacityDecreasing | script.js:122 | Opacity is 1 at distance 0 and strictly decreases as the distance grows |
| Particles.EmittedLinksVisible | script.js:117-122 | Every link `UpdateConnections` emits is drawn with an opacity in `(0, 1]` |
| Particles.ScanPair | script.js:110-140 | Examining the pair `(i, j)` keeps the emitted links well formed and in scan order and settles that pair |
| Particles.ParticleField.constructor | script.js:34-55 | The field holds exactly the given initial particles, in a new array that is never replaced |
| Particles.ParticleField.Animate | script.js:61-82 | The array after a frame is `Frame` of the array before it; every particle is in bounds for a non-negative viewport |
| Particles.ParticleField.HandleResize | script.js:168-180 | The array after a resize is `ResizeField` of the array before it |
| Particles.ParticleField.UpdateConnections | script.js:105-143 | Every pair `i < j` yields a link exactly when its squared distance is below 22500, each link carries that squared distance, and links come out in loop order with no pair twice |
| ContactForm.LeadingSpacesRun | script.js:407 | The count of leading white space covers only white-space characters, and the character after the run (if any) is not white space |
| ContactForm.TrailingSpacesRun | script.js:675 | The count of trailing white space covers only white-space characters, and the character before the run (if any) is not white space |
| ContactForm.Trim | script.js:407 | `value.trim()`; what it returns is stated by `TrimIsInfix`, `TrimDropsSpace`, `TrimEnds` and `TrimEmptyIffAllSpace` |
| ContactForm.TrimIsInfix | script.js:675 | `trim()` returns the characters of the value that start right after the leading white space, in order |
| ContactForm.TrimDropsSpace | script.js:675 | Every character `trim()` drops, before or after what it keeps, is white space |
| ContactForm.TrimEnds | script.js:675 | A non-empty result of `trim()` neither starts nor ends with white space |
| ContactForm.TrimEmptyIffAllSpace | script.js:407-409 | `trim()` gives the empty string exactly when the whole value is white space |
| ContactForm.Next | script.js:452 | One character of the pattern as an automaton: white space always leads to the dead end, which is never left; an '@' survives only right after a non-empty local part; no character leads back to the start |
| ContactForm.Scan | script.js:452-453 | The automaton run over the string from the left; it stays at the start only on the empty string; its full meaning is `ScanIsExpected` |
| ContactForm.IsValidEmail | script.js:451-454 | `emailRegex.test(email)`; what it accepts is stated by `ValidEmailIffShape` and `ShapeIffPattern` |
| ContactForm.ScanIsExpected | script.js:451-454 | After reading any string the automaton is in the state that the string's own structure (white space, position of the only '@', dots in the domain) calls for |
| ContactForm.ExpectedStep | script.js:452 | Reading one more character moves the stated meaning of the states exactly as one automaton step does |
| ContactForm.DomainStep | script.js:452 | After the '@', a character that is neither white space nor '@' moves the domain state exactly as the automaton does |
| ContactForm.ValidEmailIffShape | script.js:451-454 | `isValidEmail(s)` holds iff `s` has no white space, exactly one '@', a non-empty part before it, and after it a '.' that is neither first nor last |
| ContactForm.ShapeIffPattern | script.js:452 | Those four conditions hold iff `s` splits as `[^\s@]+ @ [^\s@]+ . [^\s@]+` |
| ContactForm.ShortestValidEmail | script.js:452 | `a@b.c` is accepted |
| ContactForm.EmailWithoutTopLevel | script.js:452 | `a@b.` is rejected: the dot needs a character after it |
| ContactForm.EmailWithEmptyHost | script.js:452 | `a@.c` is rejected: the dot needs a character between it and the '@' |
| ContactForm.EmailWithSpace | script.js:452 | `a b@c` is rejected: white space is never allowed |
| ContactForm.Message | script.js:410-413 | Each error has a non-empty message: "Ce champ est requis" or "Adresse email invalide" |
| ContactForm.ShownError | script.js:677-688 | After a check a field shows no error exactly when it passes, and otherwise the non-empty message of its error |
| ContactForm.RequiredMessageShown | script.js:677-680 | "Ce champ est requis" appears under a field exactly when it is required and all white space |
| ContactForm.InvalidEmailMessageShown | script.js:682-685 | Under a non-blank e-mail field, "Adresse email invalide" appears exactly when the trimmed value lacks the shape of an address |
| ContactForm.ValidateField | script.js:674-689 | `validateField`; its three verdicts are characterised by `ValidateFieldVerdicts` |
| ContactForm.ValidateFieldVerdicts | script.js:674-689 | `validateField` fails with the required error iff the field is required and all white space; fails with the invalid-email error iff that does not apply, the field is an e-mail field, its value is not blank and the trimmed value lacks one of the four conditions of a valid address; passes iff neither applies |
| ContactForm.FormFieldCheck | script.js:406-417 | The check `validateForm` applies to one required field; it agrees with `validateField` by `FormCheckIsFieldCheck` |
| ContactForm.FormCheckIsFieldCheck | script.js:406-417 | On a required field the submit check gives the same verdict as `validateField` |
| ContactForm.FormReportAt | script.js:405-417 | In the submit report, each required field has its `validateField` verdict and every other field has none |
| ContactForm.FormReportMeans | script.js:405-417 | The same for every position of the report at once |
| ContactForm.AllRequiredPassMeans | script.js:403-420 | The accumulated `isValid` is true iff every required field passes `validateField` |
| ContactForm.ValidateForm | script.js:402-421 | The loop visits the fields in order: the report gives every required field its `validateField` verdict and no other field one, and the result is true iff every required field passes |
| PageEffects.HeaderRule | script.js:553-566 | The denser background is chosen iff `scrollY > 100`; the header is hidden iff `scrollY > lastScrollY && scrollY > 200`; a hidden header always has the denser background |
| PageEffects.ScrollingUpShowsHeader | script.js:562-566 | Scrolling up or staying at the same position always shows the header |
| PageEffects.HeaderEffects.constructor | script.js:546-547 | The remembered position starts at the current scroll position, with no update pending |
| PageEffects.HeaderEffects.OnScroll | script.js:572-577 | A scroll event schedules an update only when none is pending, and leaves one pending |
| PageEffects.HeaderEffects.UpdateHeader | script.js:549-570 | The look follows `HeaderRule` from the remembered position; afterwards `lastScrollY = scrollY` and nothing is pending |
| PageEffects.MaxLength | script.js:485 | Without a `maxlength` attribute the limit is 5000 |
| PageEffects.CounterColourFor | script.js:492-498 | Red iff `count > 0.9 × limit`; amber iff `0.7 × limit < count <= 0.9 × limit`; default otherwise |
| PageEffects.ColourCode | script.js:493-497 | The style colour for each counter colour: `#ef4444` exactly for red, `#f59e0b` exactly for amber, the empty string exactly for the default |
| PageEffects.CounterStyle | script.js:492-498 | The colour written to the counter is `#ef4444` iff `count > 0.9 × limit`, `#f59e0b` iff `0.7 × limit < count <= 0.9 × limit`, and empty otherwise |
| PageEffects.CounterColourMonotone | script.js:492-498 | More characters never give a less alarming colour |
| PageEffects.DefaultCounterThresholds | script.js:485-498 | With the default limit: red above 4500 characters, amber from 3501 to 4500 |
| PageEffects.AppliesDark | script.js:278-286 | `setTheme` adds the `dark` class exactly for the theme named "dark" and removes it for any other; the theme rules below are stated through it |
| PageEffects.InitialTheme | script.js:237-241 | A stored non-empty theme wins; otherwise the theme is dark iff the system prefers dark, and is "dark" or "light" |
| PageEffects.ToggledTheme | script.js:251-256 | A click picks the theme opposite to the one shown, always "dark" or "light" |
| PageEffects.OnSystemChange | script.js:270-274 | A change of system preference is applied iff no theme is stored, and then sets dark iff the system now prefers dark |
| PageEffects.ToggleTwiceRestores | script.js:251-256 | Two clicks bring back the theme shown before them |
| PageEffects.ClickPinsTheme | script.js:256-274 | After a click stores its theme, later system-preference changes are ignored |

## Notes on the model

- A particle is reflected when its moved coordinate is `<= 0` or `>= W` (both inclusive), the
  link test is strict (`< 150`), and the resize correction only looks at the right and
  bottom edges.
- The resize correction puts an out-of-range particle at `W - 10`; when the new viewport is
  narrower than 10 px that coordinate is negative (`NarrowViewportLeavesField`). The next
  frame puts every particle back in `[0, W] × [0, H]` (`FrameInBounds`), by reflecting and
  clamping or simply by moving it, so the lower bound holds again only after a frame.
- `validateForm` checks the required fields only, and unlike `validateField` it does not
  need the "non-empty" test before the e-mail test, because a blank required field has
  already failed; `FormCheckIsFieldCheck` shows the two agree.
- `Trim`, `LeadingSpaces` and `TrailingSpaces` are plain functions. What they mean is stated in
  lemmas (`TrimIsInfix`, `TrimDropsSpace`, `TrimEnds`, `TrimEmptyIffAllSpace` and the run lemmas), and the same
  holds for `ValidateField` (`ValidateFieldVerdicts`).

## Left out

- Particle creation (`createParticleBackground`): the random positions and velocities and
  the count of 50 are not modelled; the field is built from an arbitrary initial sequence and
  its size never changes afterwards.
- The display handle of each particle and every DOM write (positions pushed as `px` styles,
  link `<div>`s, their gradient colours with the 0.3 and 0.5 alpha multipliers, the line
  width, error `<span>`s, header styles, toggle classes): output plumbing.
- `Math.sqrt` and `Math.atan2`: links carry the squared distance; the opacity lemmas take a
  distance `d >= 0` with `d * d` equal to it. The line angle is not modelled.
- Floating point: coordinates, scroll positions and thresholds are exact reals, so IEEE
  rounding is not captured.
- Scheduling: `requestAnimationFrame`, `setInterval`, `setTimeout`, `debounce`, `throttle`,
  the typing animation, the simulated submission delay and the notification timers. Each
  model operation is one callback run; when the callbacks run is not modelled.
- Browser services: `localStorage` and `matchMedia` are inputs (`saved`, `systemPrefersDark`,
  `matchesDark`), `IntersectionObserver` reveals, skill-bar animations, dropdown wiring,
  smooth scrolling, the CV download, load-time logging, the service-worker check and the
  injected style block are not modelled.
- The submit handler after a successful `validateForm` (loading state, notification, form
  reset, counter reset) is not modelled.
- MaxLength: a `maxlength` attribute is taken as a number when present; the page's coercion
  of a non-numeric attribute text (which would make every comparison false) is not modelled,
  and an empty attribute is represented as absent.
