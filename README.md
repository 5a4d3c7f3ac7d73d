# Portfolio page script, modelled in Dafny

The portfolio site's `main.js` wires six independent components to the page:
a theme switch, a mobile burger menu, a project filter, a contact form, scroll
reveals and an image lightbox. Each one binds to elements found at start-up and
then reacts to events. This project models the logic inside those event
handlers over an abstract page state instead of the DOM:

- `Page.Document` holds the document-wide state the components share: the
  body's `no-scroll` class (written by both the menu and the lightbox), the
  root's `dark-mode` class, and `localStorage` as a `map<string, string>`.
- Each component is a class (`ThemeManager`, `NavigationManager`,
  `ProjectFilter`, `ContactForm`, `ScrollObserver`, `LightboxManager`). Its
  fields are the element state the source mutates: class flags, `checked`,
  `src`/`alt`, field values and the status text.
- Each event handler is a method called directly. When the component's
  hooks are absent (`enabled` is false), the source never registers the
  listener, so every such method leaves the state unchanged.
- The pure pieces are functions with lemmas: the `includes` match, the
  e-mail regular expression, and the choice of status message.
  These pieces are `Text.Includes`, `Filter.Matches`, `Contact.IsValidEmail`,
  `Contact.EmailMarks`, `Contact.Outcome` and `Text.Join`.

The module layout is `wrappers.dfy` (Option), `text.dfy` (JavaScript string
operations), `page.dfy`, and one file per component: `theme.dfy`, `nav.dfy`,
`filter.dfy`, `contact.dfy`, `reveal.dfy` and `lightbox.dfy`.

In several places the code does something other than a reader might expect
from the markup it works on; the model follows the code:

- **Tag matching is substring containment.** `tags.includes(filterValue)` at
  main.js:90 also matches a filter inside a longer tag (`"app"` selects
  `"webapp mobile"`: `Filter.PartialTagMatches`). A space-separated tag list
  suggests whole-token matching; the code does raw substring containment.
- **An empty filter matches everything.** `""` selects every card
  (`Filter.EmptyFilterMatchesAll`). A button without `data-filter` filters on
  the text `"undefined"`, which is what JavaScript's coercion produces.
- **A failed response whose body is not JSON shows the network message.**
  `response.json()` throws inside the `try`, so the `catch` at
  main.js:153-155 shows the network-failure text, not the generic one
  (`Contact.UnparseableIsNetworkFailure`). The same holds for a `null` body,
  an `errors` value that is not an array, and a `null` entry in it.
- **An empty `errors` array shows an empty message.** `[].join(", ")` is
  `""`, so the status becomes an error with no text
  (`Contact.ServerMessagesJoined` with no messages).
- **Only the first `active` button is cleared.** A click clears the mark of
  the first button that carries `active`, so "exactly one active button"
  holds only if at most one was active before (`Filter.ClickMarksOnlyClicked`;
  `Filter.ClickClearsOnlyFirstMark` shows the other case).
- **`no-scroll` is a plain class, not a counter.** The menu toggles it and the
  lightbox sets and clears it. After the lightbox has set it, a burger click
  leaves the menu open and the page scrollable (`Nav.ToggleKeepsMismatch`).

## Model

| member | source | states |
|---|---|---|
| `Text.IncludesIffOccurs` | main.js:90 | `includes` holds exactly when the filter text occurs at some position of the tag text |
| `Text.Includes` | main.js:90 | a string includes the empty string and itself, and never a longer string |
| `Text.Join` | main.js:149 | joining nothing gives `""`; otherwise the result starts with the first part and ends with the last |
| `Text.JoinSnoc` | main.js:149 | `join(", ")` puts the separator between neighbours: one more message adds `", "` and that message at the end |
| `Theme.StoredValue` | main.js:19 | the persisted theme value is `"dark"` or `"light"`, and it is `"dark"` exactly for the dark theme |
| `Theme.ThemeManager.constructor` | main.js:5-12 | with the checkbox present, `checked` starts equal to the document's `dark-mode` flag; without it the manager is disabled |
| `Theme.ThemeManager.ToggleTheme` | main.js:16-20 | `dark-mode` becomes the checkbox state and `theme` is stored as its value; only that key changes, and `no-scroll` is outside its frame |
| `Theme.ThemeManager.OnChange` | main.js:13-20 | a click flips the checkbox; then checkbox and `dark-mode` agree on the new value, `theme` holds it, and every other storage key is unchanged |
| `Nav.Toggled` | main.js:41-44 | a burger click keeps the menu and `no-scroll` in step exactly when they were in step |
| `Nav.Closed` | main.js:46-49 | closing leaves the menu closed and the page scrollable |
| `Nav.ToggleTwiceRestores` | main.js:41-44 | two burger clicks restore both flags, whether or not they were in step |
| `Nav.CloseIdempotent` | main.js:46-49 | closing a closed menu changes nothing |
| `Nav.ToggleKeepsMismatch` | main.js:41-44 | flags that are out of step stay out of step under toggling |
| `Nav.NavigationManager.constructor` | main.js:27-31 | the menu is enabled only when both the burger and the panel exist |
| `Nav.NavigationManager.ToggleMenu` | main.js:34-44 | a burger click flips `mobile-menu` and `no-scroll` each on its own; disabled, nothing changes |
| `Nav.NavigationManager.CloseMenu` | main.js:36-49 | a link click clears both `mobile-menu` and `no-scroll`; disabled, nothing changes |
| `Filter.Matches` | main.js:89-90 | an untagged card matches exactly when the filter is `"all"` or empty; a filter equal to the tag text always matches |
| `Filter.MatchesIffOccurs` | main.js:85-90 | a card matches iff the filter is `"all"` or the filter text (missing: `"undefined"`) occurs in the tag text (missing: `""`) |
| `Filter.PartialTagMatches` | main.js:90 | a filter that is only part of a tag still selects the card |
| `Filter.EmptyFilterMatchesAll` | main.js:89-90 | an empty filter selects every card, untagged ones too |
| `Filter.VisibleCount` | main.js:86-94 | the visible count never exceeds the number of cards |
| `Filter.VisibleCountZeroIffNoneMatch` | main.js:86-96 | the visible count is zero exactly when no card matches, so the placeholder shows exactly then |
| `Filter.AllShowsEveryCard` | main.js:86-94 | the filter `"all"` makes every card visible |
| `Filter.FirstActive` | main.js:82 | the button found is marked `active` and none before it is; none is found only when no button is marked |
| `Filter.AfterClick` | main.js:82-83 | after a click the clicked button is marked, and no other button gains a mark |
| `Filter.ClickMarksOnlyClicked` | main.js:82-83 | if at most one button was marked before a click, exactly the clicked button is marked after it |
| `Filter.ClickClearsOnlyFirstMark` | main.js:82 | with two marks before a click, a later mark survives it |
| `Filter.ProjectFilter.constructor` | main.js:56-79 | enabled iff some button and the grid exist; then the placeholder is created hidden, otherwise it is absent |
| `Filter.ProjectFilter.FilterProjects` | main.js:81-97 | the click moves the mark, card i gets `hide` iff it does not match, and the placeholder is hidden iff the visible count is positive |
| `Contact.MatchesEmailPattern` | main.js:122-123 | a value matching `/^[^\s@]+@[^\s@]+\.[^\s@]+$/` has at least five characters |
| `Contact.IsValidEmail` | main.js:122-123 | a value accepted by the split at the first `@` contains no whitespace |
| `Contact.ValidEmailMatches` | main.js:122-123 | every value accepted by the split at the first `@` matches `/^[^\s@]+@[^\s@]+\.[^\s@]+$/` |
| `Contact.MatchIsValidEmail` | main.js:122-123 | every match of the pattern is accepted by the split: its `@` is the first one |
| `Contact.EmailValidIffPattern` | main.js:122-123 | valid iff the value is `L@D` with `L` non-empty and free of whitespace and `@`, and `D` free of them with a `.` neither first nor last |
| `Contact.EmailMarks` | main.js:121-127 | `input-valid` iff the value is non-empty and matches, `input-invalid` iff non-empty and not; never both, none for `""` |
| `Contact.ValidSamples` | main.js:122-123 | `"a@b.c"` is valid, and so is `"a@..c"` |
| `Contact.InvalidSamples` | main.js:122-123 | `"a@b"`, `"a@b.c "`, `"a@@b.c"` and `""` are invalid |
| `Contact.SampleMarks` | main.js:121-127 | `"a@b.c"` gets only the valid mark, `"a@b"` only the invalid one, `""` neither |
| `Contact.KindName` | main.js:133-154 | the name is `loading` exactly for the loading kind, `success` exactly for success and `error` exactly for error |
| `Contact.ErrorMessages` | main.js:149 | mapping the errors to their `message` fails exactly when an entry is `null`; otherwise entry i gives its text, or `""` when it has none |
| `Contact.Outcome` | main.js:142-155 | a submission ends in success iff the response is ok, and never stays `loading`; ok shows the thank-you text, a parsed body without `errors` the generic text, and a transport failure, an unparseable or `null` body or a non-array `errors` the network text |
| `Contact.NullEntryIsNetworkFailure` | main.js:149-154 | a `null` entry anywhere in the `errors` array ends with the network-failure text |
| `Contact.ServerMessagesJoined` | main.js:146-151 | a rejection carrying an `errors` array shows its messages joined by `", "` in order, as an error; an empty array gives an empty text |
| `Contact.SingleErrorVerbatim` | main.js:148-151 | a single server error is shown exactly as its message |
| `Contact.UnparseableIsNetworkFailure` | main.js:147-155 | an unparseable error body ends with the network-failure text, never the generic one |
| `Contact.ContactForm.constructor` | main.js:104-110 | the form is enabled iff the form and the status region exist; fields, marks and status start as the markup has them |
| `Contact.ContactForm.UpdateStatus` | main.js:158-161 | the status class is exactly `"form-status " + kind` and the text is the message; fields and marks are untouched |
| `Contact.ContactForm.OnEmailInput` | main.js:113-127 | typing into an existing e-mail input stores the value and sets its marks from it; the status is untouched |
| `Contact.ContactForm.Submit` | main.js:129-133 | a submission first shows `"Envoi en cours..."` with class `form-status loading` |
| `Contact.ContactForm.Receive` | main.js:135-155 | the status shows the response's outcome; on ok the fields return to their defaults and the e-mail marks are cleared, otherwise the fields keep their values |
| `Contact.ContactForm.HandleSubmit` | main.js:129-156 | a whole submission ends in the response's outcome, with the reset only on success |
| `Reveal.ListDelays` | main.js:182-184 | exactly the children of a container get a delay index, and each index is a position holding that child |
| `Reveal.StaggerDelays` | main.js:180-185 | every delay index is the element's position in one of the containers |
| `Reveal.ListDelayIsPosition` | main.js:181-184 | in a container, each child's delay index is its position |
| `Reveal.StaggerDelayKeys` | main.js:180-185 | exactly the children of some container receive a delay |
| `Reveal.StaggerDelayFromLastList` | main.js:180-185 | an element in several containers keeps its position in the last one |
| `Reveal.RecordChildren` | main.js:182-184 | the inner loop over one container's children merges that container's delays over the earlier ones |
| `Reveal.ComputeStaggerDelays` | main.js:180-186 | the nested loop over containers and children computes the stagger delays |
| `Reveal.ScrollObserver.constructor` | main.js:168-178 | enabled iff some reveal element exists; then every element is watched and pending and the delays are set, otherwise nothing is watched |
| `Reveal.ScrollObserver.OnIntersect` | main.js:190-201 | an intersecting entry reveals its element and unwatches it; non-intersecting entries change nothing; a watched element is never revealed, and no reveal is ever cleared |
| `Lightbox.DisplayAlt` | main.js:243 | the enlarged image's alt is never empty: the image's own alt when it has one, otherwise `"Image en grand"` |
| `Lightbox.LightboxManager.constructor` | main.js:209-217 | enabled iff the overlay, the display image and at least one image exist; the overlay's `active` flag and the display image's `src`/`alt` start as the markup has them |
| `Lightbox.LightboxManager.Open` | main.js:238-246 | a click on an image sets `active` and `no-scroll` and shows that image's `src` with its display alt |
| `Lightbox.LightboxManager.Close` | main.js:248-251 | clears `active` and `no-scroll`, keeping the last image |
| `Lightbox.LightboxManager.OnCloseButtonClick` | main.js:225 | the close button, if there is one, closes the overlay |
| `Lightbox.LightboxManager.OnOverlayClick` | main.js:227-229 | a click closes the overlay only when its target is the backdrop itself |
| `Lightbox.LightboxManager.OnKeyDown` | main.js:231-235 | Escape closes an open overlay; any other key, or Escape on a closed overlay, changes nothing |

## Left out

- The `App` facade (main.js:259-280) and `DOMContentLoaded` are left out. They only construct the six components; the model's constructors take the hooks' presence as parameters.
- DOM querying, `addEventListener`, `innerHTML`, `style.cursor`, `preventDefault` and `stopPropagation` are left out. They are plumbing, and every handler is modelled as a method called directly.
- `fetch`, `FormData` and JSON parsing are foreign I/O. They are replaced by the `Contact.Response` datatype, which has a case for a body that does not parse. The request's payload and headers are not modelled.
- Overlapping submissions are not modelled, because the race is concurrency. The model runs one submission at a time, split at the `await` into `Submit` and `Receive`.
- `localStorage` is a map field. Persistence across page loads, and the bootstrap that reads `theme` before first paint, are outside this script.
- IntersectionObserver geometry (`threshold: 0.15`, the `-50px` root margin) is floating-point viewport maths. Whether an entry intersects is an input.
- The stagger delay `${index * 0.1}s` is float formatting. The model keeps the integer index.
- Contact.ContactForm.constructor: the e-mail input is taken to be one of the form's fields, so `form.reset()` restores it. An e-mail input outside the form is not modelled.
- Reveal.ScrollObserver.constructor: every reveal element starts pending. An element that already carries `reveal-visible` in the markup is not modelled; the invariant that a watched element is pending relies on this.
- Theme.ThemeManager.ToggleTheme: a `localStorage.setItem` that throws (storage full or blocked) after the class toggle at main.js:18-19 is not modelled; the model always stores the value.
- Contact.ErrorMessages: a `message` that is not a string is taken as its string conversion, given directly as the entry's text. A `message` getter that throws is not modelled.
