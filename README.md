# Portfolio site: scroll-spy, theme switch and contact form

This project models, in Dafny, the three components of a React portfolio site that hold logic:

- **Scroll-spy navigation bar** (`BottomNavbar`, module `Navigation`). It keeps one piece of state, `activeSection`, which starts at `home`. On each scroll, and once when the bar mounts, it probes the point halfway down the viewport. It then tests the five sections in navigation order (home, about, skills, projects, contact) and activates the first one whose half-open span `[offsetTop, offsetTop + offsetHeight)` contains the probe. A section without an element is skipped. When nothing matches, the previous value stays.
  - The document is a `Layout`: a map from section id to the element's measured `offsetTop` and `offsetHeight`.
  - The viewport is the pair `scrollY` and `innerHeight`, both `real`.
- **Theme switch** (`ThemeToggle`, module `Theme`). The theme is `light` until the mount effect runs.
  - The effect takes the value stored under `theme` in local storage when that value is present and non-empty. Otherwise it takes the system colour-scheme preference.
  - A click switches light to dark and anything else to light. It persists the new theme and mirrors it into the document root's `dark` class.
  - Local storage is a `map<string, string>`, the root class is a `bool` field, and the preference query is a `bool` argument.
- **Contact form** (`ContactForm`, module `Contact`).
  - It keeps the `name`/`email`/`message` record and the `isSubmitting` flag.
  - A change event writes one field.
  - Submission raises the flag and posts `encode({ "form-name": "contact", ...formData })`. A resolved request clears the fields and a rejected one keeps them. The flag drops either way.
  - The request is replaced by its outcome (`Resolved(status)` or `Rejected`), which the caller supplies.

The body encoding is modelled concretely in two modules:

- `UriComponent`: `encodeURIComponent` as ECMA-262 section 19.2.6.5 defines it. Characters outside `A–Z a–z 0–9 - _ . ! ~ * ' ( )` become the `%XY` escapes of their UTF-8 bytes, with upper-case hex digits. The module also has the inverse: percent-decoding followed by strict UTF-8 decoding.
- `FormUrlEncoded`: `encode` joins `key=value` pairs with `&`. `ParseForm` is the `application/x-www-form-urlencoded` parser of section 5.1 of the WHATWG URL Standard. It splits on `&`, skips empty pieces, splits each piece at its first `=`, turns `+` into a space and decodes both halves.

The central results:
- `ParseForm(Encode(r)) == Some(r)` for every record, whatever characters its keys and values contain.
- The submitted body is exactly `form-name=contact&name=…&email=…&message=…`.
- The scroll-spy loop computes the first containing section in navigation order.
- Every state-changing handler preserves its component's invariant: `activeSection` is a navigation id; the `dark` class agrees with the theme; the form holds exactly its three fields.

Module `Wrappers` holds the `Option` type.

## Model

| member | source | states |
|---|---|---|
| Navigation.ProbePoint | src/components/BottomNavbar.tsx:18 | the probe lies as far below the viewport's top edge as above its bottom edge |
| Navigation.Contains | src/components/BottomNavbar.tsx:24 | the half-open span test; EndIsExclusive states its edges |
| Navigation.FirstMatch | src/components/BottomNavbar.tsx:20-29 | the position of the first matching section; FirstMatchIsFirst and FirstMatchAt characterise it both ways |
| Navigation.NextSection | src/components/BottomNavbar.tsx:20-29 | the active section after one scroll check; EarliestMatchWins, NoMatchKeepsSection and MissingSectionNeverChosen state it |
| Navigation.FirstMatchIsFirst | src/components/BottomNavbar.tsx:20-29 | the search returns a position exactly when that section matches and no earlier one does, and returns nothing exactly when no section matches |
| Navigation.FirstMatchAt | src/components/BottomNavbar.tsx:20-29 | conversely, a matching section with no earlier match is the one the search returns |
| Navigation.EndIsExclusive | src/components/BottomNavbar.tsx:24 | a probe exactly at a section's end is outside it, and a section of positive height contains its own top |
| Navigation.NextSectionIsNavId | src/components/BottomNavbar.tsx:5-29 | starting from a navigation id, a scroll check always leaves a navigation id active |
| Navigation.NoMatchKeepsSection | src/components/BottomNavbar.tsx:20-29 | when no section contains the probe, the active section is unchanged |
| Navigation.EarliestMatchWins | src/components/BottomNavbar.tsx:7-26 | the earliest containing section in navigation order is chosen, over any later overlapping or zero-height one |
| Navigation.MissingSectionNeverChosen | src/components/BottomNavbar.tsx:21-22 | a section without an element is never made active |
| Navigation.ContainingSectionChosen | src/components/BottomNavbar.tsx:20-26 | on a page whose sections follow each other in navigation order, the section containing the probe is chosen |
| Navigation.ScrollingDownMovesForward | src/components/BottomNavbar.tsx:18-26 | on such a page, a lower probe in section j and a higher probe in section k activate j and k, and j comes no later than k: scrolling down never moves the highlight back up |
| Navigation.ScrollToThenSpy | src/components/BottomNavbar.tsx:38-46 | after a section's top is scrolled to the viewport's top, the next scroll check activates that section when half the viewport fits in it |
| Navigation.ShortSectionNotActivated | src/components/BottomNavbar.tsx:18-26 | with `home` 100 pixels tall and an 800-pixel viewport, scrolling to the top of `home` activates `about` instead |
| Navigation.NavIdsDistinct | src/components/BottomNavbar.tsx:7-13 | the five navigation ids are pairwise distinct |
| Navigation.ActiveFlags | src/components/BottomNavbar.tsx:52-53 | entry k of the button flags is set exactly when id k is the active section |
| Navigation.CountActive | src/components/BottomNavbar.tsx:52-53 | over distinct ids, one button is active if the active section is among them and none otherwise |
| Navigation.ExactlyOneActive | src/components/BottomNavbar.tsx:7-53 | exactly one navigation button is active |
| Navigation.BottomNavbar.constructor | src/components/BottomNavbar.tsx:5 | the active section starts as `home` |
| Navigation.BottomNavbar.IsActive | src/components/BottomNavbar.tsx:53 | whether a button is highlighted; OneButtonActive states that exactly one is |
| Navigation.BottomNavbar.OneButtonActive | src/components/BottomNavbar.tsx:52-53 | in every valid state some navigation button is active, no two are, and the count of active flags is one |
| Navigation.BottomNavbar.OnScroll | src/components/BottomNavbar.tsx:20-29 | the loop leaves active the first matching section, or the previous one when none matches, and keeps it a navigation id |
| Navigation.BottomNavbar.HandleScroll | src/components/BottomNavbar.tsx:16-30 | a scroll check probes the viewport's centre, then runs the matching loop |
| Navigation.BottomNavbar.ScrollToSection | src/components/BottomNavbar.tsx:38-46 | the scroll target is the element's top when the element exists and nothing otherwise; the active section is not touched |
| Navigation.Mount | src/components/BottomNavbar.tsx:33 | mounting runs one scroll check from `home` at the current position |
| Theme.InitialTheme | src/components/ThemeToggle.tsx:10-12 | a present, non-empty stored value is taken as it is; otherwise the theme is `dark` exactly when the system prefers dark |
| Theme.Toggled | src/components/ThemeToggle.tsx:19 | a click leads to `dark` exactly from `light`, and to `light` from anything else |
| Theme.AriaLabel | src/components/ThemeToggle.tsx:31 | the label reads `Switch to dark mode` for `light`, and `Switch to light mode` for anything else, naming the theme a click selects |
| Theme.IconsShown | src/components/ThemeToggle.tsx:34-43 | a proper theme shows exactly one icon, any other string shows none, and the sun shows exactly when a click would switch to dark |
| Theme.ToggleInvolutive | src/components/ThemeToggle.tsx:19 | from either theme, toggling always changes the theme and toggling twice restores it |
| Theme.UnknownStoredTheme | src/components/ThemeToggle.tsx:10-43 | a stored non-empty string that names no theme shows neither icon, and the next click switches to `light` |
| Theme.MountedThemeValid | src/components/ThemeToggle.tsx:10-12 | the mounted theme is proper exactly when the stored value is absent, empty or proper |
| Theme.PersistedChoiceWins | src/components/ThemeToggle.tsx:10-21 | a persisted theme overrides the system preference on the next load |
| Theme.ThemeToggle.constructor | src/components/ThemeToggle.tsx:6 | the theme is `light` before the mount effect |
| Theme.ThemeToggle.Mount | src/components/ThemeToggle.tsx:8-16 | the mounted theme is the initial theme of the stored value and the preference; the `dark` class agrees with it; storage is only read |
| Theme.ThemeToggle.ToggleTheme | src/components/ThemeToggle.tsx:18-23 | the theme becomes the toggled one and is stored under `theme` with every other key unchanged; the `dark` class agrees with it |
| Theme.ToggleTwice | src/components/ThemeToggle.tsx:18-23 | two clicks from either theme restore it, and storage then holds it |
| Theme.ToggleThenReload | src/components/ThemeToggle.tsx:8-23 | after a click and a reload, the page shows the theme the click selected, whatever the system preference |
| UriComponent.HexDigit | src/components/Contact.tsx:42 | an escape digit is an upper-case hexadecimal digit, itself unreserved |
| UriComponent.HexValueOfDigit | src/components/Contact.tsx:42 | reading a written hex digit back gives its value |
| UriComponent.Utf8Char | src/components/Contact.tsx:42 | a character's UTF-8 form is one to four bytes, with a leading byte below 0x80 exactly for ASCII, and ASCII is its own code |
| UriComponent.Utf8RoundTrip | src/components/Contact.tsx:42 | strict UTF-8 decoding recovers every string from its UTF-8 bytes |
| UriComponent.PercentEscape | src/components/Contact.tsx:42 | a byte escape is `%` and two upper-case hex digits that read back as the byte |
| UriComponent.EscapeBytesAt | src/components/Contact.tsx:42 | the j-th three-character group of escaped bytes is the escape of the j-th byte |
| UriComponent.EscapeChar | src/components/Contact.tsx:42 | a reserved character becomes one `%XY` escape per UTF-8 byte, in byte order |
| UriComponent.EncodeChar | src/components/Contact.tsx:42 | an unreserved character is kept; any other becomes `%` followed by more, three characters per byte of its UTF-8 form |
| UriComponent.EncodeCharEscapes | src/components/Contact.tsx:42 | a character outside the unreserved set is written as one upper-case `%XY` escape per byte of its UTF-8 form, in order |
| UriComponent.EncodeURIComponent | src/components/Contact.tsx:42 | `encodeURIComponent`; EncodeAppend, EncodedAlphabet, NoSeparators and ComponentRoundTrip state its promises |
| UriComponent.EncodeAppend | src/components/Contact.tsx:42 | the encoding works character by character: encoding a concatenation concatenates the encodings |
| UriComponent.EncodedAlphabet | src/components/Contact.tsx:42 | the encoding consists only of unreserved characters and `%` |
| UriComponent.NoSeparators | src/components/Contact.tsx:40-44 | the encoding contains no `&`, `=` or `+` |
| UriComponent.EncodeUnreserved | src/components/Contact.tsx:42 | a string of unreserved characters is encoded as itself |
| UriComponent.PercentDecodeOfEncode | src/components/Contact.tsx:42 | percent-decoding the encoding gives the string's UTF-8 bytes |
| UriComponent.ComponentRoundTrip | src/components/Contact.tsx:42 | decoding the encoding of any string gives that string back |
| FormUrlEncoded.EncodedPairsAt | src/components/Contact.tsx:40-43 | the k-th encoded pair is the encoding of the record's k-th entry |
| FormUrlEncoded.EncodedPairs | src/components/Contact.tsx:40-43 | the `map` step: one piece per entry, as many pieces as entries, each the encoded pair (EncodedPairsAt) |
| FormUrlEncoded.Join | src/components/Contact.tsx:44 | `join("&")`; SplitJoin and CountJoin state what it keeps and adds |
| FormUrlEncoded.Encode | src/components/Contact.tsx:39-45 | `encode`; RoundTrip, SeparatorCounts, EncodeCons and EncodeEmpty state its promises |
| FormUrlEncoded.IndexOf | src/components/Contact.tsx:42 | the first position of a separator, or nothing when it does not occur |
| FormUrlEncoded.SplitJoin | src/components/Contact.tsx:44 | splitting a join on a separator that no part contains gives the parts back |
| FormUrlEncoded.CountJoin | src/components/Contact.tsx:44 | a join holds the parts' own occurrences of a character plus one per separator inserted |
| FormUrlEncoded.PairCounts | src/components/Contact.tsx:42 | an encoded pair holds no `&` and exactly one `=` |
| FormUrlEncoded.PairSplit | src/components/Contact.tsx:42 | an encoded pair is non-empty and splits at its first `=` into the encoded key and value |
| FormUrlEncoded.EncodeCons | src/components/Contact.tsx:40-44 | a record's body is its first pair, then `&` and the rest's body when there is a rest |
| FormUrlEncoded.EncodeEmpty | src/components/Contact.tsx:40-44 | the empty record gives the empty body |
| FormUrlEncoded.SeparatorCounts | src/components/Contact.tsx:40-44 | the body of n ≥ 1 entries holds exactly n − 1 `&` and n `=` |
| FormUrlEncoded.ParsePairs | src/components/Contact.tsx:40-44 | parsing the encoded pairs of a record gives the record back |
| FormUrlEncoded.RoundTrip | src/components/Contact.tsx:39-45 | parsing the body of any record gives back its keys and values, in order |
| Contact.Keys | src/components/Contact.tsx:40 | the record's keys, in order |
| Contact.Get | src/components/Contact.tsx:42 | a lookup misses exactly when the key is absent, and a hit returns the value of the first entry with that key |
| Contact.Set | src/components/Contact.tsx:36 | `{ ...prev, [name]: value }`; GetSetSame, GetSetOther and KeysOfSet state its effect |
| Contact.Spread | src/components/Contact.tsx:55 | `{ ...base, ...extra }`; SpreadFreshKeys states that fresh keys are appended in order |
| Contact.SubmissionBody | src/components/Contact.tsx:55 | the posted body; SubmissionBodyLayout and SubmissionBodyParses state its exact form and that it parses back |
| Contact.GetSetSame | src/components/Contact.tsx:36 | after a field is written, reading it gives the new value |
| Contact.GetSetOther | src/components/Contact.tsx:36 | writing a field leaves every other key's value unchanged |
| Contact.KeysOfSet | src/components/Contact.tsx:36 | writing a present key keeps the key order, and writing an absent key appends it |
| Contact.SetAbsent | src/components/Contact.tsx:55 | writing a key absent from a record appends the entry |
| Contact.SpreadFreshKeys | src/components/Contact.tsx:55 | spreading entries whose keys are new appends them in order |
| Contact.FormDataShape | src/components/Contact.tsx:11-15 | a record whose keys are the three fields is `name`, `email`, `message` with their values |
| Contact.SubmissionEntries | src/components/Contact.tsx:55 | the record handed to `encode` is the form-name entry followed by the three fields |
| Contact.FormNamePair | src/components/Contact.tsx:55 | the form-name entry is sent as `form-name=contact` |
| Contact.FieldsBody | src/components/Contact.tsx:39-45 | the three fields are sent as `name=…&email=…&message=…`, with each value escaped |
| Contact.SubmissionBodyPrefix | src/components/Contact.tsx:55 | the body is `form-name=contact&` followed by the encoded form fields |
| Contact.SubmissionBodyLayout | src/components/Contact.tsx:55 | the body is `form-name=contact`, then the `name`, `email` and `message` pairs, in that order |
| Contact.SubmissionBodyParses | src/components/Contact.tsx:55 | the body parses back to the form-name entry followed by the three fields |
| Contact.ContactForm.constructor | src/components/Contact.tsx:10-15 | the form starts with three empty fields and not submitting |
| Contact.ContactForm.SubmitDisabled | src/components/Contact.tsx:198 | the button is disabled exactly while submitting; BeginSubmit and FinishSubmit state when it is |
| Contact.ContactForm.HandleInputChange | src/components/Contact.tsx:32-37 | only the named field changes and it takes the new value; the record keeps its three fields in order; the flag is untouched |
| Contact.ContactForm.BeginSubmit | src/components/Contact.tsx:47-56 | the flag rises and the submit button is disabled; the fields are kept; the body is the encoding of the form-name entry and the fields, and parses back to them |
| Contact.ContactForm.FinishSubmit | src/components/Contact.tsx:57-72 | a resolved request of any status clears the fields and a rejected one keeps them; the flag drops and the button is enabled either way |
| Contact.ContactForm.HandleSubmit | src/components/Contact.tsx:47-73 | the body is built from the fields as they were when submitted; afterwards the flag is down and the fields are cleared exactly when the request resolved |

## Left out

- Listener registration and removal, the `IntersectionObserver` visibility latches (`src/components/Contact.tsx:19-30` and the other sections), toasts and static content lists: these are browser wiring or presentation with no state the model reads. A scroll event is a call to `HandleScroll`.
- Smooth scrolling (`scrollIntoView`) is a DOM call. `ScrollToSection` returns the element's top as the scroll target, and `ScrollToThenSpy` states what the next scroll check then sees. The next check activates the section only when half the viewport fits in it; `ShortSectionNotActivated` shows a short section losing to the one below it.
- The page's section order comes from `src/pages/Index.tsx`, which is not part of this model. The lemmas that rely on it take it as the `InPageOrder` assumption on the layout.
- Floating-point viewport arithmetic: `scrollY`, `innerHeight` and the probe are exact `real` numbers, and offsets are whole pixels.
- The network request is replaced by its outcome; the request's headers, the URL and the asynchronous interleaving of events while a request is pending are not modelled.
- `Contact.ContactForm.HandleInputChange`: requires the input's name to be one of the three field names, because only those three inputs carry the change handler.
- `UriComponent.EncodeChar`: `encodeURIComponent` throws `URIError` on a lone surrogate. A Dafny `char` is a Unicode scalar value and cannot hold one, so that error path does not arise in the model.
- `FormUrlEncoded.ParseForm`: on malformed UTF-8 the model gives `None`, where the WHATWG parser substitutes U+FFFD. The two agree on every body `Encode` produces.
- `Contact.Spread`: a JavaScript object lists integer-like keys before the others. The model keeps insertion order, which is what JavaScript does for the non-numeric keys the form uses.
- The browser's own `required` and `type="email"` checks before submit are not modelled.
- `Theme.InitialTheme`: the stored value is used without checking that it names a theme. The model follows the code here rather than the stricter reading that the value must be present and valid. `UnknownStoredTheme` shows the result: an unrecognised stored string shows neither icon until the next click.
- `Theme.ThemeToggle.ToggleTheme`: always succeeds. In the browser `localStorage.setItem` can throw (a full quota, or storage blocked), and `toggleTheme` then stops after changing the theme, leaving the `dark` class as it was; that failure is not modelled.
- `Theme.StoredTheme`: `localStorage.getItem` is a lookup in the storage map, and the storage's own persistence across reloads is the map carried into the next `ThemeToggle`.
- Icon transition classes and the button's styling are presentational and are not modelled beyond which icon is shown.
