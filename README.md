# Featured-session widgets: a verified model

This project models the sequential logic behind the example widgets of an event
site-builder: a featured-session widget (in its source and built versions), its
configuration editor, and a registration widget whose cards offer a registration action.

- **Registration card** (`RegistrationCard`): the registration status the SDK reports for a
  session, as a status string and an optional sub-status, is mapped onto the card's three
  pieces of state. These are the status text, the button label and the "show button" flag.
  The card is a class with those three fields. `SetRegActionAndStatus` assigns them exactly
  as the source's `switch` does. A click shows `processing...`, and then either re-derives the
  state from the newly queried status or shows the fixed retry message. The quirks are kept:
  - the flag is never reset;
  - INCLUDED or WAITLIST_UNAVAILABLE with an unrecognised sub-status keeps the old text;
  - any other status clears the text (`textContent = null` leaves an empty text).
- **Editor** (`SessionEditor`): a click on a session toggles its id in the ordered featured
  list, with capacity 3 and eviction of the oldest id. The colour handlers publish a copy of
  the configuration with one `customColors` entry replaced. The highlight checks are
  predicates. `setConfiguration` is modelled as the list of published configurations.
- **Resolvers**: the paged session source is a `seq<seq<Session>>`.
  - `RegistrationWidget.ScanPages` reads whole pages and stops after the first page at which
    the number of collected sessions equals the number of featured ids. It returns how many
    pages it read.
  - `FeaturedWidget.CollectAllPages` flattens every page.
  - `FeaturedBuildWidget.LookUp` maps each id through the host's dictionary.
- **Cards**: the registration widget and the source featured-session widget both use
  `SessionCards.AssembleCards`. It makes one card per featured id that has a session, using
  the first session with that id and the next `pop()` of the widget's image list. The built
  widget makes one card per id, and the card is empty when the id has no session. Its card
  constructor reads `location.name` without a guard. A session without a location therefore
  throws after its image has been popped, and the container is never attached
  (`FeaturedBuildWidget.CardThrows`).

Facts about the code that the model keeps:

- The stop test compares the number of collected sessions with the number of featured ids
  (examples/RegistrationWidget/widget.js:61). The comments at lines 50 and 60 speak of
  having found all featured sessions. The two agree when the session ids are distinct, the
  featured ids are distinct and none of them is empty (`RegistrationWidget.StopsIffAllSeen`).
- The test runs after each whole page, so the first page is read even when no id is featured
  (`RegistrationWidget.EmptySelectionReadsOnePage`).
- The resolved sessions form an ordered list, one entry per collected session.
- The click handler never disables the action button while an action is in progress.

The registration widget's membership test uses `find`, which returns the matching id. That
id is then read as a truth value, so a session whose id is the empty string is never
collected (`RegistrationWidget.IsWanted`).

## Model

| member | source | states |
|---|---|---|
| `RegistrationCard.Derive` | examples/RegistrationWidget/FeaturedSession.js:188-251 | each actionable status sets its exact text/label pair and shows the button; every other status leaves label and flag alone; the flag is on afterwards iff it was on before or the status is actionable; each informational status sets its text; an unrecognised sub-status of INCLUDED or WAITLIST_UNAVAILABLE keeps the old text; any other status clears it |
| `RegistrationCard.AfterClick` | examples/RegistrationWidget/FeaturedSession.js:169-181 | on failure only the text changes, to the retry message; on success the state is re-derived from the status queried after the action, starting from the processing text; the flag is never cleared |
| `RegistrationCard.StaleProcessingText` | examples/RegistrationWidget/FeaturedSession.js:170-176 | a successful action after which the status is INCLUDED or WAITLIST_UNAVAILABLE without a sub-status leaves `processing...` on the card |
| `RegistrationCard.DeriveIdempotent` | examples/RegistrationWidget/FeaturedSession.js:188-251 | deriving twice from the same report equals deriving once |
| `RegistrationCard.ShowFlagHistory` | examples/RegistrationWidget/FeaturedSession.js:166-213 | over any run of clicks after the first derivation, the flag is set at the end iff it was set at the start or some successful click re-derived the card from an actionable status, so it is never cleared |
| `RegistrationCard.RunKeepsButtonConsistent` | examples/RegistrationWidget/FeaturedSession.js:192-215 | over any run of clicks, a set flag goes with one of the four action labels and a cleared one with no label |
| `RegistrationCard.RegActionChildren` | examples/RegistrationWidget/FeaturedSession.js:256-272 | the status text is always the first child; the button is a child iff the flag is set |
| `RegistrationCard.FirstDerivationShowsButton` | examples/RegistrationWidget/FeaturedSession.js:253-272 | after the first derivation the button is appended iff the status is one of the four actionable ones |
| `RegistrationCard.RegActionCard.constructor` | examples/RegistrationWidget/FeaturedSession.js:166-184 | a card starts with empty text, empty label and the flag off |
| `RegistrationCard.RegActionCard.SetRegActionAndStatus` | examples/RegistrationWidget/FeaturedSession.js:188-251 | the new card state is `Derive` of the old state and the queried status; the flag stays on once on |
| `RegistrationCard.RegActionCard.OnClick` | examples/RegistrationWidget/FeaturedSession.js:169-181 | the new card state is `AfterClick` of the old state, the action outcome and the status queried afterwards |
| `RegistrationCard.BuildRegActionElement` | examples/RegistrationWidget/FeaturedSession.js:155-273 | a fresh card derived once from the initial state, with the container's children decided by its flag |
| `SessionEditor.IndexOf` | examples/FeaturedSessionWidget/build/configuration/index.js:52-54 | -1 iff the id is absent; otherwise the position of its first occurrence |
| `SessionEditor.ToggleAbsentAppends` | examples/FeaturedSessionWidget/build/configuration/index.js:56-61 | an absent id is appended at the end; with 3 or more ids already, exactly the first one is dropped |
| `SessionEditor.TogglePresentRemovesFirst` | examples/FeaturedSessionWidget/build/configuration/index.js:62-65 | a present id is removed at its first occurrence, and the entries before and after it stay in order |
| `SessionEditor.RemoveAtDistinct` | examples/FeaturedSessionWidget/build/configuration/index.js:64 | removing one entry from distinct ids keeps them distinct and removes exactly that id |
| `SessionEditor.ToggleKeepsSelectionValid` | examples/FeaturedSessionWidget/build/configuration/index.js:47-65 | on at most 3 distinct ids the result is again at most 3 distinct ids; the clicked id's membership flips; every other id stays, except that the oldest is evicted when a 4th is added |
| `SessionEditor.ToggleTwiceRestores` | examples/FeaturedSessionWidget/build/configuration/index.js:56-65 | adding an id to fewer than 3 ids and clicking it again gives the original list |
| `SessionEditor.ToggleTwiceOnFullListForgetsOldest` | examples/FeaturedSessionWidget/build/configuration/index.js:56-65 | on any list of 3 or more ids, adding an absent id and clicking it again leaves the list without its oldest id |
| `SessionEditor.WithColor` | examples/FeaturedSessionWidget/build/configuration/index.js:127-146 | the published configuration has `customColors[code]` set to the new value (or to undefined); every other key and every other colour code is unchanged; an absent `customColors` is treated as empty |
| `SessionEditor.ClickFlipsHighlight` | examples/FeaturedSessionWidget/build/configuration/index.js:89 | on distinct featured ids, a click flips the highlight of the clicked session's button |
| `SessionEditor.ColorChangeHighlights` | examples/FeaturedSessionWidget/build/configuration/index.js:148-155 | "Use Event Theme" is highlighted after a change iff it was a reset; other codes keep their highlight |
| `SessionEditor.Editor.constructor` | examples/FeaturedSessionWidget/build/configuration/index.js:11-20 | without an initial configuration, `{ featuredSessionIds: [] }` is published and the stored configuration stays null |
| `SessionEditor.Editor.OnConfigurationUpdate` | examples/FeaturedSessionWidget/build/configuration/index.js:103-105 | the stored configuration becomes the new one |
| `SessionEditor.Editor.OnClickSession` | examples/FeaturedSessionWidget/build/configuration/index.js:47-68 | publishes a configuration holding only the toggled `featuredSessionIds`, with a missing list read as empty; the stored configuration is untouched; nothing is published when there is no stored configuration |
| `SessionEditor.Editor.OnColorChange` | examples/FeaturedSessionWidget/build/configuration/index.js:127-134 | publishes the stored configuration with the picked colour for the code |
| `SessionEditor.Editor.OnUseEventTheme` | examples/FeaturedSessionWidget/build/configuration/index.js:139-146 | publishes the stored configuration with the code's colour set to undefined |
| `SessionEditor.Editor.SetColor` | examples/FeaturedSessionWidget/build/configuration/index.js:127-146 | the copy-then-assign step both colour handlers share |
| `Common.PopStep` | examples/RegistrationWidget/widget.js:81 | the k-th successive `pop()` returns `images[len-1-k]`, or undefined once the list is empty, and the list shrinks by one per pop |
| `Common.FlattenConcat` | examples/FeaturedSessionWidget/src/index.js:52-54 | concatenating sources concatenates their sessions |
| `Common.FlattenStep` | examples/FeaturedSessionWidget/src/index.js:53 | reading one more page appends exactly that page's sessions |
| `SessionCards.FirstWithId` | examples/RegistrationWidget/widget.js:70-72 | a session is found iff its id occurs; the result is the first session with that id |
| `SessionCards.FirstWithIdConcat` | examples/FeaturedSessionWidget/src/index.js:60-62 | the first match in a concatenation is the one in the front part when there is one there |
| `SessionCards.MatchedSessions` | examples/RegistrationWidget/widget.js:69-85 | at most one session per featured id; each is a listed session with a featured id |
| `SessionCards.MatchedSessionsConcat` | examples/RegistrationWidget/widget.js:69-85 | cards come in featured-id order: the cards for two id lists are the cards for the first followed by those for the second |
| `SessionCards.MatchedSessionsSingle` | examples/FeaturedSessionWidget/src/index.js:59-64 | one id yields its first session, or no card |
| `SessionCards.MissingIdSkipped` | examples/FeaturedSessionWidget/src/index.js:64 | an id without a session yields no card and alters no other card |
| `SessionCards.DuplicateIdTwoCards` | examples/FeaturedSessionWidget/src/index.js:59-73 | an id listed twice yields two cards for the same first session |
| `SessionCards.MatchedSessionsPrefix` | examples/RegistrationWidget/widget.js:61-63 | once every featured id has a session in the front part, later sessions change no card |
| `SessionCards.CardsForSnoc` | examples/RegistrationWidget/widget.js:74-82 | one more matched session adds one card at the end, with the image of the next pop |
| `SessionCards.MatchedSessionsStep` | examples/RegistrationWidget/widget.js:69-74 | one more featured id adds its first session at the end, or nothing when it has none |
| `SessionCards.AssembleCards` | examples/RegistrationWidget/widget.js:69-85 | the loop builds one card per featured id that has a session, in featured-id order: card k holds the k-th matched session and the image of the k-th pop (undefined once the list is empty); the image list left is the original minus one pop per card |
| `RegistrationWidget.Wanted` | examples/RegistrationWidget/widget.js:53-58 | no more sessions collected than listed |
| `RegistrationWidget.WantedMembers` | examples/RegistrationWidget/widget.js:53-58 | a session is collected iff it is listed and its id is a featured, non-empty id |
| `RegistrationWidget.WantedConcat` | examples/RegistrationWidget/widget.js:51-59 | collection over concatenated pages is the concatenation of the collections, so page order and within-page order are kept |
| `RegistrationWidget.WantedSnoc` | examples/RegistrationWidget/widget.js:53-58 | one more session read is kept exactly when its id is featured and non-empty, and it goes at the end |
| `RegistrationWidget.WantedIds` | examples/RegistrationWidget/widget.js:53-58 | an id has a collected session iff it has a session in the list and is a featured, non-empty id |
| `RegistrationWidget.WantedDistinctIds` | examples/RegistrationWidget/widget.js:53-58 | collecting from sessions with distinct ids gives sessions with distinct ids |
| `RegistrationWidget.WantedIdsFeatured` | examples/RegistrationWidget/widget.js:55 | every collected id is a featured id |
| `RegistrationWidget.ScanLengthUnique` | examples/RegistrationWidget/widget.js:51-64 | the scan-length specification determines the number of pages read |
| `RegistrationWidget.ScanPages` | examples/RegistrationWidget/widget.js:51-64 | pages are read in order and whole; reading stops after the first page at which the collected count equals the featured count, or at the end of the source; a non-empty source has its first page read; the collected sessions are exactly the featured ones of the pages read, in order |
| `RegistrationWidget.KeepFeatured` | examples/RegistrationWidget/widget.js:53-58 | the loop over one page appends exactly the featured sessions of that page, in order |
| `RegistrationWidget.PrefixDistinctIds` | examples/RegistrationWidget/widget.js:51 | the pages read so far have distinct session ids when the whole source does |
| `RegistrationWidget.StopMeansAllFound` | examples/RegistrationWidget/widget.js:60-63 | with distinct session ids, passing the stop test means every featured id has a collected session |
| `RegistrationWidget.StopMeansAllSeen` | examples/RegistrationWidget/widget.js:60-63 | with distinct session ids, passing the stop test means every featured id occurs in the sessions read |
| `RegistrationWidget.AllSeenMeansStop` | examples/RegistrationWidget/widget.js:60-63 | for distinct, non-empty featured ids and distinct session ids, once every featured id has occurred the stop test passes |
| `RegistrationWidget.StopsIffAllSeen` | examples/RegistrationWidget/widget.js:60-63 | for distinct, non-empty featured ids and distinct session ids, the stop test passes iff every featured id has been seen |
| `RegistrationWidget.ScanStopsWhenAllSeen` | examples/RegistrationWidget/widget.js:51-64 | under the same conditions, no page after the first page by which all featured ids are seen is read, and all are seen in the pages read |
| `RegistrationWidget.DuplicateFeaturedNeverStops` | examples/RegistrationWidget/widget.js:53-61 | with distinct session ids and a repeated featured id, fewer sessions are collected than there are featured ids |
| `RegistrationWidget.MissingFeaturedNeverStops` | examples/RegistrationWidget/widget.js:53-61 | with distinct session ids and a featured id that has no session, fewer sessions are collected than there are featured ids |
| `RegistrationWidget.DuplicateFeaturedReadsAll` | examples/RegistrationWidget/widget.js:51-64 | with distinct session ids, a repeated featured id makes the loop read every page |
| `RegistrationWidget.MissingFeaturedReadsAll` | examples/RegistrationWidget/widget.js:51-64 | with distinct session ids, a featured id that no page holds makes the loop read every page |
| `RegistrationWidget.NothingWanted` | examples/RegistrationWidget/widget.js:55 | with no featured ids nothing is collected |
| `RegistrationWidget.EmptySelectionReadsOnePage` | examples/RegistrationWidget/widget.js:51-63 | with an empty featured list exactly the first page is read, or none when the source is empty |
| `RegistrationWidget.StoppedPrefixSameCards` | examples/RegistrationWidget/widget.js:60-72 | sessions after a prefix with distinct ids that passes the stop test change no card |
| `RegistrationWidget.EarlyStopSameCards` | examples/RegistrationWidget/widget.js:51-85 | with distinct session ids, the cards after an early stop equal the cards after reading every page |
| `RegistrationWidget.WantedSameFirstMatch` | examples/RegistrationWidget/widget.js:55 | for a featured non-empty id, the first collected session with it is the first listed one |
| `RegistrationWidget.WantedSameCards` | examples/RegistrationWidget/widget.js:69-72 | collecting first changes no card for featured non-empty ids |
| `RegistrationWidget.EarlyStopMatchesFullFlatten` | examples/RegistrationWidget/widget.js:44-85 | on the same page list, with distinct session ids and no empty featured id, the registration widget shows the same sessions as the source featured-session widget's full flatten |
| `RegistrationWidget.Widget.constructor` | examples/RegistrationWidget/widget.js:10-14 | stores the configuration and starts from the widget's stock image list |
| `RegistrationWidget.Widget.ConnectedCallback` | examples/RegistrationWidget/widget.js:31-88 | a missing id list reads as empty; pages read as `ScanPages` says; the collected sessions are stored; the children are the placeholder and the cards in featured-id order; one image is popped per card |
| `FeaturedWidget.CollectAllPages` | examples/FeaturedSessionWidget/src/index.js:52-54 | the sessions are the concatenation of all pages in order |
| `FeaturedWidget.FlattenKeepsPages` | examples/FeaturedSessionWidget/src/index.js:52-54 | page p's sessions appear, in order, between those of the earlier and of the later pages |
| `FeaturedWidget.Widget.constructor` | examples/FeaturedSessionWidget/src/index.js:13-17 | stores the configuration and starts from the stock image list |
| `FeaturedWidget.Widget.ConnectedCallback` | examples/FeaturedSessionWidget/src/index.js:32-77 | a missing id list reads as empty; all pages are stored; one card per id with a session, from the first match in the flattened order, with one pop per card |
| `FeaturedBuildWidget.LookUp` | examples/FeaturedSessionWidget/build/src/index.js:40-42 | one entry per featured id, in order: the dictionary's session, or undefined when the id is absent |
| `FeaturedBuildWidget.FirstThrow` | examples/FeaturedSessionWidget/build/src/FeaturedSession.js:5-15 | the position of the first entry holding a session without a location, or the number of entries when there is none |
| `FeaturedBuildWidget.LocatedSessionsNeverThrow` | examples/FeaturedSessionWidget/build/src/FeaturedSession.js:5-15 | ids missing from the dictionary give undefined entries, which never throw, so when every supplied session has a location no card throws |
| `FeaturedBuildWidget.BuildCards` | examples/FeaturedSessionWidget/build/src/index.js:50-58 | up to the first entry whose card throws, one card per entry: an undefined entry gives an empty card, and entry k gets the k-th popped image; the loop completes iff no card throws; the throwing entry's image is popped too |
| `FeaturedBuildWidget.Widget.constructor` | examples/FeaturedSessionWidget/build/src/index.js:10-16 | stores the configuration and starts from the stock image list |
| `FeaturedBuildWidget.Widget.ConnectedCallback` | examples/FeaturedSessionWidget/build/src/index.js:31-61 | a missing id list reads as empty; the container is attached iff no featured session lacks a location; when attached, placeholder first, then exactly one card per featured id, empty for an id with no session, with one pop per id; otherwise popping stops after the image of the first throwing card |

## Left out

- DOM construction and styling are not modelled. This covers inline styles, fonts, colours and theme fallbacks, shadow roots, `customElements.define` and `replaceChildren`. Elements are abstract values (`Element`, `RegChild`, `Card`).
- The card components' rendering (`components/FeaturedSession.js`, `build/src/FeaturedSession.js`) is not modelled. Two facts are kept: a card given no session stays empty (`EmptyCard`), and the built card throws on a session without a location (`FeaturedBuildWidget.CardThrows`).
- The card module that `src/index.js` imports (`src/FeaturedSession.js`) is not part of this model. Its cards are taken to be total, like `components/FeaturedSession.js`, which guards the location with `location?.name`. The registration widget's card guards it the same way.
- The title widget and its editor are not modelled: they only build a gradient string and forward a text input.
- Date formatting with `toLocaleString` is not modelled: it is locale and time-zone library behaviour. Session date fields are opaque strings.
- The host SDK and callbacks are inputs to the model:
  - `getSessionStatus` is a `StatusReport` parameter;
  - `pickSession` is an `ActionOutcome` parameter;
  - `getSessionGenerator` is the finite page list, with the count of pages read standing for laziness. Its sort key and page size are not modelled: both widgets ask for 20 sessions per page, but the registration widget sorts by `'dateTimeDesc'` and the source featured-session widget by `"dateTimeDsc"`. So the two widgets' page lists are compared only as the same input;
  - `getSessionDetails` is a `map`;
  - `setConfiguration` is the `published` list.
- Asynchrony and the custom-element lifecycle are modelled as ordinary sequential calls. The un-awaited re-derivation in the click handler is treated as completing within the handler. No interleaving of two clicks is modelled, and neither the source nor the model has an in-flight guard.
- The editor's session-button and colour-picker rendering is not modelled, including the pickers' initial values (`?? "#FFFFFF"` and so on). Only the highlight predicates are kept.
- The image URLs are not modelled: each widget's stock image list is a constructor parameter of opaque strings.
- JavaScript object lookups that would hit inherited properties (a featured id such as `constructor`) are not modelled: the session dictionary is a plain map.
- Statuses are compared as strings, as the source compares SDK values. Non-string statuses and `null` sub-statuses are not distinguished from other unrecognised values, which the source treats the same way.
- `RegistrationWidget.Widget`, `FeaturedWidget.Widget`, `FeaturedBuildWidget.Widget`: the configuration is always present. In the source, reading `this.configuration.featuredSessionIds` throws when the host supplies no configuration. Only the editor models that case.
- `console.dir` and `console.log` are not modelled.
