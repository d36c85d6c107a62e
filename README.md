# Virtual art exhibition: the logic behind the views

This project models the three parts of the virtual exhibition app that hold sequential
logic, and proves properties of them in Dafny.

- **AI reply post-processing** (`src/utils/geminiApi.ts`). Recommendations and search build a
  numbered list of candidate artworks for the prompt. They take every maximal run of ASCII
  digits out of the model's free-text reply, keep the first 2 (recommendations) or 3
  (search) runs, map each 1-based number back to a candidate id, and drop the numbers that
  name no candidate. The reply is an input. The fixed fallback replies of a failed request
  are part of the model (`GeminiResponse.ApiOutcome`). Modules: `TextUtil` (text.dfy) holds
  the string operations: `/\d+/g`, `parseInt`, `${n}`, `substring`, `join` and its
  inverse `split`. `GeminiResponse` and `GeminiApi` are in gemini_api.dfy.
- **The 3D exhibition viewer** (`src/components/Exhibition3D.tsx`), without the graphics
  library. Module `Exhibition3D`, class `Exhibition`. The class holds:
  - the overlay state machine (entrance, category selection, exhibition hall);
  - the selected category and the index of the artwork on show;
  - the info-panel flag;
  - the frames array. Each frame is a record of its x position, the artwork it shows, the
    scale it is animated towards, and how many glow overlays it carries;
  - the spotlights in the scene, oldest first.

  Frame positions use exact `real` arithmetic. A gsap animation is modelled as setting the
  value it animates towards.
- **The global store** (`src/store/useStore.ts`). Module `UseStore`, class `Store`: three
  fields and a setter for each. The pure functions `WithDarkMode`, `WithViewedArtwork` and
  `WithCurrentExhibition` on the value `StoreState` specify the methods. `ArtworkTypes`
  holds the record shape of `src/types/artwork.ts`. `Wrappers` holds `Option`, which stands
  for `T | null` and for optional fields.

Behaviour of the code that the proofs bring out:

- `.filter(id => id !== '')` runs after `.slice(0, 2)`. A reply whose first number is out
  of range therefore yields fewer ids; a later valid number does not take its place.
- A repeated number yields its id twice.
- A real candidate whose id is the empty string is dropped as well.
- Selecting a category adds a new spotlight, and the scene reset never removes lights.
  `updateArtworkHighlight` moves the first spotlight found, which is the oldest one: after
  a second category selection, the spotlight that follows the highlighted frame is the
  first one added, and the newest stays aimed at frame 0.
- `updateArtworkHighlight` removes at most one glow from each frame that is not current.
  The image `onload` handler gives frame 0 a glow without checking for one already there.
  Highlighting frame 0 and then letting its picture load leaves frame 0 with two glows.
  Moving on to frame 1 leaves frame 0 still glowing until the effect re-highlights frame 1
  after its 50 ms timer; that removes the last glow (`ImageLoadGlowIsTransient`). The glow
  that lasts comes from the other order: the visitor moves on to frame 1 before frame 0's
  picture has loaded. The load then gives frame 0 a glow beside frame 1's, and no
  highlight follows, because the index does not change (`LateImageLoadLeavesTwoGlows`).
  Apart from the load handler, "each frame carries at most one glow" is preserved, and
  after a highlight exactly the current frame glows.
- A `selectedCategory` of `""` counts as no category, as JavaScript's truthiness makes it.

## Model

| member | source | states |
|---|---|---|
| TextUtil.LeadingDigits | src/utils/geminiApi.ts:119 | the result is the longest all-digit prefix: a prefix of the input, all digits, followed by a non-digit or the end |
| TextUtil.DigitRuns | src/utils/geminiApi.ts:119 | every run `match(/\d+/g)` returns is non-empty and made of ASCII digits |
| TextUtil.DigitRunsEmptyIff | src/utils/geminiApi.ts:119 | the match list, with its empty-array fallback, is empty exactly when the reply has no digit |
| TextUtil.DigitRunsOfDigits | src/utils/geminiApi.ts:119 | a non-empty digit string is matched as one single run |
| TextUtil.LeadingDigitsStopsAt | src/utils/geminiApi.ts:119 | a run ends at the first non-digit: what follows does not change it |
| TextUtil.DigitRunsSeparated | src/utils/geminiApi.ts:119 | a non-digit separates: the runs of `a c b` are the runs of a followed by those of b |
| TextUtil.DigitRunsKeepEveryDigit | src/utils/geminiApi.ts:119 | the runs, concatenated, are exactly the digits of the reply in order: none lost, none invented |
| TextUtil.DecimalValue | src/utils/geminiApi.ts:125 | `parseInt` of a digit run is 0 exactly when every digit is '0' |
| TextUtil.DecimalValueLeadingZero | src/utils/geminiApi.ts:125 | `parseInt` ignores a leading zero: "0" followed by s reads as s |
| TextUtil.NatToString | src/utils/geminiApi.ts:97 | `${index + 1}` is a non-empty digit string with no leading zero that parses back to the number |
| TextUtil.Prefix | src/utils/geminiApi.ts:97 | `substring(0, 100)` is the first 100 characters, or the whole text when shorter |
| TextUtil.Join | src/utils/geminiApi.ts:99 | `join('\n')` of no line is empty; otherwise it starts with the first line, followed by the separator when more lines follow |
| TextUtil.SplitJoin | src/utils/geminiApi.ts:95-99 | joining newline-free lines with `'\n'` can be undone: splitting gives back the same lines |
| GeminiResponse.ResponseText | src/utils/geminiApi.ts:35-44 | an answered request gives the model's text; a non-ok response and a thrown error give their fixed apologies, which contain no digit and so no run |
| GeminiResponse.NotOkReplyHasNoDigits | src/utils/geminiApi.ts:37 | the non-ok apology contains no ASCII digit |
| GeminiResponse.ThrownReplyHasNoDigits | src/utils/geminiApi.ts:43 | the error apology contains no ASCII digit |
| GeminiApi.OtherArtworks | src/utils/geminiApi.ts:89-91 | no candidate has the current artwork's title, and there are no more candidates than available artworks |
| GeminiApi.OtherArtworksCounts | src/utils/geminiApi.ts:89-91 | each artwork with another title is kept exactly as often as it occurs; those with the current title are all removed |
| GeminiApi.OtherArtworksAppend | src/utils/geminiApi.ts:89-91 | the filter keeps the order: it distributes over concatenation |
| GeminiApi.RecommendationLine | src/utils/geminiApi.ts:95-98 | a recommendation line opens with `N. ` and ends with the first 100 characters of the description followed by `...`; it has no newline when the shown fields and that excerpt have none |
| GeminiApi.SearchLine | src/utils/geminiApi.ts:171-174 | a search line opens with `N. ` and has no newline when the artwork's fields have none |
| GeminiApi.RecommendationListing | src/utils/geminiApi.ts:95-99 | no candidate, no text; otherwise, with no newline in the shown fields, splitting at newlines gives exactly the numbered candidate lines in candidate order |
| GeminiApi.SearchListing | src/utils/geminiApi.ts:171-175 | no artwork, no text; otherwise, with no newline in the fields, splitting at newlines gives exactly the numbered search lines in order |
| GeminiApi.IdForRun | src/utils/geminiApi.ts:124-129 | a number from 1 to the candidate count maps to that candidate's id (counting from 1); any other number, 0 included, maps to `''` |
| GeminiApi.IdsForRunsAppend | src/utils/geminiApi.ts:124-129 | the mapping works position by position: it distributes over concatenation |
| GeminiApi.NonEmptyIds | src/utils/geminiApi.ts:130 | no empty id remains, and every non-empty id is kept as often as it occurs |
| GeminiApi.NonEmptyIdsMembers | src/utils/geminiApi.ts:130 | an id is in the result exactly when it was in the input and is not empty |
| GeminiApi.NonEmptyIdsAppend | src/utils/geminiApi.ts:130 | the filter keeps the order: it distributes over concatenation |
| GeminiApi.NonEmptyIdsShorter | src/utils/geminiApi.ts:122-130 | a dropped id shortens the result |
| GeminiApi.SelectIds | src/utils/geminiApi.ts:122-130 | at most `limit` ids; each is non-empty and is named by one of the first `limit` runs; every valid run among them contributes its id |
| GeminiApi.SelectIdsIgnoresLaterRuns | src/utils/geminiApi.ts:122-123 | runs after the first `limit` have no effect |
| GeminiApi.SelectIdsInReplyOrder | src/utils/geminiApi.ts:122-130 | ids come out in the order their numbers appear in the reply |
| GeminiApi.SelectIdsSingleRun | src/utils/geminiApi.ts:124-130 | one number gives its candidate's id, or nothing when out of range |
| GeminiApi.InvalidEarlyRunIsNotReplaced | src/utils/geminiApi.ts:122-130 | an invalid number among the first `limit` leaves the result shorter than `limit` |
| GeminiApi.RepeatedNumberRepeatsId | src/utils/geminiApi.ts:119-130 | a number given twice yields its id twice: there is no deduplication |
| GeminiApi.CandidateIdsComeFrom | src/utils/geminiApi.ts:124-129 | every selected id is the id of some candidate |
| GeminiApi.Recommendations | src/utils/geminiApi.ts:89-130 | at most 2 ids; none when no other artwork remains or the reply has no digit; each id belongs to an available artwork whose title differs from the current one |
| GeminiApi.SearchResults | src/utils/geminiApi.ts:190-201 | at most 3 ids; none when nothing is available or the reply has no digit; each id belongs to an available artwork |
| GeminiApi.GetSimilarArtworkRecommendations | src/utils/geminiApi.ts:73-131 | a failed request recommends nothing; an answered one gives the recommendations for its text |
| GeminiApi.SearchArtworksByDescription | src/utils/geminiApi.ts:161-202 | a failed request finds nothing; an answered one gives the search results for its text |
| GeminiApi.NumberSelectsItsLine | src/utils/geminiApi.ts:119-129 | a reply that is exactly the number k selects candidate k and nothing else |
| GeminiApi.RecommendationListingNumbering | src/utils/geminiApi.ts:95-99 | the listing has one line per candidate; line k describes candidate k, opens with `k. `, and k maps back to that candidate's id |
| GeminiApi.SearchListingNumbering | src/utils/geminiApi.ts:171-175 | the same agreement between line numbers and ids for the search listing |
| GeminiApi.TwoNumberReplyRuns | src/utils/geminiApi.ts:119 | the reply `"i,j"` asked for in the prompt holds exactly the runs i and j |
| GeminiApi.TwoNumberReplySelectsBoth | src/utils/geminiApi.ts:113-130 | a reply `"i,j"` selects candidates i and j in that order |
| GeminiApi.TwoNumberReply | src/utils/geminiApi.ts:109-130 | a reply `"i,j"` recommends the i-th and j-th other artworks in that order |
| Exhibition3D.FrameX | src/components/Exhibition3D.tsx:563 | the n frames lie within the span centred on x = 0, and the middle frame of an odd row sits at the centre |
| Exhibition3D.FrameSpacing | src/components/Exhibition3D.tsx:563 | neighbouring frames are 5 units apart |
| Exhibition3D.FrameSymmetry | src/components/Exhibition3D.tsx:563 | the row is centred: frame i mirrors frame n-1-i |
| Exhibition3D.Layout | src/components/Exhibition3D.tsx:561-586 | the new frames: one per artwork; frame i shows artwork i at its layout position; only frame 0 starts enlarged; no glow, no picture yet |
| Exhibition3D.Highlighted | src/components/Exhibition3D.tsx:350-397 | positions, artworks and pictures stay; frame k is sent to scale 1.1 and every other frame to 1; frame k keeps its glows or gets one if it has none; every other frame loses exactly one glow if it has any; with at most one glow per frame before, exactly frame k glows afterwards |
| Exhibition3D.HighlightIdempotent | src/components/Exhibition3D.tsx:346-397 | with at most one glow per frame, highlighting the same frame again changes nothing |
| Exhibition3D.HighlightForgetsHistory | src/components/Exhibition3D.tsx:346-397 | with at most one glow per frame, the outcome of a highlight does not depend on the frame highlighted before |
| Exhibition3D.RetargetSpotlight | src/components/Exhibition3D.tsx:399-424 | only the first spotlight of the scene moves, onto frame k's x with its target; if k names no frame nothing moves |
| Exhibition3D.AfterImageLoad | src/components/Exhibition3D.tsx:592-633 | the load attaches the picture to frame i and keeps its position, artwork and scale; it leaves other frames alone, and adds a glow to frame 0 whether or not it has one |
| Exhibition3D.ImageLoadGlowIsTransient | src/components/Exhibition3D.tsx:607-631 | highlight frame 0 and load its picture: frame 0 has two glows; go to frame 1: frames 0 and 1 both glow; the effect's re-highlight of frame 1: only frame 1 glows |
| Exhibition3D.LateImageLoadLeavesTwoGlows | src/components/Exhibition3D.tsx:607-631 | move to frame 1 (pre-highlight and effect), then frame 0's picture loads: frames 0 and 1 both glow, frame 1 alone enlarged |
| Exhibition3D.BackAndForthScenario | src/components/Exhibition3D.tsx:346-424 | with three frames, showing frame 2 and then frame 0 leaves frame 0 glowing and enlarged, frame 2 plain, and the spotlight on frame 0 |
| Exhibition3D.Exhibition.constructor | src/components/Exhibition3D.tsx:127-131 | the first render: entrance, no category, index 0, panel closed, no frames, no spotlight |
| Exhibition3D.Exhibition.StartTour | src/components/Exhibition3D.tsx:434-435 | the state becomes category selection |
| Exhibition3D.Exhibition.ReturnToCategorySelection | src/components/Exhibition3D.tsx:446-449 | state category selection, no category, panel closed |
| Exhibition3D.Exhibition.ToggleArtworkInfo | src/components/Exhibition3D.tsx:288-290 | the panel flag flips |
| Exhibition3D.Exhibition.HandleCategorySelect | src/components/Exhibition3D.tsx:460-587 | the category is selected, index 0, hall shown, panel closed; the frames are the category's new layout; one spotlight is added, aimed at the first frame |
| Exhibition3D.Exhibition.UpdateArtworkHighlight | src/components/Exhibition3D.tsx:346-426 | with no frames or no category nothing changes; otherwise the frames become the highlight of frame newIndex and the first spotlight follows it |
| Exhibition3D.Exhibition.HighlightCurrentArtwork | src/components/Exhibition3D.tsx:429-431 | the highlight of the frame at the current index |
| Exhibition3D.Exhibition.HighlightEffect | src/components/Exhibition3D.tsx:641-650 | in the hall with a category selected, the current frame is highlighted; otherwise nothing changes |
| Exhibition3D.Exhibition.GoToNextArtwork | src/components/Exhibition3D.tsx:293-318 | no-op without a category or at the last artwork; otherwise the next frame is highlighted, the index goes up by one and the panel opens |
| Exhibition3D.Exhibition.GoToPrevArtwork | src/components/Exhibition3D.tsx:321-343 | no-op without a category or at index 0; otherwise the previous frame is highlighted, the index goes down by one and the panel opens |
| Exhibition3D.Exhibition.OnImageLoad | src/components/Exhibition3D.tsx:592-633 | the frames after frame i's picture has loaded |
| Exhibition3D.Exhibition.IndexInRange | src/components/Exhibition3D.tsx:724-798 | with no empty category, a selected category's index is inside it, so the panel's lookups and the counter are in range |
| Exhibition3D.SourceCatalogCoversCategories | src/components/Exhibition3D.tsx:9-113 | every category button leads to a category of three artworks; no category is empty |
| UseStore.WithDarkMode | src/store/useStore.ts:18 | the mode is the given one; the history and the exhibition are unchanged |
| UseStore.WithViewedArtwork | src/store/useStore.ts:19-22 | the history grows by one, keeps its old entries in place, and ends with the artwork; the other fields are unchanged |
| UseStore.WithCurrentExhibition | src/store/useStore.ts:23 | the exhibition is the given id, null included; the other fields are unchanged |
| UseStore.DarkModeIdempotent | src/store/useStore.ts:18 | setting the same mode twice is setting it once |
| UseStore.DarkModeLastWins | src/store/useStore.ts:18 | of two mode settings, only the last counts |
| UseStore.CurrentExhibitionIdempotent | src/store/useStore.ts:23 | setting the same exhibition twice is setting it once |
| UseStore.ActionsOnDistinctFieldsCommute | src/store/useStore.ts:18-23 | any two different actions commute |
| UseStore.ViewingTwiceRecordsTwice | src/store/useStore.ts:19-22 | viewing an artwork twice records it twice |
| UseStore.ViewedArtworksInOrder | src/store/useStore.ts:19-22 | a series of views appends exactly those artworks in viewing order and touches nothing else |
| UseStore.Store.constructor | src/store/useStore.ts:13-16 | the store starts in light mode, with nothing viewed and no exhibition |
| UseStore.Store.SetDarkMode | src/store/useStore.ts:18 | the new state is WithDarkMode of the old one |
| UseStore.Store.AddViewedArtwork | src/store/useStore.ts:19-22 | the new state is WithViewedArtwork of the old one |
| UseStore.Store.SetCurrentExhibition | src/store/useStore.ts:23 | the new state is WithCurrentExhibition of the old one |

## Left out

- `getGeminiResponse`'s HTTP request, JSON decoding and logging (src/utils/geminiApi.ts:9-45) are I/O. Only their three outcomes are modelled: answered with a text, a non-ok response, an exception. A malformed answer body that throws counts as the exception.
- The prose of the prompts is left out, and so is the `query` of `searchArtworksByDescription`. Neither affects the post-processing: both only reach the model through the prompt.
- `getArtworkInsights` and `getArtworkVoiceResponse` only build a prompt and return the reply unchanged. They have no logic beyond `ResponseText`.
- GeminiApi.IdForRun: `parseInt` yields a double; the model uses the exact integer. They differ only beyond 2^53, which is out of range either way.
- Strings are sequences of Dafny characters; UTF-16 code units are not told apart. `\d` matches ASCII digits only.
- three.js is left out: the renderer, the controls, the resize handler, the animation loop, the cleanup traversal, materials and geometry. So are the walls, floor, carpet and the other lights. Only the frames and the spotlights are kept.
- gsap durations, easing and the pulsing glow opacity are timing and floating point. The model keeps only each animation's target value.
- The camera moves, and the save/restore of the camera position in the navigation handlers, are left out: they are three.js state with no effect on the modelled state.
- Audio (`toggleAudio` and the ambient `Audio` element) is browser I/O.
- Exhibition3D.Exhibition.HandleCategorySelect: its scene reset is modelled as "frames replaced, lights kept". The code removes children from `scene.children` while iterating it with `forEach`, and how many non-light children that actually removes depends on three.js `remove`.
- Exhibition3D.Exhibition.HandleCategorySelect requires the scene to exist (the mount effect has run) and the category id to be a key of the artworks table. The buttons only pass keys of the table.
- A picture still loading from a previously selected category attaches to a frame that is no longer in the frames array; `OnImageLoad` only models loads for current frames.
- React scheduling is left out: the ordering of state updates across renders, the 50 ms timer's cancellation, and the callbacks' captured values. `HighlightEffect` is the effect's body once its timer fires.
- The JSX markup is presentation; only the guards of the info panel, the counter and the buttons are reflected, in `IndexInRange` and the navigation guards.
