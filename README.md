# Eloquently: the vocabulary page's view state

Eloquently shows one card at a time from a fixed vocabulary catalog. The user
writes an example sentence with the card's word and sends it to a remote
language-model evaluator, which returns a score, feedback, an optional
suggestion and an "excellent" flag. All of the page's behaviour lives in one
record with four fields: the card index, the draft sentence, the last
evaluation (or `null`) and a loading flag. Each user action replaces that record
with an updated copy of the previous one.

This project models that record and its updaters as pure Dafny functions over a
`ViewState` datatype. It also proves what the page relies on:

- the card index stays inside the catalog;
- "next" and "previous" undo each other, and `n` presses of "next" come back to the start;
- each action changes only the fields it names;
- a blank draft is never submitted;
- the three score bands split every score.

The catalog enters the model only through its length `n >= 1`.

Modules:

- `Types` (`types.dfy`) mirrors the records of `types.ts`: `WordEntry`, `EvaluationResult` and `ViewState`.
- `JsText` (`jstext.dfy`) models JavaScript's `String.prototype.trim`. It uses the ECMAScript WhiteSpace and LineTerminator code points, taken as single characters.
- `App` (`app.dfy`) holds the action handlers of `App.tsx` and the predicates the markup derives from the state. The submit handler is split into two functions:
  - `Submit`, the blank-draft guard plus the update that raises the loading flag and issues the request;
  - `Complete`, the update applied when the awaited call ends.
- `Session` (`session.dfy`) runs action sequences and proves what holds along them. An action reaches the state only when the page offers its control.

Behaviour taken from the code:

- JavaScript's `%` truncates toward zero. `JsRem` models it explicitly. For an index inside the catalog it agrees with the mathematical modulus.
- The submit handler never looks at the loading flag. Only the disabled button stops a second submission (`SubmitWhileLoading`).
- Raising the loading flag does not clear a result that is on show. The invariant "never loading with a result on show" (`RunKeepsConsistent`) holds only because the submit button is not rendered while a result is shown (`UngatedSubmitBreaksConsistency`).
- The completion update does not check which card is current. A late result therefore appears on whatever card the user has moved to (`StaleResultLandsOnNewCard`).
- If the awaited evaluator call rejects, the completion update never runs. The model writes this as `Settlement.Rejected`, which leaves the state unchanged, and the page then stays loading for good (`LoadingPersistsWithoutResult`). The code has no "evaluation unavailable" state and does not clear the loading flag on failure, so neither is modelled.
- Scores are JavaScript numbers, modelled as `real`. Nothing bounds them to 0..10. Nothing ties `isExcellent` to the score.

## Model

| member | source | states |
|---|---|---|
| `JsText.TrimStart` | App.tsx:37 | the result is a suffix of the input, everything dropped is whitespace, and the result does not start with whitespace |
| `JsText.TrimEnd` | App.tsx:37 | the result is a prefix of the input, everything dropped is whitespace, and the result does not end with whitespace |
| `JsText.Trim` | App.tsx:37 | `trim()` gives a slice of the input with whitespace-only text on both sides of it, and the slice neither starts nor ends with whitespace |
| `JsText.IsBlank` | App.tsx:37 | `!s.trim()`, the blank-draft test used at :37 and :133, holds exactly when every character of the draft is whitespace |
| `JsText.TrimEmptyIffAllWhitespace` | App.tsx:37 | a string trims to the empty (falsy) string exactly when every character of it is whitespace, in both directions |
| `App.Initial` | App.tsx:8-13 | the `useState` initial value (card 0, empty draft, no evaluation, not loading) is a valid state for every non-empty catalog |
| `App.InitialPage` | App.tsx:8-13 | the page opens with the text area editable and the submit button shown but disabled, because the draft is empty |
| `App.CurrentWord` | App.tsx:15 | the card shown is an entry of the catalog |
| `App.JsRem` | App.tsx:20 | JavaScript's `%` by a positive divisor: the remainder takes the dividend's sign and is smaller than the divisor in magnitude; a dividend in `[0, n)` is kept and one in `[n, 2n)` loses `n` |
| `App.JsDivision` | App.tsx:29 | the truncated quotient times the divisor, plus the remainder, gives back the dividend |
| `App.NextWord` | App.tsx:17-24 | for an index in the catalog, "next" moves one card forward and wraps from the last card to 0, staying in range; it clears the draft and the evaluation and keeps the loading flag |
| `App.PrevWord` | App.tsx:26-33 | for an index in the catalog, "previous" moves one card back and wraps from 0 to the last card, staying in range; it clears the draft and the evaluation and keeps the loading flag |
| `App.EditDraft` | App.tsx:124 | typing replaces the draft and leaves the index, the evaluation and the loading flag unchanged |
| `App.Submit` | App.tsx:35-40 | submit is ignored exactly when the draft is all whitespace; otherwise it sets the loading flag, changes no other field and requests an evaluation of the current card with the untrimmed draft |
| `App.Complete` | App.tsx:40-41 | a returned result is stored exactly as received and loading stops, with the index and the draft unchanged; a rejected call changes nothing |
| `App.Reset` | App.tsx:44-46 | "try again" clears the evaluation and the draft and keeps the index and the loading flag |
| `App.SubmitEnabled` | App.tsx:133 | the submit button is enabled (its `disabled` is false) exactly when the page is not loading and the draft has a character that is not whitespace |
| `App.TextareaDisabled` | App.tsx:126 | the text area is disabled exactly while loading or while "try again" is shown; when it is editable, the submit button is shown and is enabled exactly when the draft is not all whitespace |
| `App.SubmitButtonShown` | App.tsx:130-149 | the submit button is rendered exactly when "try again" is not, so one of the two is always on the page |
| `App.ResetButtonShown` | App.tsx:150-158 | "try again" is rendered only when pressing it changes the state, because there is a result for it to clear |
| `App.SubmitEnabledMeaning` | App.tsx:133 | pressing an enabled submit button always starts an evaluation; once started, the button is disabled, and stays so through "next", "previous", typing and "try again", until the result arrives |
| `App.ButtonSwitching` | App.tsx:130-159 | a returned result brings up "try again" in place of submit; "next", "previous" and "try again" bring back submit and hide "try again"; starting an evaluation leaves whichever button was shown |
| `App.TextareaLocking` | App.tsx:126 | the text area is locked once submitting starts and while a result is shown; "next", "previous" and "try again" on a page that is not loading unlock it |
| `App.SubmitWhileLoading` | App.tsx:35-39 | while loading, a non-blank draft still starts a second request, and the state stays as it was; only the disabled button prevents this |
| `App.PrevUndoesNext` | App.tsx:17-33 | "previous" after "next" returns to the same card and loading flag, with the draft and the evaluation cleared |
| `App.NextUndoesPrev` | App.tsx:17-33 | "next" after "previous" returns to the same card and loading flag, with the draft and the evaluation cleared |
| `App.NextTimesIndex` | App.tsx:20 | after `k <= n` presses of "next" the index is `k` further, wrapped once past the end; it stays in range and the loading flag is kept |
| `App.NextCycle` | App.tsx:20 | `n` presses of "next" return to the starting card, with only the draft and the evaluation cleared |
| `App.StaleResultLandsOnNewCard` | App.tsx:39-41 | with two or more cards, a result that arrives after the user pressed "next" is shown on the new card, beside an empty draft |
| `App.ScoreBand` | App.tsx:165-170 | a score is in the high band iff it is `>= 8`, the low band iff it is `< 5`, and the middle band iff it is in `[5, 8)`; the three bands cover every score without overlap |
| `Session.RunKeepsValid` | App.tsx:17-46 | every sequence of actions keeps the card index inside the catalog |
| `Session.ReachableValid` | App.tsx:8-46 | from the initial state no sequence of actions takes the index out of the catalog |
| `Session.ApplyKeepsConsistent` | App.tsx:124-133 | every action the page offers keeps "never loading while a result is shown" |
| `Session.Offered` | App.tsx:122-158 | a control the page offers is safe to press: an offered submit always starts an evaluation from an editable page; typing is offered only on an idle page with no result; "try again" is offered only while a result is shown |
| `Session.RunKeepsConsistent` | App.tsx:39-46 | "never loading while a result is shown" holds along every sequence of offered actions |
| `Session.UngatedSubmitBreaksConsistency` | App.tsx:130-133 | for an idle state showing a result with a non-blank draft, the submit action is not offered (its button is hidden), yet the handler itself would raise the loading flag beside the result |
| `Session.LoadingPersistsWithoutResult` | App.tsx:39-41 | once loading, no action other than a returned result clears the flag, so the submit button stays disabled and the text area locked |
| `Session.BlankDraftSession` | App.tsx:35-37 | on a fresh page, typing an empty or whitespace-only draft and pressing submit issues nothing, and the state is just the typed draft |
| `Session.SentenceSession` | App.tsx:35-41 | on a fresh page, typing a sentence with a non-whitespace character and pressing submit issues one request for card 0 with the draft as typed; once the result arrives, exactly that result is shown beside the draft and loading has stopped |

## Left out

- Markup, styling, icons and the footer year (`new Date()`) are presentation only. Of the markup, the model keeps only the predicates that decide which controls are enabled and shown, and the score band.
- The `evaluateSentence` service is not part of this model: it is a network call to a remote evaluator. Its outcome is an input to `Complete`, either an arbitrary `EvaluationResult` or a rejection.
- The contents of the vocabulary catalog are not part of this model. Only its length `n >= 1` is used, plus `CurrentWord` over an arbitrary catalog.
- React's update scheduling and the interleaving of events across the `await` are not modelled as concurrency. The begin and completion updates are two separate actions, and any action may come between them.
- `IsWhitespace` treats a string as a sequence of single characters. It does not model UTF-16 surrogate pairs; every whitespace code point lies in the Basic Multilingual Plane.
- `EvaluationResult.score` is modelled as a `real`. NaN and the infinities are not modelled. A NaN score would compare false both ways and fall into the middle band.
