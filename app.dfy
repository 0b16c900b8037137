/** The view-state updaters of the page component: every user action replaces
    the state record by a new one built from the previous one. `n` is the
    length of the vocabulary catalog, whose contents play no part here. */
module App {
  import opened Types
  import opened JsText

  /** The state the page starts with: the first card of any non-empty catalog. */
  function Initial(): (s: ViewState)
    ensures forall n: nat | n >= 1 :: Valid(s, n)
  {
    ViewState(0, "", None, false)
  }

  /** The page opens with an editable text area and a submit button that is
      shown but disabled, because the draft is empty. */
  lemma InitialPage()
    ensures !TextareaDisabled(Initial()) && SubmitButtonShown(Initial()) && !SubmitEnabled(Initial())
  {
  }

  /** The current card index addresses an entry of a catalog of length `n`. */
  predicate Valid(s: ViewState, n: nat) {
    0 <= s.currentWordIndex < n
  }

  /** The card the page shows: the catalog entry at the current index. */
  function CurrentWord(catalog: seq<WordEntry>, s: ViewState): (w: WordEntry)
    requires Valid(s, |catalog|)
    ensures w in catalog
  {
    catalog[s.currentWordIndex]
  }

  /** JavaScript's integer division for a positive divisor: the quotient is
      truncated toward zero. */
  function JsQuot(a: int, n: int): int
    requires n >= 1
  {
    if a >= 0 then a / n else -((-a) / n)
  }

  /** JavaScript's `%` for a positive divisor: it truncates toward zero, so the
      remainder has the sign of the dividend. A dividend in `[0, n)` is its
      own remainder and one in `[n, 2n)` loses exactly `n`. */
  function JsRem(a: int, n: int): (r: int)
    requires n >= 1
    ensures 0 <= a ==> 0 <= r < n
    ensures a < 0 ==> -n < r <= 0
    ensures 0 <= a < n ==> r == a
    ensures n <= a < 2 * n ==> r == a - n
  {
    if 0 <= a < n then ModBelow(a, n); a % n
    else if n <= a < 2 * n then ModBelow(a - n, n); a % n
    else if a >= 0 then a % n
    else -((-a) % n)
  }

  lemma ModBelow(a: int, n: int)
    requires 0 <= a < n
    ensures a % n == a && (a + n) % n == a
  {
  }

  /** The remainder completes the truncated quotient back to the dividend. */
  lemma JsDivision(a: int, n: int)
    requires n >= 1
    ensures a == JsQuot(a, n) * n + JsRem(a, n)
  {
    if a < 0 {
      var b := -a;
      assert b == (b / n) * n + b % n;
    }
  }

  /** "Next": one card forward, wrapping from the last card to the first; the
      draft and the result are cleared and the loading flag is kept. */
  function NextWord(s: ViewState, n: nat): (r: ViewState)
    requires n >= 1
    ensures Valid(s, n) ==> Valid(r, n)
    ensures Valid(s, n) ==>
      r.currentWordIndex == if s.currentWordIndex + 1 < n then s.currentWordIndex + 1 else 0
    ensures r.userSentence == [] && r.evaluation == None && r.isLoading == s.isLoading
  {
    s.(currentWordIndex := JsRem(s.currentWordIndex + 1, n), userSentence := "", evaluation := None)
  }

  /** "Previous": one card back, wrapping from the first card to the last; the
      draft and the result are cleared and the loading flag is kept. */
  function PrevWord(s: ViewState, n: nat): (r: ViewState)
    requires n >= 1
    ensures Valid(s, n) ==> Valid(r, n)
    ensures Valid(s, n) ==>
      r.currentWordIndex == if s.currentWordIndex == 0 then n - 1 else s.currentWordIndex - 1
    ensures r.userSentence == [] && r.evaluation == None && r.isLoading == s.isLoading
  {
    s.(currentWordIndex := JsRem(s.currentWordIndex - 1 + n, n), userSentence := "", evaluation := None)
  }

  /** Typing in the text area: only the draft changes. */
  function EditDraft(s: ViewState, text: string): (r: ViewState)
    ensures r.userSentence == text
    ensures r.currentWordIndex == s.currentWordIndex && r.evaluation == s.evaluation
    ensures r.isLoading == s.isLoading
  {
    s.(userSentence := text)
  }

  /** The call handed to the remote evaluator: the current card (by index into
      the catalog) and the draft as typed, untrimmed. */
  datatype Request = Request(wordIndex: int, sentence: string)

  /** What pressing submit does: either it returns before touching anything,
      or it switches the state to loading and issues one request. */
  datatype SubmitStep = Ignored | Started(state: ViewState, request: Request)

  /** The first half of submitting: a blank draft is ignored; otherwise the
      loading flag is raised, nothing else in the state changes, and the
      evaluator is asked about the current card and the draft. The loading
      flag itself is not consulted. */
  function Submit(s: ViewState): (r: SubmitStep)
    ensures r.Ignored? <==> AllWhitespace(s.userSentence)
    ensures r.Started? ==>
      && r.state.isLoading
      && r.state.currentWordIndex == s.currentWordIndex
      && r.state.userSentence == s.userSentence
      && r.state.evaluation == s.evaluation
      && r.request.wordIndex == s.currentWordIndex
      && r.request.sentence == s.userSentence
  {
    if IsBlank(s.userSentence) then Ignored
    else Started(s.(isLoading := true), Request(s.currentWordIndex, s.userSentence))
  }

  /** How the awaited evaluator call ends: with a result, or with a rejected
      promise, which makes the rest of the handler never run. */
  datatype Settlement = Resolved(result: EvaluationResult) | Rejected

  /** The second half of submitting, applied to whatever the state is when the
      call ends: a result is stored exactly as received and loading stops;
      the card and the draft are left alone. A rejection changes nothing. */
  function Complete(s: ViewState, outcome: Settlement): (r: ViewState)
    ensures outcome.Resolved? ==>
      && r.evaluation == Some(outcome.result)
      && !r.isLoading
      && r.currentWordIndex == s.currentWordIndex
      && r.userSentence == s.userSentence
    ensures outcome.Rejected? ==> r == s
  {
    match outcome
    case Resolved(result) => s.(evaluation := Some(result), isLoading := false)
    case Rejected => s
  }

  /** "Try a new sentence": the result and the draft are cleared; the card and
      the loading flag are kept. */
  function Reset(s: ViewState): (r: ViewState)
    ensures r.evaluation == None && r.userSentence == []
    ensures r.currentWordIndex == s.currentWordIndex && r.isLoading == s.isLoading
  {
    s.(evaluation := None, userSentence := "")
  }

  /** The submit button accepts clicks exactly when the page is idle and the
      draft holds a character that is not whitespace. */
  predicate SubmitEnabled(s: ViewState): (r: bool)
    ensures r <==> !s.isLoading && !AllWhitespace(s.userSentence)
  {
    !s.isLoading && !IsBlank(s.userSentence)
  }

  /** The submit button is rendered only while there is no result; the reset
      button takes its place once there is one, so exactly one is on the page. */
  predicate SubmitButtonShown(s: ViewState): (r: bool)
    ensures r != ResetButtonShown(s)
  {
    s.evaluation.None?
  }

  /** "Try again" is rendered only when pressing it has something to clear. */
  predicate ResetButtonShown(s: ViewState): (r: bool)
    ensures r ==> Reset(s) != s && Reset(s).evaluation == None
  {
    s.evaluation.Some?
  }

  /** The text area refuses input while loading or while a result is shown,
      that is, while loading or while "try again" is on the page; when it
      accepts input, the submit button is there and follows the draft alone. */
  predicate TextareaDisabled(s: ViewState): (r: bool)
    ensures r <==> s.isLoading || ResetButtonShown(s)
    ensures !r ==> SubmitButtonShown(s) && (SubmitEnabled(s) <==> !AllWhitespace(s.userSentence))
  {
    s.isLoading || s.evaluation.Some?
  }

  /** Pressing an enabled submit button always starts an evaluation, and the
      button is disabled from then on until the evaluation ends. */
  lemma SubmitEnabledMeaning(s: ViewState, n: nat, text: string)
    requires n >= 1
    ensures SubmitEnabled(s) ==> Submit(s).Started?
    ensures Submit(s).Started? ==>
      && !SubmitEnabled(Submit(s).state)
      && !SubmitEnabled(NextWord(Submit(s).state, n))
      && !SubmitEnabled(PrevWord(Submit(s).state, n))
      && !SubmitEnabled(EditDraft(Submit(s).state, text))
      && !SubmitEnabled(Reset(Submit(s).state))
  {
  }

  /** Which form button is on the page follows the result: it arrives with
      "try again", navigating or resetting brings back submit, and starting an
      evaluation leaves the buttons as they were. */
  lemma ButtonSwitching(s: ViewState, n: nat, result: EvaluationResult)
    requires n >= 1
    ensures ResetButtonShown(Complete(s, Resolved(result))) && !SubmitButtonShown(Complete(s, Resolved(result)))
    ensures SubmitButtonShown(NextWord(s, n)) && !ResetButtonShown(NextWord(s, n))
    ensures SubmitButtonShown(PrevWord(s, n)) && !ResetButtonShown(PrevWord(s, n))
    ensures SubmitButtonShown(Reset(s)) && !ResetButtonShown(Reset(s))
    ensures Submit(s).Started? ==>
      && SubmitButtonShown(Submit(s).state) == SubmitButtonShown(s)
      && ResetButtonShown(Submit(s).state) == ResetButtonShown(s)
  {
  }

  /** The text area locks once submitting starts and stays locked when the
      result arrives; navigating or resetting an idle page unlocks it. */
  lemma TextareaLocking(s: ViewState, n: nat, result: EvaluationResult)
    requires n >= 1
    ensures Submit(s).Started? ==> TextareaDisabled(Submit(s).state)
    ensures TextareaDisabled(Complete(s, Resolved(result)))
    ensures !s.isLoading ==>
      !TextareaDisabled(NextWord(s, n)) && !TextareaDisabled(PrevWord(s, n)) && !TextareaDisabled(Reset(s))
  {
  }

  /** Submitting is not refused while loading: with a non-blank draft a second
      request is issued, and only the disabled button prevents it. */
  lemma SubmitWhileLoading(s: ViewState)
    requires s.isLoading && !AllWhitespace(s.userSentence)
    ensures Submit(s).Started? && Submit(s).state == s
    ensures !SubmitEnabled(s)
  {
  }

  /** Going back undoes going forward: only the draft and the result are lost. */
  lemma PrevUndoesNext(s: ViewState, n: nat)
    requires n >= 1 && Valid(s, n)
    ensures PrevWord(NextWord(s, n), n) == s.(userSentence := "", evaluation := None)
  {
  }

  /** Going forward undoes going back: only the draft and the result are lost. */
  lemma NextUndoesPrev(s: ViewState, n: nat)
    requires n >= 1 && Valid(s, n)
    ensures NextWord(PrevWord(s, n), n) == s.(userSentence := "", evaluation := None)
  {
  }

  /** `k` presses of "Next". */
  function NextTimes(s: ViewState, n: nat, k: nat): ViewState
    requires n >= 1
  {
    if k == 0 then s else NextWord(NextTimes(s, n, k - 1), n)
  }

  /** After `k <= n` presses of "Next" the card is `k` places further, wrapped
      once past the end of the catalog. */
  lemma {:induction false} NextTimesIndex(s: ViewState, n: nat, k: nat)
    requires n >= 1 && Valid(s, n) && k <= n
    ensures Valid(NextTimes(s, n, k), n)
    ensures NextTimes(s, n, k).isLoading == s.isLoading
    ensures NextTimes(s, n, k).currentWordIndex ==
      if s.currentWordIndex + k < n then s.currentWordIndex + k else s.currentWordIndex + k - n
  {
    if k > 0 {
      NextTimesIndex(s, n, k - 1);
    }
  }

  /** Pressing "Next" as many times as there are cards returns to the starting
      card, with the draft and the result cleared. */
  lemma {:induction false} NextCycle(s: ViewState, n: nat)
    requires n >= 1 && Valid(s, n)
    ensures NextTimes(s, n, n) == s.(userSentence := "", evaluation := None)
  {
    NextTimesIndex(s, n, n);
    assert NextTimes(s, n, n) == NextWord(NextTimes(s, n, n - 1), n);
  }

  /** The page has no guard against a late result: when the user moves to
      another card while an evaluation is pending, the result of the old draft
      is shown on the new card, beside an empty draft. */
  lemma StaleResultLandsOnNewCard(s: ViewState, n: nat, result: EvaluationResult)
    requires n >= 2 && Valid(s, n) && Submit(s).Started?
    ensures var after := Complete(NextWord(Submit(s).state, n), Resolved(result));
      && after.evaluation == Some(result)
      && after.currentWordIndex != s.currentWordIndex
      && after.userSentence == []
  {
  }

  /** The colour band a score is shown in. */
  datatype Band = High | Low | Middle

  /** Scores of 8 and above are high, below 5 low, and the rest middle; the
      three bands split every score without overlap. */
  function ScoreBand(score: real): (b: Band)
    ensures b == High <==> score >= 8.0
    ensures b == Low <==> score < 5.0
    ensures b == Middle <==> 5.0 <= score < 8.0
  {
    if score >= 8.0 then High else if score < 5.0 then Low else Middle
  }
}
