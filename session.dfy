/** Sequences of user actions over the view state, and what stays true along
    them. Clicking a control the page does not offer (a disabled button, a
    button not rendered, a locked text area) delivers no action. */
module Session {
  import opened Types
  import opened JsText
  import opened App

  /** One event the page reacts to; `Settle` is the end of a pending
      evaluator call. */
  datatype Action =
    | Next
    | Prev
    | Edit(text: string)
    | Press
    | Settle(outcome: Settlement)
    | TryAgain

  /** The state after one action. */
  function Apply(s: ViewState, n: nat, a: Action): ViewState
    requires n >= 1
  {
    match a
    case Next => NextWord(s, n)
    case Prev => PrevWord(s, n)
    case Edit(text) => EditDraft(s, text)
    case Press => var step := Submit(s); if step.Started? then step.state else s
    case Settle(outcome) => Complete(s, outcome)
    case TryAgain => Reset(s)
  }

  /** The state after a sequence of actions, applied in order. */
  function Run(s: ViewState, n: nat, acts: seq<Action>): ViewState
    requires n >= 1
    decreases |acts|
  {
    if acts == [] then s else Run(Apply(s, n, acts[0]), n, acts[1..])
  }

  /** Every action keeps the card index inside the catalog. */
  lemma {:induction false} RunKeepsValid(s: ViewState, n: nat, acts: seq<Action>)
    requires n >= 1 && Valid(s, n)
    ensures Valid(Run(s, n, acts), n)
    decreases |acts|
  {
    if acts != [] {
      RunKeepsValid(Apply(s, n, acts[0]), n, acts[1..]);
    }
  }

  /** From the initial state, no sequence of actions ever leaves the catalog. */
  lemma ReachableValid(n: nat, acts: seq<Action>)
    requires n >= 1
    ensures Valid(Run(Initial(), n, acts), n)
  {
    RunKeepsValid(Initial(), n, acts);
  }

  /** The page offers the action: submitting needs the submit button rendered
      and enabled, typing needs the text area unlocked, "try again" needs its
      button rendered. Navigation is always there, and a pending call may end
      at any moment. */
  predicate Offered(s: ViewState, a: Action): (r: bool)
    ensures r && a.Press? ==> Submit(s).Started? && !TextareaDisabled(s)
    ensures r && a.Edit? ==> !s.isLoading && s.evaluation == None
    ensures r && a.TryAgain? ==> s.evaluation.Some?
  {
    match a
    case Press => SubmitButtonShown(s) && SubmitEnabled(s)
    case Edit(_) => !TextareaDisabled(s)
    case TryAgain => ResetButtonShown(s)
    case _ => true
  }

  predicate AllOffered(s: ViewState, n: nat, acts: seq<Action>)
    requires n >= 1
    decreases |acts|
  {
    acts == [] || (Offered(s, acts[0]) && AllOffered(Apply(s, n, acts[0]), n, acts[1..]))
  }

  /** A result is never on show while an evaluation is pending. */
  predicate Consistent(s: ViewState) {
    !(s.isLoading && s.evaluation.Some?)
  }

  lemma ApplyKeepsConsistent(s: ViewState, n: nat, a: Action)
    requires n >= 1 && Consistent(s) && Offered(s, a)
    ensures Consistent(Apply(s, n, a))
  {
  }

  /** Along any sequence of actions the page offers, a result and the loading
      flag are never both present. */
  lemma {:induction false} RunKeepsConsistent(s: ViewState, n: nat, acts: seq<Action>)
    requires n >= 1 && Consistent(s) && AllOffered(s, n, acts)
    ensures Consistent(Run(s, n, acts))
    decreases |acts|
  {
    if acts != [] {
      ApplyKeepsConsistent(s, n, acts[0]);
      RunKeepsConsistent(Apply(s, n, acts[0]), n, acts[1..]);
    }
  }

  /** That invariant rests on the page hiding the submit button: called while
      a result is on show, the submit handler itself raises the loading flag
      beside it. */
  lemma UngatedSubmitBreaksConsistency(s: ViewState, n: nat)
    requires n >= 1 && !s.isLoading && s.evaluation.Some? && !AllWhitespace(s.userSentence)
    ensures Consistent(s) && !Offered(s, Press)
    ensures !Consistent(Apply(s, n, Press))
  {
  }

  predicate Resolves(a: Action) {
    a.Settle? && a.outcome.Resolved?
  }

  /** Only a result clears the loading flag: if the pending call is rejected,
      no other action ever clears it, so the submit button stays disabled and
      the text area stays locked for the rest of the session. */
  lemma {:induction false} LoadingPersistsWithoutResult(s: ViewState, n: nat, acts: seq<Action>)
    requires n >= 1 && s.isLoading
    requires forall i | 0 <= i < |acts| :: !Resolves(acts[i])
    ensures Run(s, n, acts).isLoading
    ensures !SubmitEnabled(Run(s, n, acts)) && TextareaDisabled(Run(s, n, acts))
    decreases |acts|
  {
    if acts != [] {
      assert !Resolves(acts[0]);
      LoadingPersistsWithoutResult(Apply(s, n, acts[0]), n, acts[1..]);
    }
  }

  /** A fresh session in which the user types a blank draft and presses
      submit: nothing is issued and the page keeps just the typed draft. */
  lemma BlankDraftSession(n: nat, draft: string)
    requires n >= 1 && AllWhitespace(draft)
    ensures Submit(EditDraft(Initial(), draft)).Ignored?
    ensures Apply(Apply(Initial(), n, Edit(draft)), n, Press) == EditDraft(Initial(), draft)
  {
  }

  /** A fresh session in which the user types a real sentence, presses submit
      and receives a result: one request is issued for the first card with the
      draft as typed, and at the end exactly that result is shown beside the
      draft, with loading stopped. */
  lemma SentenceSession(n: nat, draft: string, result: EvaluationResult)
    requires n >= 1 && !AllWhitespace(draft)
    ensures Submit(EditDraft(Initial(), draft)) == Started(ViewState(0, draft, None, true), Request(0, draft))
    ensures Apply(Apply(Apply(Initial(), n, Edit(draft)), n, Press), n, Settle(Resolved(result)))
         == ViewState(0, draft, Some(result), false)
  {
  }
}
