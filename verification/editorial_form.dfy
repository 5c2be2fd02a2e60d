/**
  The state of the editorial-generation form: the problem statement, the
  editable list of solutions, the extra instructions, the chosen model, the
  authentication token, and the editorial pane with its `generating` flag.

  The solutions list is edited by three handlers (append an empty entry,
  replace one entry, drop the last one). Submitting copies the fields into a
  request, shows a placeholder and raises `generating`; when the request
  settles, the pane shows the reply's editorial, or the error rendered as
  text, and `generating` drops.
 */
module EditorialForm {
  import opened Decimal
  import opened Prompts

  datatype Option<T> = None | Some(value: T)

  datatype Model = Mistral | Gemini

  datatype Form = Form(
    statement: string,
    solutions: seq<string>,
    humanRequest: string,
    editorial: string,
    generating: bool,
    authToken: string,
    model: Model)

  /** What the editorial pane shows before the first submission. */
  const InitialEditorial: string := "Press submit to generate the editorial..."

  /** What the editorial pane shows while a request is pending. */
  const GeneratingEditorial: string := "Generating editorial..."

  /** The request the form sends: the form's fields, copied. */
  datatype Submission = Submission(
    statement: string,
    solutions: seq<string>,
    humanRequest: string,
    authToken: string,
    model: Model)

  /** How a request settles: with the reply's editorial, or with an error rendered as text. */
  datatype Outcome = Responded(editorial: string) | Failed(error: string)

  /**
    The form when it is first shown; the token is the one stored in the
    browser, or empty when none (or an empty one) is stored.
   */
  function Initial(storedToken: Option<string>): (f: Form)
    ensures f.statement == "" && f.solutions == [] && f.humanRequest == ""
    ensures f.editorial == InitialEditorial && !f.generating && f.model == Mistral
    ensures storedToken.Some? ==> f.authToken == storedToken.value
    ensures storedToken.None? ==> f.authToken == ""
  {
    Form("", [], "", InitialEditorial, false,
         if storedToken.Some? then storedToken.value else "", Mistral)
  }

  // ---------------------------------------------------------------------------
  // The solutions list

  /** "Add a Solution": one empty entry at the end, the others untouched. */
  function AddSolution(s: seq<string>): (r: seq<string>)
    ensures |r| == |s| + 1
    ensures r[..|s|] == s && r[|s|] == ""
  {
    s + [""]
  }

  /** Editing the text area of entry `i`: only that entry changes. */
  function ChangeSolution(s: seq<string>, i: nat, value: string): (r: seq<string>)
    requires i < |s|
    ensures |r| == |s|
    ensures r[i] == value
    ensures forall k :: 0 <= k < |s| && k != i ==> r[k] == s[k]
  {
    s[i := value]
  }

  /** The delete button is enabled only when there is an entry to delete. */
  predicate DeleteEnabled(s: seq<string>) {
    |s| != 0
  }

  /** "Delete Last Solution": everything but the last entry; an empty list stays empty. */
  function DeleteLast(s: seq<string>): (r: seq<string>)
    ensures DeleteEnabled(s) ==> |r| == |s| - 1 && r == s[..|s| - 1]
    ensures !DeleteEnabled(s) ==> r == s
  {
    if |s| == 0 then s else s[..|s| - 1]
  }

  /** Deleting right after adding restores the list. */
  lemma DeleteUndoesAdd(s: seq<string>)
    ensures DeleteEnabled(AddSolution(s))
    ensures DeleteLast(AddSolution(s)) == s
  {
  }

  /** Writing an entry's old text back restores the list. */
  lemma ChangeBackRestores(s: seq<string>, i: nat, value: string)
    requires i < |s|
    ensures ChangeSolution(ChangeSolution(s, i, value), i, s[i]) == s
  {
  }

  /** Adding then deleting leaves every existing entry where it was. */
  lemma AddKeepsEntries(s: seq<string>)
    ensures forall k :: 0 <= k < |s| ==> AddSolution(s)[k] == s[k]
    ensures forall k :: 0 <= k < |s| - 1 ==> DeleteLast(s)[k] == s[k]
  {
  }

  // ---------------------------------------------------------------------------
  // Submitting

  /** Shown and pending states agree: while generating, the pane shows the placeholder. */
  predicate Consistent(f: Form) {
    f.generating ==> f.editorial == GeneratingEditorial
  }

  /** The request built from the form's fields at the moment of submission. */
  function RequestOf(f: Form): (q: Submission)
    ensures q.statement == f.statement && q.humanRequest == f.humanRequest
    ensures q.solutions == f.solutions && q.authToken == f.authToken && q.model == f.model
  {
    Submission(f.statement, f.solutions, f.humanRequest, f.authToken, f.model)
  }

  /** The form right after submission: placeholder shown, generating raised, fields kept. */
  function Submit(f: Form): (g: Form)
    ensures g.generating && g.editorial == GeneratingEditorial
    ensures g.statement == f.statement && g.solutions == f.solutions
    ensures g.humanRequest == f.humanRequest && g.authToken == f.authToken && g.model == f.model
  {
    f.(editorial := GeneratingEditorial, generating := true)
  }

  /** The text the pane shows once a request settles. */
  function OutcomeText(o: Outcome): string {
    match o
    case Responded(editorial) => editorial
    case Failed(error) => error
  }

  /** The form once a request settles: the outcome shown, generating dropped, fields kept. */
  function Finish(f: Form, o: Outcome): (g: Form)
    ensures !g.generating
    ensures o.Responded? ==> g.editorial == o.editorial
    ensures o.Failed? ==> g.editorial == o.error
    ensures g.statement == f.statement && g.solutions == f.solutions
    ensures g.humanRequest == f.humanRequest && g.authToken == f.authToken && g.model == f.model
  {
    f.(editorial := OutcomeText(o), generating := false)
  }

  // ---------------------------------------------------------------------------
  // Events

  datatype Event =
    | EditStatement(text: string)
    | AddSolutionPressed
    | EditSolution(index: nat, text: string)
    | DeleteLastPressed
    | EditHumanRequest(text: string)
    | SelectModel(choice: Model)
    | EditAuthToken(text: string)
    | SubmitPressed
    | Settled(outcome: Outcome)

  /**
    The form after one event. Text areas exist only for the present entries
    and the delete button is disabled on an empty list, so an edit out of
    range or a delete on an empty list leaves the form as it is.
   */
  function Apply(f: Form, e: Event): (g: Form)
    ensures e.SubmitPressed? ==> g == Submit(f)
    ensures e.Settled? ==> g == Finish(f, e.outcome)
    ensures !e.SubmitPressed? && !e.Settled? ==> g.editorial == f.editorial && g.generating == f.generating
    ensures e.AddSolutionPressed? ==> g == f.(solutions := AddSolution(f.solutions))
    ensures e.EditSolution? ==>
              g == if e.index < |f.solutions| then f.(solutions := ChangeSolution(f.solutions, e.index, e.text))
                   else f
    ensures e.DeleteLastPressed? ==> g == f.(solutions := DeleteLast(f.solutions))
    ensures e.DeleteLastPressed? && !DeleteEnabled(f.solutions) ==> g == f
    ensures e.EditStatement? ==> g == f.(statement := e.text)
    ensures e.EditHumanRequest? ==> g == f.(humanRequest := e.text)
    ensures e.SelectModel? ==> g == f.(model := e.choice)
    ensures e.EditAuthToken? ==> g == f.(authToken := e.text)
  {
    match e
    case EditStatement(text) => f.(statement := text)
    case AddSolutionPressed => f.(solutions := AddSolution(f.solutions))
    case EditSolution(i, text) =>
      if i < |f.solutions| then f.(solutions := ChangeSolution(f.solutions, i, text)) else f
    case DeleteLastPressed =>
      if DeleteEnabled(f.solutions) then f.(solutions := DeleteLast(f.solutions)) else f
    case EditHumanRequest(text) => f.(humanRequest := text)
    case SelectModel(m) => f.(model := m)
    case EditAuthToken(text) => f.(authToken := text)
    case SubmitPressed => Submit(f)
    case Settled(o) => Finish(f, o)
  }

  /** The form after a sequence of events, first to last. */
  function Replay(f: Form, es: seq<Event>): Form
    decreases |es|
  {
    if |es| == 0 then f else Apply(Replay(f, es[..|es| - 1]), es[|es| - 1])
  }

  lemma ApplyKeepsConsistent(f: Form, e: Event)
    requires Consistent(f)
    ensures Consistent(Apply(f, e))
  {
  }

  /** Whatever the user does, while the form is generating it shows the placeholder. */
  lemma {:induction false} ReplayKeepsConsistent(f: Form, es: seq<Event>)
    requires Consistent(f)
    ensures Consistent(Replay(f, es))
    decreases |es|
  {
    if |es| > 0 {
      ReplayKeepsConsistent(f, es[..|es| - 1]);
      ApplyKeepsConsistent(Replay(f, es[..|es| - 1]), es[|es| - 1]);
    }
  }

  lemma InitialIsConsistent(storedToken: Option<string>)
    ensures Consistent(Initial(storedToken))
    ensures Consistent(Replay(Initial(storedToken), []))
  {
  }

  /** The solutions list changes only through the three list handlers. */
  lemma OnlyListEventsChangeSolutions(f: Form, e: Event)
    requires !e.AddSolutionPressed? && !e.EditSolution? && !e.DeleteLastPressed?
    ensures Apply(f, e).solutions == f.solutions
  {
  }

  /**
    The submit button stays enabled while generating: a second submission can
    start before the first settles, and the first to settle already drops
    `generating` while the other request is still pending.
   */
  lemma OverlappingSubmissions(f: Form, first: Outcome, second: Outcome)
    ensures !Replay(f, [SubmitPressed, SubmitPressed, Settled(first)]).generating
    ensures Replay(f, [SubmitPressed, SubmitPressed, Settled(first), Settled(second)]).editorial
            == OutcomeText(second)
  {
    var es := [SubmitPressed, SubmitPressed, Settled(first), Settled(second)];
    assert es[..3] == [SubmitPressed, SubmitPressed, Settled(first)];
    assert es[..3][..2] == [SubmitPressed, SubmitPressed];
    assert es[..3][..2][..1] == [SubmitPressed];
    assert es[..3][..2][..1][..0] == [];
  }

  // ---------------------------------------------------------------------------
  // From the form to the prompt

  /** The backend request a submission arrives as: the model choice is not read by the backend. */
  function ToEditorialRequest(q: Submission): (r: EditorialRequest)
    ensures r.statement == q.statement && r.solutions == q.solutions
    ensures r.humanRequest == q.humanRequest && r.authToken == q.authToken
  {
    EditorialRequest(q.statement, q.solutions, q.humanRequest, q.authToken)
  }

  /**
    Entry `k` of the form's list reaches the prompt verbatim as solution
    `k+1` of `n`, `n` being the length of the list at submission.
   */
  lemma FormSolutionInPrompt(f: Form, k: nat, t: Texts)
    requires k < |f.solutions|
    ensures OccursAt(EditorialMessage(ToEditorialRequest(RequestOf(f)), t),
                     SolutionHeader(k + 1, |f.solutions|, t),
                     EditorialSolutionAt(ToEditorialRequest(RequestOf(f)), k, t))
    ensures OccursAt(EditorialMessage(ToEditorialRequest(RequestOf(f)), t), f.solutions[k],
                     EditorialSolutionAt(ToEditorialRequest(RequestOf(f)), k, t)
                     + |SolutionHeader(k + 1, |f.solutions|, t)|)
  {
    EditorialSolution(ToEditorialRequest(RequestOf(f)), k, t);
  }

  /**
    Adding a solution makes the prompt announce one solution more, and the
    new entry is the last block, numbered `n+1` of `n+1`.
   */
  lemma AddedSolutionInPrompt(f: Form, t: Texts)
    ensures var r := ToEditorialRequest(RequestOf(Apply(f, AddSolutionPressed)));
            && |r.solutions| == |f.solutions| + 1
            && OccursAt(EditorialMessage(r, t), NatToString(|f.solutions| + 1),
                        EditorialAt(r, t, 1) + |t.solutionCountLead|)
            && OccursAt(EditorialMessage(r, t), SolutionHeader(|f.solutions| + 1, |f.solutions| + 1, t),
                        EditorialSolutionAt(r, |f.solutions|, t))
  {
    var r := ToEditorialRequest(RequestOf(Apply(f, AddSolutionPressed)));
    EditorialSolutionCount(r, t);
    EditorialSolution(r, |f.solutions|, t);
  }
}
