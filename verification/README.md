# LLM_Editorial — a Dafny model of its deterministic core

LLM_Editorial is a web tool that asks a language-model agent to write an
editorial, or a C++ solution, for a competitive-programming problem. Around
the form and network plumbing sit three pieces of deterministic logic, which
this project models and proves properties of:

- **The background animation** (`frontend/src/Animation.tsx`). Thirty
  particles drift over the page. On every frame each particle first reflects
  its velocity on any axis where its previous position lies outside the
  viewport, and then moves by that velocity. Every pair `i < j` of moved
  particles closer than 200 units is then joined by a segment of opacity
  `sqrt(1 - d / 200)`. Modules `Motion` (`motion.dfy`) and `Proximity`
  (`proximity.dfy`).
- **The prompt builders and the token gate** (`backend/main.py`). The
  editorial and source-code requests are turned into the single user message
  sent to the agent. User text is wrapped verbatim between `[START]` and
  `[END]` markers. Solutions are numbered `k/n`. The solution count, the
  human request and the solutions section appear only when non-empty. Both
  handlers answer 401 to any token outside the allowed set `{""}` before
  building anything. Modules `Decimal` (`decimal.dfy`, the decimal rendering of
  the counts), `Prompts` (`prompts.dfy`) and `Endpoints` (`endpoints.dfy`).
- **The editorial form** (`frontend/src/GenerateEditorial.tsx`). The
  solutions list is edited by append-empty, replace-one and drop-last
  handlers. Submitting shows a placeholder and raises `generating`; when the
  request settles, the form shows the result and drops the flag. Module
  `EditorialForm` (`editorial_form.dfy`), which also connects the form's list
  to the solution numbering in the prompt.

Modelling choices:

- Coordinates are exact reals. The square root is a parameter `sqrt`, and
  `Proximity.IsSqrt` requires it to be non-negative and to square back to its
  argument. Its monotonicity is proved, not assumed.
- The random initial draw becomes the precondition `Motion.ValidInitial`.
- The agent is a parameter `agent: AgentCall -> AgentReply`: for each
  conversation it either completes with a text reply or fails. A failure
  stands for the client raising, a reply without a choice, or a content that
  is not a string; each of these makes the backend answer HTTP 500.
- The prompt builders' fixed sentences are gathered in the record
  `Prompts.Texts`. `Prompts.Fixed` holds the backend's exact wording, and
  `Prompts.EditorialPrompt` and `Prompts.SourceCodePrompt` build the deployed
  messages with it. The layout lemmas and the handlers take the wording as a
  parameter `t`, so every property holds for the deployed wording in
  particular, and the proofs never depend on the letters of the long sentences.
- Each part of a message is located by its offset. `Prompts.OccursAt(s, piece, k)`
  says that `piece` is found in `s` at index `k`. A message is the
  concatenation `Prompts.Concat` of its parts in append order.
  `Prompts.EditorialAt(r, t, k)` and `Prompts.SourceCodeAt(r, t, k)` are the
  offsets where part `k` begins.
- The code and the description of the system differ in two places; the
  model follows the code:
  - Velocities are drawn as `Math.random() * 2 - 1`, so from `[-1, 1)`, not
    `[-1, 1]`.
  - A zero-sized viewport is not reported as misuse; the draw simply puts
    every particle at `0` on that axis, and the model covers that case.

## Model

| member | source | states |
|---|---|---|
| Motion.Bounce | frontend/src/Animation.tsx:35-40 | the velocity component is negated exactly when the coordinate is strictly outside `[0, bound]`, and its magnitude is unchanged |
| Motion.Step | frontend/src/Animation.tsx:32-46 | each component of the velocity flips exactly when the pre-step coordinate on its axis is out of range; the new position is the old one plus the new velocity; speeds are kept |
| Motion.Tick | frontend/src/Animation.tsx:31-46 | one tick keeps the particle count and particle `i` becomes exactly `Step` of particle `i` |
| Motion.StepAll | frontend/src/Animation.tsx:31-46 | the in-place loop that overwrites slot `i` with its stepped particle computes the same sequence as `Tick`: each iteration writes only its own slot |
| Motion.Run | frontend/src/Animation.tsx:29-46 | any number of ticks keeps the particle count |
| Motion.RunIsPointwise | frontend/src/Animation.tsx:31-46 | after `n` ticks particle `i` is particle `i` stepped `n` times on its own, independent of the others |
| Motion.InitialIsContained | frontend/src/Animation.tsx:19-27 | a freshly drawn particle is contained and its speed is at most 1 on each axis |
| Motion.StepKeepsAxisContained | frontend/src/Animation.tsx:35-46 | on one axis, being inside `[0, bound]` or just outside and still moving outward is preserved by a reflect-then-move step |
| Motion.StepKeepsContained | frontend/src/Animation.tsx:35-46 | a step preserves containment on both axes |
| Motion.StepNKeepsSpeed | frontend/src/Animation.tsx:35-40 | after any number of steps each velocity component has its original magnitude |
| Motion.StepNKeepsContained | frontend/src/Animation.tsx:35-46 | containment holds after any number of steps |
| Motion.AxisContainedBound | frontend/src/Animation.tsx:35-46 | a contained coordinate is at most one step beyond either edge |
| Motion.RunInvariants | frontend/src/Animation.tsx:13-46 | from any start the draw can produce, after any number of ticks there are still 30 particles; each keeps its initial speeds, within `[-1, 1]`; each is contained and at most one unit outside the viewport |
| Motion.LateReflectionExample | frontend/src/Animation.tsx:35-46 | `x = -3, dx = -2` becomes `dx = 2, x = -1`: the reflection uses the pre-step position and precedes the move |
| Motion.EdgeDoesNotReflect | frontend/src/Animation.tsx:35-40 | a coordinate exactly `0` or exactly the viewport size does not reflect |
| Proximity.PairsFromMembers | frontend/src/Animation.tsx:54-55 | the rows from `i` on visit exactly the pairs `i <= p.i < p.j < n` |
| Proximity.PairsFromLength | frontend/src/Animation.tsx:54-55 | the rows from `i` on visit `(n - i)(n - i - 1) / 2` pairs |
| Proximity.SortedConcat | frontend/src/Animation.tsx:54-55 | two sorted runs whose elements are ordered across remain sorted when appended |
| Proximity.PairsFromSorted | frontend/src/Animation.tsx:54-55 | the rows visit pairs in strictly increasing row-major order |
| Proximity.AllPairsEnumeration | frontend/src/Animation.tsx:54-55 | the loop visits exactly the pairs `0 <= i < j < n`, each once, in row-major order, `n (n - 1) / 2` of them |
| Proximity.Draw | frontend/src/Animation.tsx:29-73 | a frame moves every particle by `Step` and computes its edges from the moved positions |
| Proximity.SquaredDistanceNonNegative | frontend/src/Animation.tsx:56-59 | the sum of squared coordinate differences is non-negative |
| Proximity.SqrtStrictlyMonotone | frontend/src/Animation.tsx:56-59 | any square root is strictly increasing on the non-negative reals |
| Proximity.SqrtOfSquare | frontend/src/Animation.tsx:56-59 | the square root of `c * c` is `c` for non-negative `c` |
| Proximity.ConnectedIffSquared | frontend/src/Animation.tsx:56-61 | the distance is below the cutoff exactly when the squared distance is below `200 * 200` |
| Proximity.AlphaRange | frontend/src/Animation.tsx:61-67 | below the cutoff the coefficient `1 - d / 200` and its square root are in `(0, 1]` |
| Proximity.AlphaDecreasing | frontend/src/Animation.tsx:66-67 | a larger distance below the cutoff gives a strictly smaller opacity |
| Proximity.ConnectedEdgesSound | frontend/src/Animation.tsx:54-67 | every edge comes from a visited pair that passes the distance test and carries that pair's distance and opacity |
| Proximity.ConnectedEdgesComplete | frontend/src/Animation.tsx:54-61 | every visited pair that passes the distance test yields an edge |
| Proximity.SortedTail | frontend/src/Animation.tsx:54-55 | dropping the first pair keeps a sorted run sorted |
| Proximity.ConnectedEdgesSorted | frontend/src/Animation.tsx:54-61 | edges are produced in the order their pairs are visited |
| Proximity.SortedElementsCount | frontend/src/Animation.tsx:54-55 | a strictly sorted run has no repeats: as many distinct pairs as entries |
| Proximity.EdgesMatchReference | frontend/src/Animation.tsx:54-61 | a pair gets an edge exactly when `i < j` and its squared distance is below `200 * 200`, as in the brute-force reference set |
| Proximity.EdgesCount | frontend/src/Animation.tsx:54-61 | the edges come in visiting order with no pair twice, and there are exactly as many as pairs in the reference set |
| Proximity.EdgeFacts | frontend/src/Animation.tsx:54-67 | every edge joins two existing particles `i < j`, has their Euclidean distance, below the cutoff, and opacity `sqrt(1 - d / 200)` in `(0, 1]` |
| Proximity.NearPairScenario | frontend/src/Animation.tsx:54-67 | particles at `(0, 0)` and `(100, 0)` are joined by one edge with distance 100 and opacity `sqrt(0.5)` |
| Proximity.FarPairScenario | frontend/src/Animation.tsx:54-61 | particles at `(0, 0)` and `(300, 0)` are not joined |
| Decimal.NatToString | backend/main.py:30 | the decimal rendering of a count is a non-empty digit string without a leading zero |
| Decimal.ParseNatToString | backend/main.py:30 | reading the rendering back gives the number |
| Decimal.NatToStringInjective | backend/main.py:30 | different counts render differently |
| Prompts.Extend | backend/main.py:27-54 | text already in the message stays where it is as more is appended |
| Prompts.Within | backend/main.py:39-44 | text inside a piece of the message is found in the message at the combined offset |
| Prompts.Append | backend/main.py:27-54 | appending keeps the first text at the start and puts the second right after it |
| Prompts.LocatePieces | backend/main.py:36 | a piece made of three texts holds each at the length of those before it |
| Prompts.NextPartAt | backend/main.py:27-54 | each appended part begins where the previous one ends |
| Prompts.ConcatLength | backend/main.py:27-54 | the message ends where the last part ends |
| Prompts.PartOccurs | backend/main.py:27-54 | every appended part is found verbatim at the total length of the parts before it |
| Prompts.PartWithin | backend/main.py:38-44 | where the solution blocks are found together, each block is found at its own offset from there |
| Prompts.HeaderPieces | backend/main.py:41 | in a text made of five pieces, the second and the fourth are found after the pieces before them |
| Prompts.SolutionHeaderNumbers | backend/main.py:41 | the header of solution `k` of `n` holds `k` and `n` in decimal around the `/` |
| Prompts.EditorialFraming | backend/main.py:28-52 | the editorial message starts with the fixed opening and ends with the additional notes followed by the closing sentence |
| Prompts.EditorialSolutionCount | backend/main.py:28-31 | right after the opening, the "also given N solutions" sentence with `N` the number of solutions is present when there are solutions, and takes no room otherwise (both directions); the instructions follow |
| Prompts.EditorialHumanRequest | backend/main.py:31-35 | right after the instructions, the human request appears verbatim between its backtick lead and tail when non-empty, and takes no room otherwise (both directions); the statement introduction follows |
| Prompts.EditorialStatement | backend/main.py:35-36 | the statement appears verbatim between the start and end markers right after its introduction, and the solutions section begins right after the end marker |
| Prompts.EditorialSolutionsSection | backend/main.py:37-46 | the solutions introduction and blocks sit between the statement and the additional notes when there are solutions, and take no room otherwise (both directions) |
| Prompts.EditorialBlocks | backend/main.py:37-44 | with solutions present, the solution blocks directly follow the solutions introduction and end where the notes begin |
| Prompts.EditorialSolutionBlock | backend/main.py:37-44 | the block of solution `k` is found in the message at the offset where its header begins |
| Prompts.EditorialSolution | backend/main.py:39-44 | solution `k` appears verbatim after its `Solution k+1/n [START]` header and before the end marker, `n` being the number of solutions |
| Prompts.EditorialSolutionsInOrder | backend/main.py:39-46 | each solution block ends where the next one begins, and the last ends where the notes begin: the solutions are laid out back to back in input order |
| Prompts.SourceCodeFraming | backend/main.py:68-86 | the source-code message starts with the fixed opening and ends with the fixed notes followed by the closing sentence |
| Prompts.SourceCodeHumanRequest | backend/main.py:68-73 | right after the opening, the human request appears verbatim between its lead and tail when non-empty, and takes no room otherwise (both directions) |
| Prompts.SourceCodeStatement | backend/main.py:73-76 | right after its introduction the statement appears verbatim between the start and end markers, and the editorial introduction begins right after the end marker |
| Prompts.SourceCodeEditorial | backend/main.py:76-79 | the editorial introduction stands where the statement block ends; right after it the editorial appears verbatim between the markers, and the notes begin right after the end marker |
| Endpoints.GenerateEditorial | backend/main.py:95-119 | a request gets 401 with "Invalid authentication token" exactly when its token is not allowed; it gets the agent's reply to the editorial message exactly when the token is allowed and the agent call completes; any other answer is a 500 |
| Endpoints.GenerateSourceCode | backend/main.py:122-146 | the same gate; the agent's reply to the source-code message exactly when the token is allowed and the call completes; any other answer is a 500 |
| Endpoints.OnlyEmptyTokenPasses | backend/main.py:11 | with the allowed set `{""}`, a token passes exactly when it is empty |
| Endpoints.RejectionIgnoresAgent | backend/main.py:97-101 | a rejected request gets the same 401 whatever the agent and the wording: nothing is built or sent |
| Endpoints.TokenNotInPrompt | backend/main.py:27-54 | the token does not influence either message |
| Endpoints.EditorialCallCarriesRequest | backend/main.py:103-119 | an accepted editorial request sends a single user message holding the statement and every solution verbatim, and is answered with the agent's reply, or with a 500 when the call fails |
| Endpoints.SourceCodeCallCarriesRequest | backend/main.py:130-146 | an accepted source-code request sends a single user message holding the statement and, after it, the editorial verbatim, and is answered with the agent's reply, or with a 500 when the call fails |
| Endpoints.DeployedEditorialPrompt | backend/main.py:103-119 | with the backend's own wording, an accepted editorial request is answered from the agent's reply to `Prompts.EditorialPrompt` of the request |
| Endpoints.DeployedSourceCodePrompt | backend/main.py:130-146 | with the backend's own wording, an accepted source-code request is answered from the agent's reply to `Prompts.SourceCodePrompt` of the request |
| EditorialForm.Initial | frontend/src/GenerateEditorial.tsx:8-14 | the form starts empty, not generating, on Mistral, with the initial placeholder and the stored token or the empty one |
| EditorialForm.AddSolution | frontend/src/GenerateEditorial.tsx:16-18 | adding appends exactly one empty entry and leaves the existing entries unchanged |
| EditorialForm.ChangeSolution | frontend/src/GenerateEditorial.tsx:20-24 | editing entry `i` replaces only that entry and keeps the length |
| EditorialForm.DeleteLast | frontend/src/GenerateEditorial.tsx:89 | on a non-empty list, deleting removes exactly the last entry and keeps the prefix; an empty list stays as it is |
| EditorialForm.DeleteUndoesAdd | frontend/src/GenerateEditorial.tsx:86-89 | after adding, delete is enabled and deleting restores the list |
| EditorialForm.ChangeBackRestores | frontend/src/GenerateEditorial.tsx:20-24 | writing an entry's old text back restores the list |
| EditorialForm.AddKeepsEntries | frontend/src/GenerateEditorial.tsx:86-89 | adding and deleting keep every surviving entry at its index |
| EditorialForm.RequestOf | frontend/src/GenerateEditorial.tsx:27-33 | the submitted request carries the statement, the solutions list in order, the human request, the token and the model unchanged |
| EditorialForm.Submit | frontend/src/GenerateEditorial.tsx:35-36 | submitting shows "Generating editorial..." and raises `generating`, keeping every field |
| EditorialForm.Finish | frontend/src/GenerateEditorial.tsx:38-43 | when the request settles, `generating` drops and the pane shows the reply's editorial or the error text |
| EditorialForm.Apply | frontend/src/GenerateEditorial.tsx:60-131 | submit and settle act as `Submit` and `Finish`; add, edit and delete run `AddSolution`, `ChangeSolution` and `DeleteLast` on the list, an edit of an absent entry and a delete on an empty list change nothing, and each field edit replaces only its own field; no event but submit and settle touches the pane or the flag |
| EditorialForm.ApplyKeepsConsistent | frontend/src/GenerateEditorial.tsx:35-43 | no event breaks "while generating, the pane shows the placeholder" |
| EditorialForm.ReplayKeepsConsistent | frontend/src/GenerateEditorial.tsx:35-43 | the invariant holds after any sequence of events |
| EditorialForm.InitialIsConsistent | frontend/src/GenerateEditorial.tsx:11-12 | the initial form satisfies the invariant |
| EditorialForm.OnlyListEventsChangeSolutions | frontend/src/GenerateEditorial.tsx:60-131 | only the add, edit and delete handlers change the solutions list |
| EditorialForm.OverlappingSubmissions | frontend/src/GenerateEditorial.tsx:26-44 | with the button left enabled, two submissions can overlap: the first to settle drops `generating` while the other is pending, and the last to settle decides the shown text |
| EditorialForm.ToEditorialRequest | backend/main.py:21-25 | the backend request carries the submitted statement, solutions, human request and token |
| EditorialForm.FormSolutionInPrompt | frontend/src/GenerateEditorial.tsx:27-33 | entry `k` of the form's list reaches the prompt verbatim as solution `k+1` of `n`, `n` being the list's length at submission |
| EditorialForm.AddedSolutionInPrompt | frontend/src/GenerateEditorial.tsx:16-18 | after adding a solution the prompt announces one solution more, and the new entry is the last block, numbered `n+1` of `n+1` |

## Left out

- The `requestAnimationFrame`/`cancelAnimationFrame` lifecycle and the canvas calls (`clearRect`, `arc`, `stroke`, colours) are left out: they are scheduling and drawing effects. A frame's output is its list of edges.
- `Math.random` is not modelled; its results are the precondition `Motion.ValidInitial` on the initial particles.
- IEEE floating point, `Math.sqrt` and `Math.pow(c, 0.5)` are idealised as exact reals and any square root satisfying `Proximity.IsSqrt`.
- The viewport is read once from the parent element's size; the model takes it as a `Viewport` value.
- The Mistral client, FastAPI routing, pydantic validation, uvicorn, `print` and logging are left out as network and I/O. The agent is a function parameter, and its failures are one `AgentFailed` case.
- `frontend/src/api.ts` (the fetch wrappers and their error text), `frontend/src/App.tsx`, `frontend/src/helpers.tsx`, `frontend/src/GradeSolution.tsx`, `frontend/src/GenerateSolution.tsx` and the JSX layout are UI and network plumbing, not part of this model. A settled request is given as an `Outcome`.
- Writing the token to `localStorage` on every edit is browser storage and is left out; the stored token is an input to `EditorialForm.Initial`.
- The model choice is kept in the form and the submission, but the backend does not read it, so it has no effect on the prompt.
- Prompts.EditorialSolutionCount, Prompts.EditorialHumanRequest, Prompts.EditorialSolutionsSection and Prompts.SourceCodeHumanRequest state presence and absence at the part's own position. They do not exclude the same words appearing inside user text, which the builders do not prevent either.
- Endpoints.GenerateEditorial and Endpoints.GenerateSourceCode take the wording as a parameter; the deployed handlers use `Prompts.Fixed`, through `Prompts.EditorialPrompt` and `Prompts.SourceCodePrompt`, as `Endpoints.DeployedEditorialPrompt` and `Endpoints.DeployedSourceCodePrompt` state. The 500 they return for a failed agent call stands for the framework's generic error answer; its plain-text body is modelled as the detail "Internal Server Error", and which exception caused it is not distinguished.
