/**
  The two prompt builders of the backend: the message sent to the language
  model for an editorial request and the one sent for a source-code request.

  Each builder starts from an empty string and appends its parts one after the
  other: fixed sentences, the user's texts, and optional parts (the solution
  count, the human request, the solutions) that are empty when the
  corresponding field is empty. Every user text is wrapped verbatim between a
  `[START]` and an `[END]` marker.

  The fixed wording is gathered in the record `Texts`, and `Fixed` holds the
  backend's exact wording. The layout lemmas are stated for any wording `t`,
  so they never depend on the letters of the long sentences; each part is
  located by its offset in the message.
 */
module Prompts {
  import opened Decimal

  datatype EditorialRequest = EditorialRequest(
    statement: string,
    solutions: seq<string>,
    humanRequest: string,
    authToken: string)

  datatype SourceCodeRequest = SourceCodeRequest(
    statement: string,
    editorial: string,
    humanRequest: string,
    authToken: string)

  /** The fixed text the builders interleave with the user's text. */
  datatype Texts = Texts(
    startMarker: string,
    endMarker: string,
    humanRequestLead: string,
    humanRequestTail: string,
    statementIntro: string,
    editorialOpening: string,
    solutionCountLead: string,
    solutionCountTail: string,
    editorialInstructions: string,
    solutionsIntro: string,
    solutionHeaderLead: string,
    solutionHeaderSeparator: string,
    solutionHeaderTail: string,
    editorialNotes: string,
    editorialClosing: string,
    sourceCodeOpening: string,
    editorialBlockIntro: string,
    sourceCodeNotes: string,
    sourceCodeClosing: string)

  const Fixed: Texts := Texts(
    startMarker :=
        "\n\n[START]\n",
    endMarker :=
        "\n[END]\n",
    humanRequestLead :=
        "You are also given a human request: `",
    humanRequestTail :=
        "`.\n",
    statementIntro :=
        "You are now given the statement, between [START] and [END] blocks.\n",
    editorialOpening :=
        "You are tasked with creating a detailed editorial for a competitive programming task. You are given the statement of the problem. If the language is not english, please keep the same language for the editorial.\n",
    solutionCountLead :=
        " You are also given ",
    solutionCountTail :=
        " solutions to the problem, for helping you understand the solution.",
    editorialInstructions :=
        "You are tasked to write a detailed editorial for the problem, in a markdown format. The editorals should include the following sections:\n * A short explanation of the statement of the problem.\n * A detailed explanation of the test cases if they help the understanding of the problem.\n * Required well-known algorithms for the problem's solution (if you think it is required).\n * A detailed, step by step explanation of the solution. If some of the provided solutions are different, pick the easiest to understand.\n * A detailed explanation of the expected time complexity of the solution.\n * A detailed explanation of the expected space complexity of the solution.\n",
    solutionsIntro :=
        "You are now given the solutions, between [START] and [END] blocks.",
    solutionHeaderLead :=
        "\n\nSolution ",
    solutionHeaderSeparator :=
        "/",
    solutionHeaderTail :=
        " [START]\n",
    editorialNotes :=
        "Additional notes:\n"
        + "* The markdown editor the user uses is kinda stupid, please add new lines after each code block.\n"
        + "* Please add C++ snippet code blocks wherever it helps with the understanding. the editor does not know how to handle c++ code, so just add them as regular code.\n"
        + "* Do not forget to KEEP THE ORIGINAL LANGUAGE of the statement for the editorial.\n"
        + "* Sometimes, due to some issues, the statement is not coherent (or missing). If this is the case, and the statement does not look like a standard problem statement, please say that instead of generating a meaningless editorial.\n",
    editorialClosing :=
        "\nPlease only answer with the editorial as requested, as it is directly sent back to the user, do not send any other information.",
    sourceCodeOpening :=
        "You are tasked with generating a 100% working, valid, correct solution for a competitive programming task. You are given the statement of the problem and an editorial, which describes the solution you need to follow.\n",
    editorialBlockIntro :=
        "You are now given the editorial, between [START] and [END] blocks.\n",
    sourceCodeNotes :=
        "Additional notes:\n"
        + "* Sometimes, due to some issues, the statement is not coherent (or missing). If this is the case, and the statement does not look like a standard problem statement, please say that instead of generating a meaningless code.\n"
        + "* If you think the solution is too hard, and are unable to generate a 100% working solution, say that instead of generating a possibly incorrect solution.\n"
        + "* Only generate C++ code.\n"
        + "* Do not include quotes or backticks to isolate the code, as the user expects to only receive one code block.\n"
        + "* Your whole reply must by a valid c++ code, DO NOT ADD ANYTHING ELSE, SUCH AS BACKTICKS OR QUOTES. Your output must only contain valid c++ code.\n"
        + "* If you need to add additional information, please add it as a comment in the code.\n",
    sourceCodeClosing :=
        "\nPlease only answer with the code as requested, as it is directly sent back to the user, do not send any other information.")

  /** The editorial message with the backend's wording. */
  function EditorialPrompt(r: EditorialRequest): string {
    EditorialMessage(r, Fixed)
  }

  /** The source-code message with the backend's wording. */
  function SourceCodePrompt(r: SourceCodeRequest): string {
    SourceCodeMessage(r, Fixed)
  }

  // ---------------------------------------------------------------------------
  // Locating text

  /** The character `j` places after index `k`. */
  function CharAt(s: string, k: nat, j: nat): char
    requires k + j < |s|
  {
    s[k + j]
  }

  /** `piece` is found in `s` starting at index `k`. */
  predicate OccursAt(s: string, piece: string, k: nat) {
    && k + |piece| <= |s|
    && forall j {:trigger CharAt(s, k, j)} :: 0 <= j < |piece| ==> CharAt(s, k, j) == piece[j]
  }

  /** Text found in `s` is still found, at the same place, once more is appended. */
  lemma Extend(s: string, piece: string, k: nat, t: string)
    requires OccursAt(s, piece, k)
    ensures OccursAt(s + t, piece, k)
  {
    forall j | 0 <= j < |piece|
      ensures CharAt(s + t, k, j) == piece[j]
    {
      assert CharAt(s, k, j) == piece[j];
    }
  }

  /** Text found inside a piece of `s` is found in `s`. */
  lemma Within(s: string, piece: string, k: nat, sub: string, m: nat)
    requires OccursAt(s, piece, k) && OccursAt(piece, sub, m)
    ensures OccursAt(s, sub, k + m)
  {
    forall j | 0 <= j < |sub|
      ensures CharAt(s, k + m, j) == sub[j]
    {
      assert CharAt(piece, m, j) == sub[j];
      assert CharAt(s, k, m + j) == piece[m + j];
    }
  }

  /** Both halves of an appended string are found in it, the second after the first. */
  lemma Append(a: string, b: string)
    ensures OccursAt(a + b, a, 0) && OccursAt(a + b, b, |a|)
  {
    forall j | 0 <= j < |a|
      ensures CharAt(a + b, 0, j) == a[j]
    {
    }
    forall j | 0 <= j < |b|
      ensures CharAt(a + b, |a|, j) == b[j]
    {
    }
  }

  /** A piece made of three texts holds each of them after the ones before it. */
  lemma LocatePieces(s: string, k: nat, a: string, b: string, c: string)
    requires OccursAt(s, a + b + c, k)
    ensures OccursAt(s, a, k) && OccursAt(s, b, k + |a|) && OccursAt(s, c, k + |a| + |b|)
  {
    var abc := a + b + c;
    forall j | 0 <= j < |a|
      ensures CharAt(s, k, j) == a[j]
    {
      assert CharAt(s, k, j) == abc[j];
    }
    forall j | 0 <= j < |b|
      ensures CharAt(s, k + |a|, j) == b[j]
    {
      assert abc[|a| + j] == b[j];
      assert CharAt(s, k, |a| + j) == abc[|a| + j];
    }
    forall j | 0 <= j < |c|
      ensures CharAt(s, k + |a| + |b|, j) == c[j]
    {
      assert abc[|a| + |b| + j] == c[j];
      assert CharAt(s, k, |a| + |b| + j) == abc[|a| + |b| + j];
    }
  }

  // ---------------------------------------------------------------------------
  // Appending parts

  /** The parts appended one after the other, first to last, to an empty string. */
  function Concat(parts: seq<string>): string
    decreases |parts|
  {
    if |parts| == 0 then "" else Concat(parts[..|parts| - 1]) + parts[|parts| - 1]
  }

  /** Where part `k` begins in `Concat(parts)`: the total length of the parts before it. */
  function PartAt(parts: seq<string>, k: nat): nat
    requires k <= |parts|
  {
    |Concat(parts[..k])|
  }

  /** Each part begins where the previous one ends. */
  lemma NextPartAt(parts: seq<string>, k: nat)
    requires k < |parts|
    ensures PartAt(parts, k + 1) == PartAt(parts, k) + |parts[k]|
  {
    assert parts[..k + 1][..k] == parts[..k];
  }

  /** The concatenation ends where a part after the last one would begin. */
  lemma ConcatLength(parts: seq<string>)
    ensures |Concat(parts)| == PartAt(parts, |parts|)
  {
    assert parts[..|parts|] == parts;
  }

  /** Part `k` is found in the concatenation where the parts before it end. */
  lemma {:induction false} PartOccurs(parts: seq<string>, k: nat)
    requires k < |parts|
    ensures OccursAt(Concat(parts), parts[k], PartAt(parts, k))
    decreases |parts|
  {
    var init := parts[..|parts| - 1];
    var s := Concat(parts);
    assert s == Concat(init) + parts[|parts| - 1];
    if k == |parts| - 1 {
      assert init == parts[..k];
      forall j | 0 <= j < |parts[k]|
        ensures CharAt(s, PartAt(parts, k), j) == parts[k][j]
      {
      }
    } else {
      PartOccurs(init, k);
      assert init[..k] == parts[..k];
      Extend(Concat(init), init[k], PartAt(init, k), parts[|parts| - 1]);
    }
  }

  /** Where the concatenation is found, each part is found at its own offset from there. */
  lemma PartWithin(s: string, parts: seq<string>, at: nat, k: nat)
    requires OccursAt(s, Concat(parts), at) && k < |parts|
    ensures OccursAt(s, parts[k], at + PartAt(parts, k))
  {
    PartOccurs(parts, k);
    Within(s, Concat(parts), at, parts[k], PartAt(parts, k));
  }

  // ---------------------------------------------------------------------------
  // Parts

  /** A user text wrapped between the markers. */
  function Block(body: string, t: Texts): string {
    t.startMarker + body + t.endMarker
  }

  /** The human-request line, present only for a non-empty request. */
  function HumanRequestLine(humanRequest: string, t: Texts): string {
    if humanRequest == "" then "" else t.humanRequestLead + humanRequest + t.humanRequestTail
  }

  /** The sentence announcing the number of solutions, present only when there are some. */
  function SolutionCount(solutions: seq<string>, t: Texts): string {
    if |solutions| == 0 then ""
    else t.solutionCountLead + NatToString(|solutions|) + t.solutionCountTail
  }

  /** The header of solution `k` (counted from 1) out of `n`. */
  function SolutionHeader(k: nat, n: nat, t: Texts): string {
    t.solutionHeaderLead + NatToString(k) + t.solutionHeaderSeparator + NatToString(n) + t.solutionHeaderTail
  }

  /** Solution `k` (counted from 0), after its numbered header and before the end marker. */
  function SolutionBlock(solutions: seq<string>, k: nat, t: Texts): string
    requires k < |solutions|
  {
    SolutionHeader(k + 1, |solutions|, t) + solutions[k] + t.endMarker
  }

  /** One block per solution, in input order. */
  function SolutionBlocks(solutions: seq<string>, t: Texts): seq<string> {
    seq(|solutions|, k requires 0 <= k < |solutions| => SolutionBlock(solutions, k, t))
  }

  /** The solutions introduction and the solution blocks, present only when there are solutions. */
  function SolutionsSection(solutions: seq<string>, t: Texts): string {
    if |solutions| == 0 then "" else t.solutionsIntro + Concat(SolutionBlocks(solutions, t))
  }

  /** In a text made of five pieces, the second and the fourth are found after the ones before them. */
  lemma HeaderPieces(a: string, b: string, c: string, d: string, e: string)
    ensures OccursAt(a + b + c + d + e, b, |a|)
    ensures OccursAt(a + b + c + d + e, d, |a| + |b| + |c|)
  {
    Append(a, b);
    Extend(a + b, b, |a|, c);
    Extend(a + b + c, b, |a|, d);
    Extend(a + b + c + d, b, |a|, e);
    Append(a + b + c, d);
    Extend(a + b + c + d, d, |a + b + c|, e);
  }

  /** The header of solution `k` out of `n` names both numbers in decimal. */
  lemma SolutionHeaderNumbers(k: nat, n: nat, t: Texts)
    ensures OccursAt(SolutionHeader(k, n, t), NatToString(k), |t.solutionHeaderLead|)
    ensures OccursAt(SolutionHeader(k, n, t), NatToString(n),
                     |t.solutionHeaderLead| + |NatToString(k)| + |t.solutionHeaderSeparator|)
  {
    HeaderPieces(t.solutionHeaderLead, NatToString(k), t.solutionHeaderSeparator, NatToString(n),
                 t.solutionHeaderTail);
  }

  // ---------------------------------------------------------------------------
  // The editorial message

  /**
    The parts of the editorial message, in the order they are appended:
    0 opening, 1 solution count, 2 instructions, 3 human-request line,
    4 statement introduction, 5 statement block, 6 solutions section,
    7 additional notes, 8 closing sentence.
   */
  function EditorialParts(r: EditorialRequest, t: Texts): seq<string> {
    [ t.editorialOpening,
      SolutionCount(r.solutions, t),
      t.editorialInstructions,
      HumanRequestLine(r.humanRequest, t),
      t.statementIntro,
      Block(r.statement, t),
      SolutionsSection(r.solutions, t),
      t.editorialNotes,
      t.editorialClosing ]
  }

  function EditorialMessage(r: EditorialRequest, t: Texts): string {
    Concat(EditorialParts(r, t))
  }

  /** Where part `k` of the editorial message begins. */
  function EditorialAt(r: EditorialRequest, t: Texts, k: nat): nat
    requires k <= 9
  {
    PartAt(EditorialParts(r, t), k)
  }

  /** Where the header of solution `k` (counted from 0) begins. */
  function EditorialSolutionAt(r: EditorialRequest, k: nat, t: Texts): nat
    requires k <= |r.solutions|
  {
    EditorialAt(r, t, 6) + |t.solutionsIntro| + PartAt(SolutionBlocks(r.solutions, t), k)
  }

  /**
    The message starts with the fixed opening and ends with the additional
    notes followed by the closing sentence, which is its last text.
   */
  lemma EditorialFraming(r: EditorialRequest, t: Texts)
    ensures OccursAt(EditorialMessage(r, t), t.editorialOpening, 0)
    ensures OccursAt(EditorialMessage(r, t), t.editorialNotes, EditorialAt(r, t, 7))
    ensures OccursAt(EditorialMessage(r, t), t.editorialClosing, EditorialAt(r, t, 8))
    ensures EditorialAt(r, t, 8) == EditorialAt(r, t, 7) + |t.editorialNotes|
    ensures |EditorialMessage(r, t)| == EditorialAt(r, t, 8) + |t.editorialClosing|
  {
    var parts := EditorialParts(r, t);
    PartOccurs(parts, 0);
    assert parts[..0] == [];
    PartOccurs(parts, 7);
    PartOccurs(parts, 8);
    NextPartAt(parts, 7);
    NextPartAt(parts, 8);
    ConcatLength(parts);
  }

  /**
    Right after the opening stands the solution-count sentence, naming the
    number of solutions in decimal, when there are solutions, and nothing
    otherwise; the instructions follow.
   */
  lemma EditorialSolutionCount(r: EditorialRequest, t: Texts)
    ensures EditorialAt(r, t, 1) == |t.editorialOpening|
    ensures |r.solutions| > 0 ==>
              && OccursAt(EditorialMessage(r, t), t.solutionCountLead, EditorialAt(r, t, 1))
              && OccursAt(EditorialMessage(r, t), NatToString(|r.solutions|),
                          EditorialAt(r, t, 1) + |t.solutionCountLead|)
              && OccursAt(EditorialMessage(r, t), t.solutionCountTail,
                          EditorialAt(r, t, 1) + |t.solutionCountLead| + |NatToString(|r.solutions|)|)
              && EditorialAt(r, t, 2) == EditorialAt(r, t, 1) + |t.solutionCountLead|
                                         + |NatToString(|r.solutions|)| + |t.solutionCountTail|
    ensures |r.solutions| == 0 <==> EditorialAt(r, t, 2) == EditorialAt(r, t, 1)
    ensures OccursAt(EditorialMessage(r, t), t.editorialInstructions, EditorialAt(r, t, 2))
  {
    var parts := EditorialParts(r, t);
    assert parts[..0] == [];
    NextPartAt(parts, 0);
    NextPartAt(parts, 1);
    PartOccurs(parts, 2);
    if |r.solutions| > 0 {
      PartOccurs(parts, 1);
      NextPartAt(parts, 1);
      LocatePieces(Concat(parts), PartAt(parts, 1),
                   t.solutionCountLead, NatToString(|r.solutions|), t.solutionCountTail);
    }
  }

  /**
    Right after the instructions stands the human-request line, with the
    request verbatim between its lead and tail, when the request is
    non-empty, and nothing otherwise; the statement introduction follows.
   */
  lemma EditorialHumanRequest(r: EditorialRequest, t: Texts)
    ensures r.humanRequest != "" ==>
              && OccursAt(EditorialMessage(r, t), t.humanRequestLead, EditorialAt(r, t, 3))
              && OccursAt(EditorialMessage(r, t), r.humanRequest, EditorialAt(r, t, 3) + |t.humanRequestLead|)
              && OccursAt(EditorialMessage(r, t), t.humanRequestTail,
                          EditorialAt(r, t, 3) + |t.humanRequestLead| + |r.humanRequest|)
              && EditorialAt(r, t, 4) == EditorialAt(r, t, 3) + |t.humanRequestLead|
                                         + |r.humanRequest| + |t.humanRequestTail|
    ensures r.humanRequest == "" <==> EditorialAt(r, t, 4) == EditorialAt(r, t, 3)
    ensures EditorialAt(r, t, 3) == EditorialAt(r, t, 2) + |t.editorialInstructions|
    ensures OccursAt(EditorialMessage(r, t), t.statementIntro, EditorialAt(r, t, 4))
  {
    var parts := EditorialParts(r, t);
    NextPartAt(parts, 2);
    NextPartAt(parts, 3);
    PartOccurs(parts, 4);
    if r.humanRequest != "" {
      PartOccurs(parts, 3);
      NextPartAt(parts, 3);
      LocatePieces(Concat(parts), PartAt(parts, 3),
                   t.humanRequestLead, r.humanRequest, t.humanRequestTail);
    }
  }

  /**
    Right after the statement introduction, the statement appears verbatim
    between the start and end markers; the solutions section follows.
   */
  lemma EditorialStatement(r: EditorialRequest, t: Texts)
    ensures EditorialAt(r, t, 5) == EditorialAt(r, t, 4) + |t.statementIntro|
    ensures OccursAt(EditorialMessage(r, t), t.startMarker, EditorialAt(r, t, 5))
    ensures OccursAt(EditorialMessage(r, t), r.statement, EditorialAt(r, t, 5) + |t.startMarker|)
    ensures OccursAt(EditorialMessage(r, t), t.endMarker,
                     EditorialAt(r, t, 5) + |t.startMarker| + |r.statement|)
    ensures EditorialAt(r, t, 6)
            == EditorialAt(r, t, 5) + |t.startMarker| + |r.statement| + |t.endMarker|
  {
    var parts := EditorialParts(r, t);
    NextPartAt(parts, 4);
    PartOccurs(parts, 5);
    NextPartAt(parts, 5);
    LocatePieces(Concat(parts), PartAt(parts, 5), t.startMarker, r.statement, t.endMarker);
  }

  /**
    After the statement's end marker stands the solutions introduction
    followed by the solution blocks when there are solutions, and nothing
    otherwise; the additional notes follow.
   */
  lemma EditorialSolutionsSection(r: EditorialRequest, t: Texts)
    ensures |r.solutions| > 0 ==>
              && OccursAt(EditorialMessage(r, t), t.solutionsIntro, EditorialAt(r, t, 6))
              && EditorialAt(r, t, 7) == EditorialSolutionAt(r, |r.solutions|, t)
    ensures |r.solutions| == 0 <==> EditorialAt(r, t, 7) == EditorialAt(r, t, 6)
  {
    NextPartAt(EditorialParts(r, t), 6);
    if |r.solutions| > 0 {
      EditorialBlocks(r, t);
      ConcatLength(SolutionBlocks(r.solutions, t));
    }
  }

  /** With solutions present, their blocks follow the solutions introduction directly. */
  lemma EditorialBlocks(r: EditorialRequest, t: Texts)
    requires |r.solutions| > 0
    ensures OccursAt(EditorialMessage(r, t), t.solutionsIntro, EditorialAt(r, t, 6))
    ensures OccursAt(EditorialMessage(r, t), Concat(SolutionBlocks(r.solutions, t)),
                     EditorialAt(r, t, 6) + |t.solutionsIntro|)
    ensures EditorialAt(r, t, 7)
            == EditorialAt(r, t, 6) + |t.solutionsIntro| + |Concat(SolutionBlocks(r.solutions, t))|
  {
    var parts := EditorialParts(r, t);
    var blocks := SolutionBlocks(r.solutions, t);
    NextPartAt(parts, 6);
    PartOccurs(parts, 6);
    assert parts[6] == t.solutionsIntro + Concat(blocks) + "";
    LocatePieces(EditorialMessage(r, t), EditorialAt(r, t, 6), t.solutionsIntro, Concat(blocks), "");
  }

  /**
    Solution `k` (counted from 0) appears verbatim after its header
    `Solution k+1/n [START]` and before the end marker, `n` being the number
    of solutions.
   */
  lemma EditorialSolution(r: EditorialRequest, k: nat, t: Texts)
    requires k < |r.solutions|
    ensures OccursAt(EditorialMessage(r, t), SolutionHeader(k + 1, |r.solutions|, t),
                     EditorialSolutionAt(r, k, t))
    ensures OccursAt(EditorialMessage(r, t), r.solutions[k],
                     EditorialSolutionAt(r, k, t) + |SolutionHeader(k + 1, |r.solutions|, t)|)
    ensures OccursAt(EditorialMessage(r, t), t.endMarker,
                     EditorialSolutionAt(r, k, t) + |SolutionHeader(k + 1, |r.solutions|, t)|
                     + |r.solutions[k]|)
  {
    EditorialSolutionBlock(r, k, t);
    LocatePieces(EditorialMessage(r, t), EditorialSolutionAt(r, k, t),
                 SolutionHeader(k + 1, |r.solutions|, t), r.solutions[k], t.endMarker);
  }

  /** The block of solution `k` (counted from 0) is found where its header begins. */
  lemma EditorialSolutionBlock(r: EditorialRequest, k: nat, t: Texts)
    requires k < |r.solutions|
    ensures OccursAt(EditorialMessage(r, t), SolutionBlock(r.solutions, k, t), EditorialSolutionAt(r, k, t))
  {
    var blocks := SolutionBlocks(r.solutions, t);
    EditorialBlocks(r, t);
    PartWithin(EditorialMessage(r, t), blocks, EditorialAt(r, t, 6) + |t.solutionsIntro|, k);
    assert blocks[k] == SolutionBlock(r.solutions, k, t);
  }

  /**
    The next solution, or after the last one the additional notes, begins
    right after solution `k`, so the solutions are laid out back to back in
    input order.
   */
  lemma EditorialSolutionsInOrder(r: EditorialRequest, k: nat, t: Texts)
    requires k < |r.solutions|
    ensures EditorialSolutionAt(r, k, t) + |SolutionBlock(r.solutions, k, t)|
            == if k + 1 < |r.solutions| then EditorialSolutionAt(r, k + 1, t) else EditorialAt(r, t, 7)
  {
    var blocks := SolutionBlocks(r.solutions, t);
    NextPartAt(blocks, k);
    if k + 1 == |r.solutions| {
      EditorialBlocks(r, t);
      ConcatLength(blocks);
    }
  }

  // ---------------------------------------------------------------------------
  // The source-code message

  /**
    The parts of the source-code message, in the order they are appended:
    0 opening, 1 human-request line, 2 statement introduction, 3 statement
    block, 4 editorial introduction, 5 editorial block, 6 notes, 7 closing
    sentence.
   */
  function SourceCodeParts(r: SourceCodeRequest, t: Texts): seq<string> {
    [ t.sourceCodeOpening,
      HumanRequestLine(r.humanRequest, t),
      t.statementIntro,
      Block(r.statement, t),
      t.editorialBlockIntro,
      Block(r.editorial, t),
      t.sourceCodeNotes,
      t.sourceCodeClosing ]
  }

  function SourceCodeMessage(r: SourceCodeRequest, t: Texts): string {
    Concat(SourceCodeParts(r, t))
  }

  /** Where part `k` of the source-code message begins. */
  function SourceCodeAt(r: SourceCodeRequest, t: Texts, k: nat): nat
    requires k <= 8
  {
    PartAt(SourceCodeParts(r, t), k)
  }

  /**
    The message starts with the fixed opening and ends with the fixed notes
    followed by the closing sentence, which is its last text.
   */
  lemma SourceCodeFraming(r: SourceCodeRequest, t: Texts)
    ensures OccursAt(SourceCodeMessage(r, t), t.sourceCodeOpening, 0)
    ensures OccursAt(SourceCodeMessage(r, t), t.sourceCodeNotes, SourceCodeAt(r, t, 6))
    ensures OccursAt(SourceCodeMessage(r, t), t.sourceCodeClosing, SourceCodeAt(r, t, 7))
    ensures SourceCodeAt(r, t, 7) == SourceCodeAt(r, t, 6) + |t.sourceCodeNotes|
    ensures |SourceCodeMessage(r, t)| == SourceCodeAt(r, t, 7) + |t.sourceCodeClosing|
  {
    var parts := SourceCodeParts(r, t);
    PartOccurs(parts, 0);
    assert parts[..0] == [];
    PartOccurs(parts, 6);
    PartOccurs(parts, 7);
    NextPartAt(parts, 6);
    NextPartAt(parts, 7);
    ConcatLength(parts);
  }

  /**
    Right after the opening stands the human-request line, with the request
    verbatim between its lead and tail, when the request is non-empty, and
    nothing otherwise; the statement introduction follows.
   */
  lemma SourceCodeHumanRequest(r: SourceCodeRequest, t: Texts)
    ensures SourceCodeAt(r, t, 1) == |t.sourceCodeOpening|
    ensures r.humanRequest != "" ==>
              && OccursAt(SourceCodeMessage(r, t), t.humanRequestLead, SourceCodeAt(r, t, 1))
              && OccursAt(SourceCodeMessage(r, t), r.humanRequest, SourceCodeAt(r, t, 1) + |t.humanRequestLead|)
              && OccursAt(SourceCodeMessage(r, t), t.humanRequestTail,
                          SourceCodeAt(r, t, 1) + |t.humanRequestLead| + |r.humanRequest|)
              && SourceCodeAt(r, t, 2) == SourceCodeAt(r, t, 1) + |t.humanRequestLead|
                                          + |r.humanRequest| + |t.humanRequestTail|
    ensures r.humanRequest == "" <==> SourceCodeAt(r, t, 2) == SourceCodeAt(r, t, 1)
    ensures OccursAt(SourceCodeMessage(r, t), t.statementIntro, SourceCodeAt(r, t, 2))
  {
    var parts := SourceCodeParts(r, t);
    assert parts[..0] == [];
    NextPartAt(parts, 0);
    NextPartAt(parts, 1);
    PartOccurs(parts, 2);
    if r.humanRequest != "" {
      PartOccurs(parts, 1);
      NextPartAt(parts, 1);
      LocatePieces(Concat(parts), PartAt(parts, 1),
                   t.humanRequestLead, r.humanRequest, t.humanRequestTail);
    }
  }

  /**
    After the statement introduction the statement appears verbatim between
    the start and end markers, where the editorial introduction begins.
   */
  lemma SourceCodeStatement(r: SourceCodeRequest, t: Texts)
    ensures SourceCodeAt(r, t, 3) == SourceCodeAt(r, t, 2) + |t.statementIntro|
    ensures OccursAt(SourceCodeMessage(r, t), t.startMarker, SourceCodeAt(r, t, 3))
    ensures OccursAt(SourceCodeMessage(r, t), r.statement, SourceCodeAt(r, t, 3) + |t.startMarker|)
    ensures OccursAt(SourceCodeMessage(r, t), t.endMarker,
                     SourceCodeAt(r, t, 3) + |t.startMarker| + |r.statement|)
    ensures SourceCodeAt(r, t, 4)
            == SourceCodeAt(r, t, 3) + |t.startMarker| + |r.statement| + |t.endMarker|
  {
    var parts := SourceCodeParts(r, t);
    NextPartAt(parts, 2);
    PartOccurs(parts, 3);
    NextPartAt(parts, 3);
    LocatePieces(Concat(parts), PartAt(parts, 3), t.startMarker, r.statement, t.endMarker);
  }

  /**
    After the editorial introduction the editorial appears verbatim between
    the start and end markers; the notes follow.
   */
  lemma SourceCodeEditorial(r: SourceCodeRequest, t: Texts)
    ensures OccursAt(SourceCodeMessage(r, t), t.editorialBlockIntro, SourceCodeAt(r, t, 4))
    ensures SourceCodeAt(r, t, 5) == SourceCodeAt(r, t, 4) + |t.editorialBlockIntro|
    ensures OccursAt(SourceCodeMessage(r, t), t.startMarker, SourceCodeAt(r, t, 5))
    ensures OccursAt(SourceCodeMessage(r, t), r.editorial, SourceCodeAt(r, t, 5) + |t.startMarker|)
    ensures OccursAt(SourceCodeMessage(r, t), t.endMarker,
                     SourceCodeAt(r, t, 5) + |t.startMarker| + |r.editorial|)
    ensures SourceCodeAt(r, t, 6)
            == SourceCodeAt(r, t, 5) + |t.startMarker| + |r.editorial| + |t.endMarker|
  {
    var parts := SourceCodeParts(r, t);
    PartOccurs(parts, 4);
    NextPartAt(parts, 4);
    PartOccurs(parts, 5);
    NextPartAt(parts, 5);
    LocatePieces(Concat(parts), PartAt(parts, 5), t.startMarker, r.editorial, t.endMarker);
  }
}
