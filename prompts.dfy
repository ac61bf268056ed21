/** The prompt text the triage loop sends: the filter-level instruction
    fragment chosen from the select box, the system prompt it is spliced
    into, and the assistant message carrying one idea. */
module Prompts {

  /** The options of the filtering-level select box. */
  datatype FilterLevel = Loose | Normal | Strict

  /** The text the select box shows, and returns, for each option. */
  function OptionText(level: FilterLevel): (r: string)
    ensures |r| > |FilterSuffix| && r[|r| - |FilterSuffix|..] == FilterSuffix
  {
    match level
    case Loose => "Loose Filter"
    case Normal => "Normal Filter"
    case Strict => "Strict Filter"
  }

  /** Every option reads "<level> Filter". */
  const FilterSuffix: string := " Filter"

  /** The select box opens on its second option. */
  const DefaultLevel: FilterLevel := Normal

  const LooseInstruction: string :=
      "Be a loose filter where most "
    + "ideas will pass."
  const StrictInstruction: string :=
      "Be an extremely strict filter "
    + "where very little ideas will "
    + "pass and you are super critical "
    + "of all aspects of an idea such "
    + "the business model and whether "
    + "an existing solution already "
    + "exists."

  /** The filter prompt as the if/elif chain computes it from the selected
      option text: it starts out empty, and only the loose and the strict
      option replace it. */
  function FilterPrompt(selection: string): (r: string)
    ensures r == LooseInstruction <==> selection == OptionText(Loose)
    ensures r == StrictInstruction <==> selection == OptionText(Strict)
    ensures r == "" <==> selection != OptionText(Loose) && selection != OptionText(Strict)
  {
    assert |LooseInstruction| != |StrictInstruction| && LooseInstruction != "" && StrictInstruction != "";
    if selection == OptionText(Loose) then LooseInstruction
    else if selection == OptionText(Normal) then ""
    else if selection == OptionText(Strict) then StrictInstruction
    else ""
  }

  /** Every option of the select box gets its own fragment. */
  lemma FilterPromptDistinct(a: FilterLevel, b: FilterLevel)
    ensures FilterPrompt(OptionText(a)) == FilterPrompt(OptionText(b)) <==> a == b
  {
  }

  /** The option the select box opens on adds no instruction. */
  lemma DefaultLevelNoFragment()
    ensures FilterPrompt(OptionText(DefaultLevel)) == ""
  {
  }

  /** The fixed evaluator persona that opens the system prompt. */
  const Preamble: string :=
      "You are a sustainability expert "
    + "and professional idea evaluator "
    + "and filterer. You will receive "
    + "a problem followed by a "
    + "solution. This filtration "
    + "system helps concentrate human "
    + "evaluators' time and resources "
    + "on concepts that are "
    + "meticulously crafted, "
    + "well-articulated, and hold "
    + "tangible relevance."

  /** The fixed output instructions that close the system prompt. */
  const Instructions: string :=
      "In separate lines, mention 1. "
    + "whether the idea falls under "
    + "one of the categories: sloppy, "
    + "off-topic (i.e., not "
    + "sustainability related), "
    + "unsuitable, or vague (such as "
    + "the over-generic content that "
    + "prioritizes form over "
    + "substance, offering "
    + "generalities instead of "
    + "specific details). Return "
    + "either (Yes - remove idea) if "
    + "it falls under one of those "
    + "categories or (No - keep idea) "
    + "if it does not. 2. a viability "
    + "score out of 100. 3. concise "
    + "bullet points supporting "
    + "whether to keep or remove the "
    + "idea from 1."

  /** `pre`, a space, `middle`, a space and `post`. */
  function Splice(pre: string, middle: string, post: string): string {
    pre + " " + middle + " " + post
  }

  /** What lies between a prefix of length `m` plus a space and a suffix of
      length `n` plus a space. */
  function Middle(s: string, m: nat, n: nat): string {
    if |s| < m + n + 2 then "" else s[m + 1..|s| - n - 1]
  }

  /** A spliced string starts with `pre`, ends with `post`, and gives back
      `middle` between them. */
  lemma SpliceParts(pre: string, middle: string, post: string)
    ensures var s := Splice(pre, middle, post);
            |s| == |pre| + |middle| + |post| + 2 &&
            s[..|pre|] == pre && s[|s| - |post|..] == post &&
            s[|pre|] == ' ' && s[|s| - |post| - 1] == ' ' &&
            Middle(s, |pre|, |post|) == middle
  {
    var s := Splice(pre, middle, post);
    assert s[|pre| + 1..|s| - |post| - 1] == middle;
  }

  /** The system message: the preamble, the filter fragment and the output
      instructions, separated by single spaces (so an empty fragment leaves
      two spaces). */
  function SystemPrompt(fragment: string): (r: string)
    ensures |r| == |Preamble| + |fragment| + |Instructions| + 2
    ensures r[..|Preamble|] == Preamble
    ensures r[|r| - |Instructions|..] == Instructions
    ensures r[|Preamble|] == ' ' && r[|r| - |Instructions| - 1] == ' '
    ensures FragmentOf(r) == fragment
  {
    SpliceParts(Preamble, fragment, Instructions);
    Splice(Preamble, fragment, Instructions)
  }

  /** The part of a system prompt between the preamble and the instructions. */
  function FragmentOf(prompt: string): string
  {
    Middle(prompt, |Preamble|, |Instructions|)
  }

  /** Distinct fragments give distinct system prompts. */
  lemma SystemPromptInjective(f: string, g: string)
    ensures SystemPrompt(f) == SystemPrompt(g) <==> f == g
  {
    if SystemPrompt(f) == SystemPrompt(g) {
      assert FragmentOf(SystemPrompt(f)) == FragmentOf(SystemPrompt(g));
    }
  }

  /** The roles of the two messages sent per idea. */
  datatype Role = System | Assistant

  datatype Message = Message(role: Role, content: string)

  const ProblemLabel: string := "Problem: "
  const SolutionLabel: string := "\n Solution: "

  /** The assistant message: the problem and the solution behind their labels. */
  function AssistantContent(problem: string, solution: string): (r: string)
    ensures |r| == |ProblemLabel| + |problem| + |SolutionLabel| + |solution|
    ensures r[..|ProblemLabel|] == ProblemLabel && r[|r| - |solution|..] == solution
  {
    ProblemLabel + problem + SolutionLabel + solution
  }

  /** The assistant message is the problem label, the problem, the solution
      label and the solution, each recoverable by position. */
  lemma AssistantContentParts(problem: string, solution: string)
    ensures var r := AssistantContent(problem, solution);
            |r| == |ProblemLabel| + |problem| + |SolutionLabel| + |solution| &&
            r[..|ProblemLabel|] == ProblemLabel &&
            r[|ProblemLabel|..|ProblemLabel| + |problem|] == problem &&
            r[|ProblemLabel| + |problem|..|r| - |solution|] == SolutionLabel &&
            r[|r| - |solution|..] == solution
  {
    var r := AssistantContent(problem, solution);
    assert r[|ProblemLabel|..|ProblemLabel| + |problem|] == problem;
    assert r[|ProblemLabel| + |problem|..|r| - |solution|] == SolutionLabel;
  }

  /** Given the length of the problem, the assistant message determines both
      the problem and the solution. */
  lemma AssistantContentInjective(p: string, s: string, p': string, s': string)
    requires |p| == |p'|
    ensures AssistantContent(p, s) == AssistantContent(p', s') <==> p == p' && s == s'
  {
    if AssistantContent(p, s) == AssistantContent(p', s') {
      var c := AssistantContent(p, s);
      AssistantContentParts(p, s);
      AssistantContentParts(p', s');
      assert p == c[|ProblemLabel|..|ProblemLabel| + |p|] == p';
      assert |s| == |s'|;
      assert s == c[|c| - |s|..] == s';
    }
  }

  /** The message log sent for one idea: the system prompt, then the idea. */
  function MessageLog(system: string, problem: string, solution: string): (log: seq<Message>)
    ensures |log| == 2 && log[0].role == System && log[1].role == Assistant
    ensures log[0].content == system && log[1].content == AssistantContent(problem, solution)
  {
    [Message(System, system), Message(Assistant, AssistantContent(problem, solution))]
  }

  /** Given the length of the problem, the log sent for an idea determines
      the system prompt, the problem and the solution. */
  lemma MessageLogInjective(system: string, p: string, s: string, system': string, p': string, s': string)
    requires |p| == |p'|
    ensures MessageLog(system, p, s) == MessageLog(system', p', s') <==>
              system == system' && p == p' && s == s'
  {
    if MessageLog(system, p, s) == MessageLog(system', p', s') {
      assert MessageLog(system, p, s)[1] == MessageLog(system', p', s')[1];
      AssistantContentInjective(p, s, p', s');
    }
  }
}
