/** The prompt builders of reader.py: plain concatenations around a fenced
    `html` block (conversion) or a bare fenced block (summary). */
module Prompts {
  import opened Strings

  // Each conversion instruction is written in two pieces so that the
  // character where they first differ can be read off a short literal.
  const MarkdownInstruction := "Extract the main" + " content from the given HTML and convert it to Markdown format. Output only the resulting markdown without repeating the HTML or instructions."
  const JsonInstruction := "Extract the specified" + " information from the HTML and present it as structured JSON. Output only the JSON result."
  const SummaryInstruction := "Summarize the following text in a concise paragraph. Output only the summary."

  const HtmlOpen := "\n```html\n"
  const FenceClose := "\n```\n"
  const SchemaIntro := "The JSON schema is as follows:\n```json\n"
  const OutputMarker := "Output:\n"
  const PlainOpen := "\n```\n"
  const SummaryMarker := "Summary:\n"

  /** Python truthiness of an optional string argument: `None` and `""` are false. */
  predicate Given(s: Option<string>) {
    s.Some? && s.value != ""
  }

  /** The instruction a conversion prompt opens with. */
  function Instruction(instruction: Option<string>, schema: Option<string>): string {
    if Given(schema) then JsonInstruction
    else if Given(instruction) then instruction.value
    else MarkdownInstruction
  }

  /** `m` sits between `a` and `b` in `a + m + b`. */
  lemma Framed(a: string, m: string, b: string)
    ensures StartsWith(a + m + b, a) && OccursAt(a + m + b, m, |a|) && EndsWith(a + m + b, b)
  {
    assert (a + m + b)[..|a|] == a;
    assert (a + m + b)[|a|..|a| + |m|] == m;
    assert (a + m + b)[|a + m|..] == b;
  }

  lemma Regroup(a: string, h: string, t: string, f: string, b: string)
    ensures a + (h + t + f) + b == (a + h) + t + (f + b) == a + h + t + f + b
  {
  }

  lemma Regroup4(p: string, a: string, b: string, c: string, d: string)
    ensures p + (a + b + c + d) == p + a + b + c + d
  {
  }

  /** `create_conversion_prompt(text, instruction, schema)`. */
  function ConversionPrompt(text: string, instruction: Option<string>, schema: Option<string>): (prompt: string)
    ensures StartsWith(prompt, Instruction(instruction, schema))
    ensures OccursAt(prompt, HtmlOpen + text + FenceClose, |Instruction(instruction, schema)|)
    ensures EndsWith(prompt, OutputMarker)
    ensures Given(schema) ==> EndsWith(prompt, SchemaIntro + schema.value + FenceClose + OutputMarker)
  {
    var instr := Instruction(instruction, schema);
    var tail := if Given(schema) then SchemaIntro + schema.value + FenceClose + OutputMarker else OutputMarker;
    Framed(instr, HtmlOpen + text + FenceClose, tail);
    assert EndsWith(tail, OutputMarker) by { Framed(if Given(schema) then SchemaIntro + schema.value + FenceClose else "", OutputMarker, ""); }
    instr + (HtmlOpen + text + FenceClose) + tail
  }

  /** `create_summary_prompt(text)`. */
  function SummaryPrompt(text: string): (prompt: string)
    ensures StartsWith(prompt, SummaryInstruction)
    ensures OccursAt(prompt, PlainOpen + text + FenceClose, |SummaryInstruction|)
    ensures EndsWith(prompt, SummaryMarker)
  {
    Framed(SummaryInstruction, PlainOpen + text + FenceClose, SummaryMarker);
    SummaryInstruction + (PlainOpen + text + FenceClose) + SummaryMarker
  }

  // ---------------------------------------------------------------------
  // Properties

  /** The two layouts, written out as the f-strings of reader.py have them. */
  lemma ConversionPromptLayout(text: string, instruction: Option<string>, schema: Option<string>)
    requires !Given(schema)
    ensures ConversionPrompt(text, instruction, schema)
      == Instruction(instruction, schema) + "\n```html\n" + text + "\n```\n" + "Output:\n"
  {
    Regroup(Instruction(instruction, schema), HtmlOpen, text, FenceClose, OutputMarker);
  }

  lemma JsonPromptLayout(text: string, instruction: Option<string>, schema: Option<string>)
    requires Given(schema)
    ensures ConversionPrompt(text, instruction, schema)
      == JsonInstruction + "\n```html\n" + text + "\n```\n" + "The JSON schema is as follows:\n```json\n"
         + schema.value + "\n```\n" + "Output:\n"
  {
    Regroup(JsonInstruction, HtmlOpen, text, FenceClose, SchemaIntro + schema.value + FenceClose + OutputMarker);
    Regroup4(JsonInstruction + HtmlOpen + text + FenceClose, SchemaIntro, schema.value, FenceClose, OutputMarker);
  }

  lemma SummaryPromptLayout(text: string)
    ensures SummaryPrompt(text) == SummaryInstruction + "\n```\n" + text + "\n```\n" + "Summary:\n"
  {
  }

  /** A missing or empty instruction gives the Markdown instruction; a given
      instruction is used as it is unless a schema is given. */
  lemma InstructionDefault(instruction: Option<string>, schema: Option<string>)
    ensures !Given(schema) && !Given(instruction) ==> Instruction(instruction, schema) == MarkdownInstruction
    ensures !Given(schema) && Given(instruction) ==> Instruction(instruction, schema) == instruction.value
    ensures Given(schema) ==> Instruction(instruction, schema) == JsonInstruction
  {
  }

  /** With a schema the instruction argument has no effect at all, and the
      prompt never opens with the Markdown instruction. */
  lemma SchemaOverridesInstruction(text: string, i1: Option<string>, i2: Option<string>, schema: Option<string>)
    requires Given(schema)
    ensures ConversionPrompt(text, i1, schema) == ConversionPrompt(text, i2, schema)
    ensures StartsWith(ConversionPrompt(text, i1, schema), JsonInstruction)
    ensures !StartsWith(ConversionPrompt(text, i1, schema), MarkdownInstruction)
  {
    var prompt := ConversionPrompt(text, i1, schema);
    assert prompt[12] == JsonInstruction[12] == 's';
    assert MarkdownInstruction[12] == 'm';
    assert |MarkdownInstruction| > 12;
  }

  /** An empty schema behaves exactly like no schema, an empty instruction
      exactly like no instruction. */
  lemma EmptyArgumentsAreMissing(text: string, instruction: Option<string>, schema: Option<string>)
    ensures ConversionPrompt(text, instruction, Some("")) == ConversionPrompt(text, instruction, None)
    ensures ConversionPrompt(text, Some(""), schema) == ConversionPrompt(text, None, schema)
  {
  }

  /** The text sits between the fixed head and tail: it can be read back out
      of the prompt, so distinct texts give distinct prompts. */
  lemma {:induction false} ConversionTextRecoverable(text: string, instruction: Option<string>, schema: Option<string>)
    ensures var prompt := ConversionPrompt(text, instruction, schema);
      var head := |Instruction(instruction, schema)| + |HtmlOpen|;
      var tail := |FenceClose| + (if Given(schema) then |SchemaIntro| + |schema.value| + |FenceClose| else 0) + |OutputMarker|;
      head + tail <= |prompt| && prompt[head..|prompt| - tail] == text
  {
    var instr := Instruction(instruction, schema);
    var rest := if Given(schema) then SchemaIntro + schema.value + FenceClose + OutputMarker else OutputMarker;
    Regroup(instr, HtmlOpen, text, FenceClose, rest);
    Framed(instr + HtmlOpen, text, FenceClose + rest);
  }

  lemma ConversionPromptInjective(t1: string, t2: string, instruction: Option<string>, schema: Option<string>)
    requires ConversionPrompt(t1, instruction, schema) == ConversionPrompt(t2, instruction, schema)
    ensures t1 == t2
  {
    ConversionTextRecoverable(t1, instruction, schema);
    ConversionTextRecoverable(t2, instruction, schema);
  }

  lemma {:induction false} SummaryTextRecoverable(text: string)
    ensures var prompt := SummaryPrompt(text);
      |SummaryInstruction| + |PlainOpen| + |FenceClose| + |SummaryMarker| <= |prompt|
      && prompt[|SummaryInstruction| + |PlainOpen|..|prompt| - |FenceClose| - |SummaryMarker|] == text
  {
    Regroup(SummaryInstruction, PlainOpen, text, FenceClose, SummaryMarker);
    Framed(SummaryInstruction + PlainOpen, text, FenceClose + SummaryMarker);
  }

  lemma SummaryPromptInjective(t1: string, t2: string)
    requires SummaryPrompt(t1) == SummaryPrompt(t2)
    ensures t1 == t2
  {
    SummaryTextRecoverable(t1);
    SummaryTextRecoverable(t2);
  }
}
