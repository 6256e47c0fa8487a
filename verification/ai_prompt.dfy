/** The prompt side of `generateMessage` in lib/ai.ts: the tone and occasion
    description tables, the optional recipient fragment and the assembled
    prompt sent to the language model. */
module Prompt {
  import opened Wrappers
  import opened Text

  /** `MessageTone`. */
  datatype Tone = Warm | Formal | Casual | Heartfelt

  /** `Occasion`. */
  datatype Occasion =
    | Birthday | Anniversary | Apology | Gratitude | Congratulations | JustBecause | Custom

  /** `toneDescriptions`: defined, and non-empty, for every tone. */
  function ToneDescription(t: Tone): (d: string)
    ensures |d| > 0
  {
    match t
    case Warm => "warm and friendly"
    case Formal => "professional and respectful"
    case Casual => "relaxed and conversational"
    case Heartfelt => "deeply emotional and sincere"
  }

  /** `occasionTemplates`: defined, and non-empty, for every occasion. */
  function OccasionTemplate(o: Occasion): (d: string)
    ensures |d| > 0
  {
    match o
    case Birthday => "a birthday message"
    case Anniversary => "an anniversary message"
    case Apology => "an apology message"
    case Gratitude => "a gratitude/thank you message"
    case Congratulations => "a congratulations message"
    case JustBecause => "a thoughtful message for no particular occasion"
    case Custom => "a personalized message"
  }

  /** No two tones share a description, so the prompt always tells them apart. */
  lemma ToneDescriptionInjective(a: Tone, b: Tone)
    ensures ToneDescription(a) == ToneDescription(b) ==> a == b
  {
  }

  /** No two occasions share a template. */
  lemma OccasionTemplateInjective(a: Occasion, b: Occasion)
    ensures OccasionTemplate(a) == OccasionTemplate(b) ==> a == b
  {
  }

  /** `recipientText`: empty when the name is absent or empty (both falsy in
      TypeScript), otherwise " for " followed by the name itself. */
  function RecipientText(name: Option<string>): (r: string)
    ensures r == [] <==> (name.None? || name.value == [])
    ensures r != [] ==> |r| > 5 && r[..5] == " for " && r[5..] == name.value
  {
    if name.Some? && name.value != [] then " for " + name.value else ""
  }

  /** The system prompt; the tone description is its only variable part and
      sits verbatim right after the fixed opening. */
  function SystemPrompt(toneText: string): (r: string)
    ensures Contains(r, toneText)
    ensures |r| == |SystemPromptHead| + |toneText| + |SystemPromptRules|
    ensures r[..|SystemPromptHead|] == SystemPromptHead
    ensures r[|SystemPromptHead|..|SystemPromptHead| + |toneText|] == toneText
  {
    ContainsEnd(SystemPromptHead, toneText);
    ContainsExtend(SystemPromptHead + toneText, SystemPromptRules, toneText);
    SystemPromptHead + toneText + SystemPromptRules
  }

  /** Different tone descriptions give different system prompts. */
  lemma SystemPromptDeterminesTone(t1: string, t2: string)
    requires SystemPrompt(t1) == SystemPrompt(t2)
    ensures t1 == t2
  {
    var h := |SystemPromptHead|;
    assert t1 == SystemPrompt(t1)[h..h + |t1|];
  }

  const SystemPromptHead: string :=
    "You are an expert at writing heartfelt, personal messages for special occasions. "
    + "Your goal is to help people express their emotions authentically and meaningfully.\n"
    + "\n"
    + "Guidelines:\n"
    + "- Write in a "

  const SystemPromptRules: string :=
    " tone\n"
    + "- Keep messages concise but impactful (2-4 paragraphs)\n"
    + "- Be specific and personal when context is provided\n"
    + "- Avoid clich\U{00E9}s and generic phrases\n"
    + "- Make it feel genuine and from the heart\n"
    + "- Do not use emojis unless specifically requested\n"
    + "- Write in a way that sounds natural when read aloud"

  const UserPromptHead: string := "Write "
  const ContextLead: string := " tone.\n\nContext from the sender: "

  /** The fixed instructions closing the user prompt, which ask for the
      SUBJECT:/BODY: layout the reply parser expects. */
  const UserPromptTail: string :=
    "\n\nPlease provide:\n"
    + "1. An appropriate email subject line (short and engaging)\n"
    + "2. The message body (warm, personal, and heartfelt)\n"
    + "\n"
    + "Format your response exactly as follows:\n"
    + "SUBJECT: [your subject line here]\n"
    + "\n"
    + "BODY:\n"
    + "[your message body here]"

  /** The user prompt built from the four parameters of `generateMessage`. It
      carries the occasion text immediately followed by the recipient
      fragment, the tone text and the sender's context, each verbatim, and
      always closes with the layout request. */
  function UserPrompt(o: Occasion, name: Option<string>, t: Tone, context: string): (r: string)
    ensures Contains(r, OccasionTemplate(o) + RecipientText(name))
    ensures Contains(r, ToneDescription(t))
    ensures Contains(r, context)
    ensures EndsWith(r, UserPromptTail)
  {
    TemplateMentionsInputs(OccasionTemplate(o), RecipientText(name), ToneDescription(t), context);
    UserPromptOf(OccasionTemplate(o), RecipientText(name), ToneDescription(t), context)
  }

  /** The user prompt template, over the already looked-up texts. The
      sender's context sits verbatim between the fixed text that ends in
      `ContextLead` and the layout request that closes the prompt. */
  function UserPromptOf(occasionText: string, recipientText: string, toneText: string, context: string): (r: string)
    ensures var pre := UserPromptHead + occasionText + recipientText + " with a " + toneText + ContextLead;
            && |r| == |pre| + |context| + |UserPromptTail|
            && r[..|pre|] == pre
            && r[|pre|..|pre| + |context|] == context
            && EndsWith(r, UserPromptTail)
  {
    var pre := UserPromptHead + occasionText + recipientText + " with a " + toneText + ContextLead;
    assert pre + context + UserPromptTail
           == UserPromptHead + occasionText + recipientText + " with a " + toneText + ContextLead + context + UserPromptTail;
    pre + context + UserPromptTail
  }

  /** The single user message sent to the model: system prompt, a blank line,
      user prompt. It opens with the system prompt and closes with the layout
      request. */
  function PromptContent(o: Occasion, name: Option<string>, t: Tone, context: string): (r: string)
    ensures var sp := SystemPrompt(ToneDescription(t));
            |r| > |sp| + 2 && r[..|sp| + 2] == sp + "\n\n"
    ensures var sp := SystemPrompt(ToneDescription(t));
            r[|sp| + 2..] == UserPrompt(o, name, t, context)
    ensures EndsWith(r, UserPromptTail)
  {
    var sp := SystemPrompt(ToneDescription(t));
    var u := UserPrompt(o, name, t, context);
    JoinedParts(sp, "\n\n", u, UserPromptTail);
    sp + "\n\n" + u
  }

  /** The template keeps each of its inputs verbatim. */
  lemma TemplateMentionsInputs(occ: string, rt: string, tone: string, context: string)
    ensures Contains(UserPromptOf(occ, rt, tone, context), occ + rt)
    ensures Contains(UserPromptOf(occ, rt, tone, context), tone)
    ensures Contains(UserPromptOf(occ, rt, tone, context), context)
  {
    var h := UserPromptHead;
    ContainsEndPair(h, occ, rt);
    ContainsExtend(h + occ + rt, " with a ", occ + rt);
    ContainsExtend(h + occ + rt + " with a ", tone, occ + rt);
    ContainsExtend(h + occ + rt + " with a " + tone, ContextLead, occ + rt);
    ContainsExtend(h + occ + rt + " with a " + tone + ContextLead, context, occ + rt);
    ContainsExtend(h + occ + rt + " with a " + tone + ContextLead + context, UserPromptTail, occ + rt);
    ContainsEnd(h + occ + rt + " with a ", tone);
    ContainsExtend(h + occ + rt + " with a " + tone, ContextLead, tone);
    ContainsExtend(h + occ + rt + " with a " + tone + ContextLead, context, tone);
    ContainsExtend(h + occ + rt + " with a " + tone + ContextLead + context, UserPromptTail, tone);
    ContainsEnd(h + occ + rt + " with a " + tone + ContextLead, context);
    ContainsExtend(h + occ + rt + " with a " + tone + ContextLead + context, UserPromptTail, context);
  }

  /** Placing the system prompt in front keeps the tone text and the context verbatim. */
  lemma ContentKeepsInputs(sh: string, sr: string, sep: string, u: string, tone: string, context: string)
    requires Contains(u, context)
    ensures Contains(sh + tone + sr + sep + u, tone)
    ensures Contains(sh + tone + sr + sep + u, context)
  {
    ContainsEnd(sh, tone);
    ContainsExtend(sh + tone, sr, tone);
    ContainsExtend(sh + tone + sr, sep, tone);
    ContainsExtend(sh + tone + sr + sep, u, tone);
    ContainsPrepend(sh + tone + sr + sep, u, context);
  }

  /** The prompt sent to the model carries the occasion text with the
      recipient fragment, the tone description and the sender's context. */
  lemma PromptContentMentionsInputs(o: Occasion, name: Option<string>, t: Tone, context: string)
    ensures Contains(PromptContent(o, name, t, context), OccasionTemplate(o) + RecipientText(name))
    ensures Contains(PromptContent(o, name, t, context), ToneDescription(t))
    ensures Contains(PromptContent(o, name, t, context), context)
  {
    var tone := ToneDescription(t);
    var u := UserPrompt(o, name, t, context);
    TemplateMentionsInputs(OccasionTemplate(o), RecipientText(name), tone, context);
    ContentKeepsInputs(SystemPromptHead, SystemPromptRules, "\n\n", u, tone, context);
    ContainsPrepend(SystemPrompt(tone) + "\n\n", u, OccasionTemplate(o) + RecipientText(name));
  }

  /** Different sender contexts always give different prompts: the context is
      never lost or merged into the fixed text. */
  lemma UserPromptDeterminesContext(o: Occasion, name: Option<string>, t: Tone, c1: string, c2: string)
    requires UserPrompt(o, name, t, c1) == UserPrompt(o, name, t, c2)
    ensures c1 == c2
  {
    var u1 := UserPromptOf(OccasionTemplate(o), RecipientText(name), ToneDescription(t), c1);
    var u2 := UserPromptOf(OccasionTemplate(o), RecipientText(name), ToneDescription(t), c2);
    assert u1 == u2;
    assert |c1| == |c2|;
  }
}
