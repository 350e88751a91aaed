/** The prompt builder, `generate_prompt` in app.py: a fixed instruction
    template filled with the four form fields, plus one extra guideline line
    when hashtags are requested.  The source reads the form fields from
    module globals; here they are explicit arguments. */
module Prompt {
  import opened PyStr

  /** The five choices of the platform select box. */
  datatype Platform = Instagram | Twitter | LinkedIn | Facebook | Youtube

  /** The label the select box shows, which is what the prompt quotes. */
  function PlatformName(p: Platform): string {
    match p
    case Instagram => "Instagram"
    case Twitter => "Twitter"
    case LinkedIn => "LinkedIn"
    case Facebook => "Facebook"
    case Youtube => "Youtube"
  }

  /** Distinct platforms are quoted differently, so the prompt tells them apart. */
  lemma PlatformNameInjective(p: Platform, q: Platform)
    ensures PlatformName(p) == PlatformName(q) <==> p == q
  {
  }

  /** The value written in the Hashtags field. */
  function YesNo(b: bool): (r: string)
    ensures r == "Yes" <==> b
    ensures r == "No" <==> !b
  {
    if b then "Yes" else "No"
  }

  /** Opening line of the template (the f-string starts with a line break). */
  const Intro: string :=
    "\n    You are an expert in social media marketing. Generate an engaging, catchy caption based on:\n"

  /** The start of a field line, `    - **Label:** `, up to where the value begins. */
  function FieldLabel(name: string): string {
    "    - **" + name + ":** "
  }

  /** One labelled field line, `    - **Label:** value`. */
  function Field(name: string, value: string): string {
    FieldLabel(name) + value + "\n"
  }

  /** The four labelled fields, in template order. */
  function Fields(context: string, mood: string, platform: Platform, hashtags: bool): string {
    (Field("Context", context) + Field("Mood", mood))
      + (Field("Platform", PlatformName(platform)) + Field("Hashtags", YesNo(hashtags)))
  }

  const GuidelinesHeader: string := "    \n    **Guidelines:**\n"

  /** The first guideline, naming the platform a second time. */
  function ResonateLine(platform: Platform): string {
    "    - Make the caption resonate with " + PlatformName(platform) + " users.\n"
  }

  /** The fixed remainder of the template, up to the closing quotes. */
  const Closing: string :=
    "    - Keep it concise, engaging, and relevant.\n    - Use appropriate emojis.\n    "

  /** The guidelines block. */
  function Guidelines(platform: Platform): string {
    (GuidelinesHeader + ResonateLine(platform)) + Closing
  }

  /** The extra guideline appended when hashtags are requested. */
  const HashtagGuideline: string := "\n- Suggest 3-5 trending hashtags relevant to the topic."

  /** The f-string template, before the optional hashtag guideline. */
  function BaseTemplate(context: string, mood: string, platform: Platform, hashtags: bool): string {
    (Intro + Fields(context, mood, platform, hashtags)) + Guidelines(platform)
  }

  /** `generate_prompt()`: the template, followed by the hashtag guideline
      when hashtags are requested.  The template is always a prefix. */
  function GeneratePrompt(context: string, mood: string, platform: Platform, hashtags: bool): (r: string)
    ensures StartsWith(r, BaseTemplate(context, mood, platform, hashtags))
  {
    var base := BaseTemplate(context, mood, platform, hashtags);
    if hashtags then base + HashtagGuideline else base
  }

  /** The template ends in a space, so it never ends with the hashtag guideline. */
  lemma TemplateEndsInSpace(context: string, mood: string, platform: Platform, hashtags: bool)
    ensures var base := BaseTemplate(context, mood, platform, hashtags);
      |base| > 0 && base[|base| - 1] == ' ' && !EndsWith(base, HashtagGuideline)
  {
    var base := BaseTemplate(context, mood, platform, hashtags);
    assert base[|base| - 1] == ' ' by { assert Closing[|Closing| - 1] == ' '; }
    if |HashtagGuideline| <= |base| {
      assert base[|base| - |HashtagGuideline|..][|HashtagGuideline| - 1] == ' ';
    }
  }

  /** The prompt ends with the hashtag guideline exactly when hashtags are
      requested, and that guideline is then all that follows the template. */
  lemma HashtagGuidelineIffRequested(context: string, mood: string, platform: Platform, hashtags: bool)
    ensures var r := GeneratePrompt(context, mood, platform, hashtags);
      && (EndsWith(r, HashtagGuideline) <==> hashtags)
      && |r| == |BaseTemplate(context, mood, platform, hashtags)| + (if hashtags then |HashtagGuideline| else 0)
  {
    var base := BaseTemplate(context, mood, platform, hashtags);
    TemplateEndsInSpace(context, mood, platform, hashtags);
    if hashtags {
      var r := base + HashtagGuideline;
      assert r[|r| - |HashtagGuideline|..] == HashtagGuideline;
    }
  }

  /** Without hashtags the prompt is exactly the template; with them, the
      template followed by the hashtag guideline. */
  lemma PromptShape(context: string, mood: string, platform: Platform, hashtags: bool)
    ensures var base := BaseTemplate(context, mood, platform, hashtags);
      GeneratePrompt(context, mood, platform, hashtags)
        == if hashtags then base + HashtagGuideline else base
  {
  }

  /** A field line holds its value right after its label. */
  lemma FieldValue(name: string, value: string)
    ensures OccursAt(Field(name, value), value, |FieldLabel(name)|)
  {
    OccursInMiddle(FieldLabel(name), value, "\n");
  }

  /** Where the pieces sit in a string laid out like the template, for any
      pieces: the two field pairs after the opening, the platform guideline
      after the guidelines header. */
  lemma TemplateLayout(intro: string, a: string, b: string, header: string, line: string, closing: string)
    ensures var base := (intro + (a + b)) + ((header + line) + closing);
      && OccursAt(base, a, |intro|)
      && OccursAt(base, b, |intro| + |a|)
      && OccursAt(base, line, |intro| + |a| + |b| + |header|)
  {
    var head, rest := intro + (a + b), (header + line) + closing;
    var base := head + rest;
    OccursAfter(intro, a, b);
    assert StartsWith(base, head) by { assert base[..|head|] == head; }
    OccursInLonger(base, head, a, |intro|);
    assert head == (intro + a) + (b + []);
    OccursAfter(intro + a, b, []);
    OccursInLonger(base, head, b, |intro| + |a|);
    OccursInMiddle(head, rest, []);
    assert head + rest + [] == base;
    OccursInMiddle(header, line, closing);
    OccursWithin(base, rest, line, |head|, |header|);
  }

  /** The context, mood, platform and hashtag choice stand verbatim in their
      labelled fields, one after the other, right after the opening line; the
      platform is named again in the first guideline. */
  lemma PromptFields(context: string, mood: string, platform: Platform, hashtags: bool)
    ensures var r := GeneratePrompt(context, mood, platform, hashtags);
      && OccursAt(r, Field("Context", context) + Field("Mood", mood), |Intro|)
      && OccursAt(r, Field("Platform", PlatformName(platform)) + Field("Hashtags", YesNo(hashtags)),
                  |Intro| + |Field("Context", context) + Field("Mood", mood)|)
      && Contains(r, ResonateLine(platform))
  {
    var r := GeneratePrompt(context, mood, platform, hashtags);
    var a := Field("Context", context) + Field("Mood", mood);
    var b := Field("Platform", PlatformName(platform)) + Field("Hashtags", YesNo(hashtags));
    assert BaseTemplate(context, mood, platform, hashtags)
        == (Intro + (a + b)) + ((GuidelinesHeader + ResonateLine(platform)) + Closing);
    LayoutInPrompt(r, Intro, a, b, GuidelinesHeader, ResonateLine(platform), Closing);
  }

  /** The layout facts carry over to any string that starts with such a layout. */
  lemma LayoutInPrompt(r: string, intro: string, a: string, b: string, header: string, line: string, closing: string)
    requires StartsWith(r, (intro + (a + b)) + ((header + line) + closing))
    ensures OccursAt(r, a, |intro|) && OccursAt(r, b, |intro| + |a|) && Contains(r, line)
  {
    var base := (intro + (a + b)) + ((header + line) + closing);
    var k := |intro| + |a| + |b| + |header|;
    TemplateLayout(intro, a, b, header, line, closing);
    OccursInLonger(r, base, a, |intro|);
    OccursInLonger(r, base, b, |intro| + |a|);
    OccursInLonger(r, base, line, k);
    ContainsAt(r, line, k);
  }

  /** Two consecutive field lines hold their values right after their labels. */
  lemma FieldPairValues(r: string, i: int, n1: string, v1: string, n2: string, v2: string)
    requires OccursAt(r, Field(n1, v1) + Field(n2, v2), i)
    ensures OccursAt(r, v1, i + |FieldLabel(n1)|)
    ensures OccursAt(r, v2, i + |Field(n1, v1)| + |FieldLabel(n2)|)
  {
    var f1, f2 := Field(n1, v1), Field(n2, v2);
    FieldValue(n1, v1);
    FieldValue(n2, v2);
    OccursInMiddle([], f1, f2);
    OccursInMiddle(f1, f2, []);
    assert [] + f1 + f2 == f1 + f2 + [] == f1 + f2;
    OccursWithin(r, f1 + f2, f1, i, 0);
    OccursWithin(r, f1, v1, i, |FieldLabel(n1)|);
    OccursWithin(r, f1 + f2, f2, i, |f1|);
    OccursWithin(r, f2, v2, i + |f1|, |FieldLabel(n2)|);
  }

  /** Each of the four values appears verbatim in the prompt. */
  lemma PromptHasValues(context: string, mood: string, platform: Platform, hashtags: bool)
    ensures var r := GeneratePrompt(context, mood, platform, hashtags);
      && Contains(r, context) && Contains(r, mood) && Contains(r, PlatformName(platform))
      && Contains(r, YesNo(hashtags))
  {
    var r := GeneratePrompt(context, mood, platform, hashtags);
    var f1, f2 := Field("Context", context), Field("Mood", mood);
    var f3, f4 := Field("Platform", PlatformName(platform)), Field("Hashtags", YesNo(hashtags));
    assert BaseTemplate(context, mood, platform, hashtags)
        == (Intro + ((f1 + f2) + (f3 + f4))) + ((GuidelinesHeader + ResonateLine(platform)) + Closing);
    ValuesInLayout(r, Intro, "Context", context, "Mood", mood, "Platform", PlatformName(platform),
      "Hashtags", YesNo(hashtags), GuidelinesHeader + ResonateLine(platform) + Closing);
  }

  /** In a string starting with four field lines after an opening, all four
      values occur. */
  lemma ValuesInLayout(r: string, intro: string, n1: string, v1: string, n2: string, v2: string,
                       n3: string, v3: string, n4: string, v4: string, rest: string)
    requires StartsWith(r, (intro + ((Field(n1, v1) + Field(n2, v2)) + (Field(n3, v3) + Field(n4, v4)))) + rest)
    ensures Contains(r, v1) && Contains(r, v2) && Contains(r, v3) && Contains(r, v4)
  {
    var a, b := Field(n1, v1) + Field(n2, v2), Field(n3, v3) + Field(n4, v4);
    LayoutInPrompt(r, intro, a, b, [], [], rest);
    FieldPairContains(r, |intro|, n1, v1, n2, v2);
    FieldPairContains(r, |intro| + |a|, n3, v3, n4, v4);
  }

  /** Both values of two consecutive field lines occur in the string. */
  lemma FieldPairContains(r: string, i: int, n1: string, v1: string, n2: string, v2: string)
    requires OccursAt(r, Field(n1, v1) + Field(n2, v2), i)
    ensures Contains(r, v1) && Contains(r, v2)
  {
    FieldPairValues(r, i, n1, v1, n2, v2);
    ContainsAt(r, v1, i + |FieldLabel(n1)|);
    ContainsAt(r, v2, i + |Field(n1, v1)| + |FieldLabel(n2)|);
  }

  /** The Bali example: every field value and the hashtag request appear. */
  lemma BaliExample()
    ensures var r := GeneratePrompt("Vacation in Bali", "Fun", Instagram, true);
      && Contains(r, "Vacation in Bali")
      && Contains(r, "Fun")
      && Contains(r, "Instagram")
      && Contains(r, "Yes")
      && EndsWith(r, HashtagGuideline)
  {
    PromptHasValues("Vacation in Bali", "Fun", Instagram, true);
    HashtagGuidelineIffRequested("Vacation in Bali", "Fun", Instagram, true);
  }
}
