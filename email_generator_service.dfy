/** The backend service that asks the Gemini model for three reply options:
    the prompt it builds, the way it strips a Markdown code fence from the
    model's text and turns the result into a list of replies, and the fixed
    mock replies it falls back to when the remote call fails.

    The JSON library (Jackson's `ObjectMapper`) and the HTTP call
    (`WebClient`) are not modelled; they are parameters of the operations
    that use them. */
module EmailGeneratorService {
  import opened Wrappers
  import opened Strings
  import opened JavaString

  /** A Java `String` reference; `None` stands for `null`. */
  type JavaText = Option<string>

  /** The text that `+` and `StringBuilder.append` write for a reference:
      `null` is written as the four letters "null". */
  function Show(s: JavaText): string {
    match s
    case None => "null"
    case Some(t) => t
  }

  /** The request body received from the form: email text and tone. */
  datatype EmailRequest = EmailRequest(emailContent: JavaText, tone: JavaText)

  // ---------------------------------------------------------------------
  // Prompt
  // ---------------------------------------------------------------------

  const Sentence1: string := "Generate three separate email reply options for the following message. "
  const Sentence2: string := "Each reply should be in a different tone: Simple, Inquiring, and Casual. "
  const Sentence3: string := "Return the replies as a JSON array of strings. Each string should be a complete email reply including greeting, body, and closing. Use natural email formatting like 'Hi', 'Thank you', 'Best regards', etc. "
  const Sentence4: string := "Do not include subject lines or titles. "

  /** The fixed instruction text every prompt begins with. */
  const Preamble: string := Sentence1 + Sentence2 + Sentence3 + Sentence4

  const ToneLead: string := "Prioritize a "
  const OriginalEmailHeader: string := "\nOriginal email:\n"

  /** The tone sentence is added when the tone is neither null nor empty. */
  predicate ToneGiven(tone: JavaText) {
    tone.Some? && tone.value != ""
  }

  function ToneSentence(tone: JavaText): string {
    if ToneGiven(tone) then ToneLead + tone.value + " tone. " else ""
  }

  /** The prompt sent to the model for `req`. */
  function PromptFor(req: EmailRequest): string {
    Preamble + ToneSentence(req.tone) + OriginalEmailHeader + Show(req.emailContent)
  }

  /** `buildPrompt`: appends the four instruction sentences, the optional
      tone sentence and the original email to a string builder. */
  method BuildPrompt(req: EmailRequest) returns (prompt: string)
    ensures prompt == PromptFor(req)
  {
    prompt := "";
    EmptyPrefix(Sentence1);
    prompt := prompt + Sentence1;
    prompt := prompt + Sentence2;
    prompt := prompt + Sentence3;
    prompt := prompt + Sentence4;
    assert prompt == Preamble;
    if req.tone != None && req.tone.value != "" {
      prompt := prompt + ToneLead + req.tone.value + " tone. ";
    }
    assert prompt == Preamble + ToneSentence(req.tone);
    prompt := prompt + OriginalEmailHeader + Show(req.emailContent);
  }

  /* Appending to an empty builder gives the appended text; a hint for
     the solver, which otherwise unfolds the literal sentences. */
  lemma EmptyPrefix(s: string)
    ensures "" + s == s
  {
  }

  /** Layout of every prompt, stated for any instruction text `pre`
      (`PromptFor(req)` is the case `pre == Preamble`): the instructions
      first, the original email last behind its header, and between them
      exactly the tone sentence, which is there precisely when a non-empty
      tone was given. */
  lemma PromptLayout(pre: string, req: EmailRequest)
    ensures var p := pre + ToneSentence(req.tone) + OriginalEmailHeader + Show(req.emailContent);
      StartsWith(p, pre) &&
      |p| == |pre| + |ToneSentence(req.tone)| + |OriginalEmailHeader| + |Show(req.emailContent)| &&
      p[|p| - |OriginalEmailHeader + Show(req.emailContent)|..] == OriginalEmailHeader + Show(req.emailContent) &&
      p[|pre|..|pre| + |ToneSentence(req.tone)|] ==
        (if ToneGiven(req.tone) then ToneLead + req.tone.value + " tone. " else "")
    ensures var p := pre + ToneSentence(req.tone) + OriginalEmailHeader + Show(req.emailContent);
      ToneGiven(req.tone) <==> StartsWith(p[|pre|..], ToneLead)
  {
    var sentence := ToneSentence(req.tone);
    ConcatLayout(pre, sentence, OriginalEmailHeader, Show(req.emailContent));
    if ToneGiven(req.tone) {
      assert StartsWith(sentence, ToneLead);
      StartsWithExtends(sentence, OriginalEmailHeader + Show(req.emailContent), ToneLead);
    } else {
      assert OriginalEmailHeader[0] != ToneLead[0];
    }
  }

  /* Where each of four concatenated parts sits; a hint for the solver,
     stated over variables so that no literal is unfolded. */
  lemma ConcatLayout(a: string, b: string, c: string, d: string)
    ensures var p := a + b + c + d;
      StartsWith(p, a) && |p| == |a| + |b| + |c| + |d| &&
      p[|p| - |c + d|..] == c + d && p[|a|..|a| + |b|] == b && p[|a|..] == b + (c + d)
  {
  }

  /* A prefix of the first part is a prefix of the whole. */
  lemma StartsWithExtends(b: string, rest: string, pre: string)
    requires StartsWith(b, pre)
    ensures StartsWith(b + rest, pre)
  {
    assert (b + rest)[..|pre|] == b[..|pre|];
  }

  // ---------------------------------------------------------------------
  // Code-fence stripping
  // ---------------------------------------------------------------------

  const Fence: string := "```"

  /** The text after the first line break (the fence and its language
      tag); all of `t` when there is no line break, since `indexOf` then
      returns -1. */
  function DropFirstLine(t: string): string {
    t[IndexOf(t, '\n') + 1..]
  }

  /** The text before the last fence, trimmed; unchanged when there is no
      fence. */
  function CutAtLastFence(u: string): string {
    var close := LastIndexOf(u, Fence);
    if close == -1 then u else Trim(u[..close])
  }

  /** The text handed to the JSON parser: the trimmed model text, or, when
      that starts with a fence, the part after the first line break, cut at
      the last fence (and then trimmed again) if one is left. */
  function StripCodeFence(text: string): string {
    var t := Trim(text);
    if StartsWith(t, Fence) then CutAtLastFence(DropFirstLine(t)) else t
  }

  /** Unfenced text reaches the parser as just its trimmed form. */
  lemma UnfencedIsTrimmed(text: string)
    requires !StartsWith(Trim(text), Fence)
    ensures StripCodeFence(text) == Trim(text)
  {
  }

  /* Each stripping step keeps a substring of its input. */
  lemma DropFirstLineOccurs(t: string)
    ensures OccursAt(t, DropFirstLine(t), IndexOf(t, '\n') + 1)
  {
    var n := IndexOf(t, '\n') + 1;
    assert 0 <= n <= |t|;
    assert t[n..n + |t[n..]|] == t[n..];
  }

  lemma CutAtLastFenceContained(u: string)
    ensures Contains(u, CutAtLastFence(u))
  {
    var close := LastIndexOf(u, Fence);
    if close == -1 {
      SliceOccurs(u, 0, |u|);
      assert u[0..|u|] == u;
    } else {
      var cut := u[..close];
      SliceOccurs(u, 0, close);
      OccursAtCompose(u, cut, Trim(cut), 0, LeadingSpace(cut));
    }
  }

  lemma ContainsTransitive(s: string, t: string, u: string)
    requires Contains(s, t) && Contains(t, u)
    ensures Contains(s, u)
  {
    var i :| 0 <= i <= |s| && OccursAt(s, t, i);
    var j :| 0 <= j <= |t| && OccursAt(t, u, j);
    OccursAtCompose(s, t, u, i, j);
  }

  /** Whatever is stripped, the result is a substring of the model's text
      and so never longer than it. */
  lemma StripCodeFenceIsSubstring(text: string)
    ensures Contains(text, StripCodeFence(text))
    ensures |StripCodeFence(text)| <= |text|
  {
    var t := Trim(text);
    assert OccursAt(text, t, LeadingSpace(text));
    if StartsWith(t, Fence) {
      var u := DropFirstLine(t);
      DropFirstLineOccurs(t);
      assert Contains(t, u);
      CutAtLastFenceContained(u);
      ContainsTransitive(t, u, CutAtLastFence(u));
      ContainsTransitive(text, t, CutAtLastFence(u));
    }
  }

  /** Padding of trimmable characters around a string with non-trimmable
      ends is exactly what `trim` removes. */
  lemma TrimPadded(lead: string, x: string, trail: string)
    requires x != [] && !IsTrimmable(x[0]) && !IsTrimmable(x[|x| - 1])
    requires forall i :: 0 <= i < |lead| ==> IsTrimmable(lead[i])
    requires forall i :: 0 <= i < |trail| ==> IsTrimmable(trail[i])
    ensures Trim(lead + x + trail) == x
  {
    var s := lead + x + trail;
    var a := LeadingSpace(s);
    var b := TrailingSpaceStart(s);
    assert s[|lead|] == x[0];
    assert s[|lead| + |x| - 1] == x[|x| - 1];
    assert a == |lead|;
    assert b == |lead| + |x|;
    assert s[a..b] == x;
  }

  /** The intended use: a fence with a language tag on its own line, the
      body, and a closing fence, possibly padded with white space, yields
      exactly the trimmed body, whatever the body contains. */
  lemma FencedRoundTrip(lead: string, tag: string, body: string, trail: string)
    requires '\n' !in tag
    requires forall i :: 0 <= i < |lead| ==> IsTrimmable(lead[i])
    requires forall i :: 0 <= i < |trail| ==> IsTrimmable(trail[i])
    ensures StripCodeFence(lead + Fence + tag + "\n" + body + Fence + trail) == Trim(body)
  {
    var x := Fence + tag + "\n" + body + Fence;
    var padded := lead + Fence + tag + "\n" + body + Fence + trail;
    assert StripCodeFence(x) == Trim(body) by {
      FencedBlock(tag, body);
    }
    assert Trim(padded) == Trim(x) by {
      assert x[0] == '`' && x[|x| - 1] == '`';
      Regroup(lead, Fence, tag, "\n", body, Fence, trail);
      TrimPadded(lead, x, trail);
      TrimUnchanged(x);
    }
    StripDependsOnTrim(padded, x);
  }

  /* Concatenation regrouped around its middle five parts; a hint for the
     solver, stated over variables so that no literal is unfolded. */
  lemma Regroup(a: string, b: string, c: string, d: string, e: string, f: string, g: string)
    ensures a + b + c + d + e + f + g == a + (b + c + d + e + f) + g
  {
  }

  /* Stripping sees its input only through `trim`. */
  lemma StripDependsOnTrim(a: string, b: string)
    requires Trim(a) == Trim(b)
    ensures StripCodeFence(a) == StripCodeFence(b)
  {
  }

  /* The unpadded case of the round trip. */
  lemma FencedBlock(tag: string, body: string)
    requires '\n' !in tag
    ensures StripCodeFence(Fence + tag + "\n" + body + Fence) == Trim(body)
  {
    var x := Fence + tag + "\n" + body + Fence;
    assert x[0] == '`' && x[|x| - 1] == '`';
    TrimUnchanged(x);
    assert StartsWith(x, Fence);
    FirstLineOfFence(tag, body + Fence);
    assert x == Fence + tag + "\n" + (body + Fence);
    CutAtClosingFence(body);
  }

  /* The first line break of a fence line followed by `rest` ends the tag. */
  lemma FirstLineOfFence(tag: string, rest: string)
    requires '\n' !in tag
    ensures DropFirstLine(Fence + tag + "\n" + rest) == rest
  {
    var x := Fence + tag + "\n" + rest;
    var n := IndexOf(x, '\n');
    assert x[|Fence| + |tag|] == '\n';
    assert n == |Fence| + |tag|;
    assert x[n + 1..] == rest;
  }

  /* A body followed by a closing fence is cut back to the trimmed body. */
  lemma CutAtClosingFence(body: string)
    ensures CutAtLastFence(body + Fence) == Trim(body)
  {
    var u := body + Fence;
    assert OccursAt(u, Fence, |body|);
    assert LastIndexOf(u, Fence) == |body|;
    assert u[..|body|] == body;
  }

  /** On a single line there is no line break, so nothing is skipped: the
      opening fence stays in the text handed to the parser. */
  lemma SingleLineKeepsOpeningFence(tag: string)
    requires '\n' !in tag
    ensures StartsWith(StripCodeFence(Fence + tag + Fence), Fence)
  {
    var x := Fence + tag + Fence;
    assert x[|x| - 1] == '`';
    TrimUnchanged(x);
    assert StartsWith(x, Fence);
    assert '\n' !in x by {
      assert x == Fence + (tag + Fence);
    }
    assert IndexOf(x, '\n') == -1;
    assert x[0..] == x;
    var close := LastIndexOf(x, Fence);
    assert OccursAt(x, Fence, |Fence| + |tag|);
    assert close == |Fence| + |tag|;
    var c := x[..close];
    assert c == Fence + tag;
    assert LeadingSpace(c) == 0 by {
      assert !IsTrimmable(c[0]);
    }
    var r := Trim(c);
    assert TrailingSpaceStart(c) >= 3 by {
      assert !IsTrimmable(c[2]);
    }
    assert r == c[..TrailingSpaceStart(c)];
  }

  /** An unclosed block on one line leaves nothing: with no line break
      nothing is skipped, the only fence left is the opening one, and
      everything from it onward is cut. This holds for a bare fence and
      for a tag with trailing white space too. */
  lemma OpeningFenceOnly(tag: string)
    requires '\n' !in tag && '`' !in tag
    ensures StripCodeFence(Fence + tag) == ""
  {
    var kept := TrimFenceLine(tag);
    var t := Fence + kept;
    assert StartsWith(t, Fence);
    SingleLineNotSkipped(kept);
    OnlyOpeningFence(kept);
    assert t[..0] == "";
  }

  /* Trimming a fence line only drops trailing white space from the tag. */
  lemma TrimFenceLine(tag: string) returns (kept: string)
    requires '\n' !in tag && '`' !in tag
    ensures Trim(Fence + tag) == Fence + kept
    ensures '\n' !in kept && '`' !in kept
  {
    var x := Fence + tag;
    var b := TrailingSpaceStart(x);
    assert b >= |Fence| by {
      assert !IsTrimmable(x[|Fence| - 1]);
    }
    assert LeadingSpace(x) == 0 by {
      assert !IsTrimmable(x[0]);
    }
    kept := tag[..b - |Fence|];
    assert x[..b] == Fence + kept;
    forall i | 0 <= i < |kept|
      ensures kept[i] != '\n' && kept[i] != '`'
    {
      assert kept[i] == tag[i];
    }
  }

  /* Without a line break `indexOf` gives -1 and nothing is dropped. */
  lemma SingleLineNotSkipped(tag: string)
    requires '\n' !in tag
    ensures DropFirstLine(Fence + tag) == Fence + tag
  {
    var x := Fence + tag;
    forall i | 0 <= i < |x|
      ensures x[i] != '\n'
    {
      if i >= |Fence| { assert x[i] == tag[i - |Fence|]; }
    }
    assert IndexOf(x, '\n') == -1;
    assert x[0..] == x;
  }

  /* With no backtick after it, the opening fence is the last one. */
  lemma OnlyOpeningFence(tag: string)
    requires '`' !in tag
    ensures LastIndexOf(Fence + tag, Fence) == 0
  {
    var x := Fence + tag;
    forall j | 0 < j
      ensures !OccursAt(x, Fence, j)
    {
      if j + |Fence| <= |x| {
        assert x[j..j + |Fence|][|Fence| - 1] == x[j + |Fence| - 1] == tag[j - 1];
      }
    }
    assert OccursAt(x, Fence, 0);
  }

  /** An unclosed block over several lines is passed on as everything
      after the first line break, without the final trim: leading white
      space of the body survives. */
  lemma UnclosedFenceKeepsBody(tag: string, body: string)
    requires '\n' !in tag
    requires body != [] && !IsTrimmable(body[|body| - 1])
    requires forall j :: !OccursAt(body, Fence, j)
    ensures StripCodeFence(Fence + tag + "\n" + body) == body
  {
    var x := Fence + tag + "\n" + body;
    assert x[0] == '`' && x[|x| - 1] == body[|body| - 1];
    TrimUnchanged(x);
    assert StartsWith(x, Fence);
    FirstLineOfFence(tag, body);
  }

  // ---------------------------------------------------------------------
  // Reply extraction
  // ---------------------------------------------------------------------

  /** What the JSON library makes of a text: an array, given by the text
      (`asText`) of each of its elements, or any other node. */
  datatype JsonNode = ArrayNode(elementTexts: seq<string>) | OtherNode

  /** A library call either returns a value or throws an exception whose
      message may be null. */
  datatype Attempt<T> = Returned(value: T) | Thrown(message: JavaText)

  /** The JSON library as seen by the service: `candidateText` is reading
      the Gemini response and following the path
      candidates[0].content.parts[0].text; `readTree` is parsing the
      stripped model text. */
  datatype JsonLib = JsonLib(
    candidateText: JavaText -> Attempt<string>,
    readTree: string -> Attempt<JsonNode>)

  const ErrorPrefix: string := "Error parsing Gemini response: "

  function ErrorReply(message: JavaText): string {
    ErrorPrefix + Show(message)
  }

  /** The replies extracted from a Gemini response. */
  function TextReplies(response: JavaText, json: JsonLib): seq<string> {
    match json.candidateText(response)
    case Thrown(m) => [ErrorReply(m)]
    case Returned(text) =>
      var stripped := StripCodeFence(text);
      match json.readTree(stripped)
      case Thrown(m) => [ErrorReply(m)]
      case Returned(ArrayNode(elements)) => elements
      case Returned(OtherNode) => [stripped]
  }

  /** The fence-stripping steps of `extractTextReplies`, reassigning the
      model text in place. */
  method StripMarkdownFence(text: string) returns (rawText: string)
    ensures rawText == StripCodeFence(text)
  {
    rawText := Trim(text);
    if StartsWith(rawText, Fence) {
      var firstNewline := IndexOf(rawText, '\n');
      rawText := rawText[firstNewline + 1..];
      var lastBacktick := LastIndexOf(rawText, Fence);
      if lastBacktick != -1 {
        rawText := Trim(rawText[..lastBacktick]);
      }
    }
  }

  /** `extractTextReplies`: reads the model text, strips a code fence,
      parses the rest and collects the replies. */
  method ExtractTextReplies(response: JavaText, json: JsonLib) returns (replies: seq<string>)
    ensures replies == TextReplies(response, json)
  {
    replies := [];
    var root := json.candidateText(response);
    if root.Thrown? {
      replies := [ErrorReply(root.message)];
      return;
    }
    var rawText := StripMarkdownFence(root.value);
    var replyArray := json.readTree(rawText);
    match replyArray {
      case Thrown(m) =>
        replies := [ErrorReply(m)];
      case Returned(OtherNode) =>
        replies := [rawText];
      case Returned(ArrayNode(nodes)) =>
        for i := 0 to |nodes|
          invariant replies == nodes[..i]
        {
          replies := replies + [nodes[i]];
        }
    }
  }

  /** Any exception while extracting yields a single reply carrying the
      error prefix. */
  lemma ExtractionErrorReply(response: JavaText, json: JsonLib)
    requires json.candidateText(response).Thrown? ||
             json.readTree(StripCodeFence(json.candidateText(response).value)).Thrown?
    ensures |TextReplies(response, json)| == 1
    ensures StartsWith(TextReplies(response, json)[0], ErrorPrefix)
  {
  }

  /** A parsed array gives one reply per element, in order; anything else
      that parses gives exactly the stripped text. */
  lemma ParsedReplies(response: JavaText, json: JsonLib)
    requires json.candidateText(response).Returned?
    requires json.readTree(StripCodeFence(json.candidateText(response).value)).Returned?
    ensures var stripped := StripCodeFence(json.candidateText(response).value);
      var replies := TextReplies(response, json);
      match json.readTree(stripped).value
      case ArrayNode(elements) =>
        |replies| == |elements| && forall i :: 0 <= i < |elements| ==> replies[i] == elements[i]
      case OtherNode =>
        replies == [stripped] && Contains(json.candidateText(response).value, replies[0])
  {
    StripCodeFenceIsSubstring(json.candidateText(response).value);
  }

  /** End to end: a fenced JSON array in the model's text gives its
      elements as the replies. */
  lemma FencedArrayReplies(response: JavaText, json: JsonLib, tag: string, body: string, elements: seq<string>)
    requires '\n' !in tag
    requires json.candidateText(response) == Returned(Fence + tag + "\n" + body + Fence)
    requires json.readTree(Trim(body)) == Returned(ArrayNode(elements))
    ensures TextReplies(response, json) == elements
  {
    FencedBlock(tag, body);
  }

  // ---------------------------------------------------------------------
  // Remote call and fallback
  // ---------------------------------------------------------------------

  /** The outcome of posting a prompt to Gemini: a response body (null when
      the body is empty), an HTTP error status, or any other exception. */
  datatype GeminiOutcome =
    | Body(response: JavaText)
    | ErrorStatus(statusCode: int, errorBody: string)
    | Failure(message: JavaText)

  /** The three canned replies returned when the remote call fails. */
  function MockReplies(): seq<string> {
    [ "Good morning to you too! Hope you have a great day.",
      "Hey, morning! How\U{2019}s your day going so far?",
      "Mornin\U{2019}! Right back at ya. Hope it\U{2019}s a good one." ]
  }

  /** `generateEmailReplyOptions`: builds the prompt, posts it, and extracts
      replies from the response, or falls back to the mock replies on any
      failure of the call. */
  method GenerateEmailReplyOptions(req: EmailRequest, gemini: string -> GeminiOutcome, json: JsonLib)
    returns (replies: seq<string>)
    ensures gemini(PromptFor(req)).Body? ==>
      replies == TextReplies(gemini(PromptFor(req)).response, json)
    ensures !gemini(PromptFor(req)).Body? ==>
      replies == MockReplies() && |replies| == 3
  {
    var prompt := BuildPrompt(req);
    var outcome := gemini(prompt);
    match outcome {
      case Body(response) =>
        replies := ExtractTextReplies(response, json);
      case ErrorStatus(_, _) =>
        replies := MockReplies();
      case Failure(_) =>
        replies := MockReplies();
    }
  }
}
