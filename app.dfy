/** The React form component: its state fields and the submit handler
    that drives them, the normalisation of the service's answer into a
    reply list with the sender's name filled in, and the copy action.

    The HTTP POST is a parameter (its outcome); the clipboard and the alert
    box are recorded as effects. */
module App {
  import opened Wrappers
  import opened Strings

  const Placeholder: string := "[Your Name]"
  const SenderName: string := "Sharanya"
  const FailureMessage: string := "Failed to generate email reply. Please try again."
  const CopiedNotice: string := "Reply copied to clipboard!"
  const NothingToCopyNotice: string := "No content to copy."

  // ---------------------------------------------------------------------
  // Placeholder replacement: `r.replace(/\[Your Name\]/g, 'Sharanya')`
  // ---------------------------------------------------------------------

  /** Every literal occurrence of the placeholder, scanning left to right
      without overlaps, replaced by the sender's name. */
  function ReplacePlaceholder(s: string): string
    decreases |s|
  {
    if StartsWith(s, Placeholder) then SenderName + ReplacePlaceholder(s[|Placeholder|..])
    else if s == [] then ""
    else [s[0]] + ReplacePlaceholder(s[1..])
  }

  /** A string without the placeholder is returned unchanged. */
  lemma {:induction false} ReplaceWithoutPlaceholder(s: string)
    requires !Contains(s, Placeholder)
    ensures ReplacePlaceholder(s) == s
    decreases |s|
  {
    if s != [] {
      assert !OccursAt(s, Placeholder, 0);
      forall j | 0 <= j <= |s[1..]| && OccursAt(s[1..], Placeholder, j)
        ensures false
      {
        assert s[1..][j..j + |Placeholder|] == s[j + 1..j + 1 + |Placeholder|];
        assert OccursAt(s, Placeholder, j + 1);
      }
      ReplaceWithoutPlaceholder(s[1..]);
    }
  }

  /* A prefix that has no letter the sender's name starts with can only
     come from the input itself. */
  lemma {:induction false} KeptPrefix(t: string, p: string)
    requires forall k :: 0 <= k < |p| ==> p[k] != SenderName[0]
    requires StartsWith(ReplacePlaceholder(t), p)
    ensures StartsWith(t, p)
    decreases |p|
  {
    if p != [] {
      var r := ReplacePlaceholder(t);
      assert r[0] == p[0];
      assert !StartsWith(t, Placeholder);
      assert t != [];
      assert r == [t[0]] + ReplacePlaceholder(t[1..]);
      assert ReplacePlaceholder(t[1..])[..|p| - 1] == p[1..];
      KeptPrefix(t[1..], p[1..]);
      assert t[..|p|] == [t[0]] + t[1..][..|p| - 1];
    }
  }

  /** After replacement the placeholder occurs nowhere. */
  lemma {:induction false} ReplaceRemovesPlaceholder(s: string)
    ensures !Contains(ReplacePlaceholder(s), Placeholder)
    decreases |s|
  {
    if StartsWith(s, Placeholder) {
      ReplaceRemovesPlaceholder(s[|Placeholder|..]);
      NoPlaceholderAfterName(ReplacePlaceholder(s[|Placeholder|..]));
    } else if s != [] {
      ReplaceRemovesPlaceholder(s[1..]);
      NoPlaceholderAfterKept(s);
    }
  }

  /* The name put in front of placeholder-free text creates no placeholder. */
  lemma NoPlaceholderAfterName(rest: string)
    requires !Contains(rest, Placeholder)
    ensures !Contains(SenderName + rest, Placeholder)
  {
    var r := SenderName + rest;
    forall i | 0 <= i <= |r|
      ensures !OccursAt(r, Placeholder, i)
    {
      if i < |SenderName| {
        NameHasNoBracket(i);
        assert r[i] != Placeholder[0];
      } else if i + |Placeholder| <= |r| {
        assert r[i..i + |Placeholder|] == rest[i - |SenderName|..i - |SenderName| + |Placeholder|];
        assert !OccursAt(rest, Placeholder, i - |SenderName|);
      }
    }
  }

  /* A character kept in front of a replaced, placeholder-free rest creates
     no placeholder either. */
  lemma NoPlaceholderAfterKept(s: string)
    requires s != [] && !StartsWith(s, Placeholder)
    requires !Contains(ReplacePlaceholder(s[1..]), Placeholder)
    ensures !Contains(ReplacePlaceholder(s), Placeholder)
  {
    var rest := ReplacePlaceholder(s[1..]);
    var r := ReplacePlaceholder(s);
    assert r == [s[0]] + rest;
    forall i | 0 <= i <= |r|
      ensures !OccursAt(r, Placeholder, i)
    {
      if i == 0 {
        NoPlaceholderAtKeptChar(s);
      } else {
        OccursAfterHead(s[0], rest, Placeholder, i);
      }
    }
  }

  /* Nor does it start a placeholder at the kept character. */
  lemma NoPlaceholderAtKeptChar(s: string)
    requires s != [] && !StartsWith(s, Placeholder)
    ensures !OccursAt(ReplacePlaceholder(s), Placeholder, 0)
  {
    var rest := ReplacePlaceholder(s[1..]);
    var r := ReplacePlaceholder(s);
    assert r == [s[0]] + rest;
    if OccursAt(r, Placeholder, 0) {
      assert rest[..|Placeholder| - 1] == r[1..|Placeholder|];
      NoNameInitialAfterBracket();
      KeptPrefix(s[1..], Placeholder[1..]);
      assert false;
    }
  }

  /* The sender's name has no `[`. */
  lemma NameHasNoBracket(k: int)
    requires 0 <= k < |SenderName|
    ensures SenderName[k] != '['
  {
  }

  /* The placeholder after its `[` has no letter the name starts with. */
  lemma NoNameInitialAfterBracket()
    ensures forall k :: 0 <= k < |Placeholder[1..]| ==> Placeholder[1..][k] != SenderName[0]
  {
  }

  /* `[` opens the placeholder and nowhere else appears in it. */
  lemma OnlyOpeningBracket(k: int)
    requires 0 < k < |Placeholder|
    ensures Placeholder[k] != '['
  {
  }

  /** Each occurrence of the placeholder becomes the sender's name, and the
      text around it is replaced independently. */
  lemma {:induction false} ReplaceAround(x: string, y: string)
    ensures ReplacePlaceholder(x + Placeholder + y) ==
            ReplacePlaceholder(x) + SenderName + ReplacePlaceholder(y)
    decreases |x|
  {
    if x == [] {
      var s := x + Placeholder + y;
      assert s == Placeholder + y;
      UnfoldAtPlaceholder(s);
      assert s[|Placeholder|..] == y;
      assert ReplacePlaceholder(x) == [];
      RegroupFront([], [], SenderName, ReplacePlaceholder(y));
    } else if StartsWith(x, Placeholder) {
      var x' := x[|Placeholder|..];
      PlaceholderAtFront(x, y);
      ReplaceAround(x', y);
      UnfoldAtPlaceholder(x);
      RegroupFront(SenderName, ReplacePlaceholder(x'), SenderName, ReplacePlaceholder(y));
    } else {
      KeptAtFront(x, y);
      ReplaceAround(x[1..], y);
      UnfoldKept(x);
      RegroupFront([x[0]], ReplacePlaceholder(x[1..]), SenderName, ReplacePlaceholder(y));
    }
  }

  /* One step of the replacement at a placeholder. */
  lemma UnfoldAtPlaceholder(s: string)
    requires StartsWith(s, Placeholder)
    ensures ReplacePlaceholder(s) == SenderName + ReplacePlaceholder(s[|Placeholder|..])
  {
  }

  /* One step of the replacement at a kept character. */
  lemma UnfoldKept(s: string)
    requires s != [] && !StartsWith(s, Placeholder)
    ensures ReplacePlaceholder(s) == [s[0]] + ReplacePlaceholder(s[1..])
  {
  }

  /* A placeholder that starts `x` also starts `x + Placeholder + y`. */
  lemma PlaceholderAtFront(x: string, y: string)
    requires StartsWith(x, Placeholder)
    ensures ReplacePlaceholder(x + Placeholder + y) ==
            SenderName + ReplacePlaceholder(x[|Placeholder|..] + Placeholder + y)
  {
    var s := x + Placeholder + y;
    assert s[..|Placeholder|] == x[..|Placeholder|];
    UnfoldAtPlaceholder(s);
    assert s[|Placeholder|..] == x[|Placeholder|..] + Placeholder + y;
  }

  /* A first character of `x` that starts no placeholder is kept. */
  lemma KeptAtFront(x: string, y: string)
    requires x != [] && !StartsWith(x, Placeholder)
    ensures ReplacePlaceholder(x + Placeholder + y) ==
            [x[0]] + ReplacePlaceholder(x[1..] + Placeholder + y)
  {
    var s := x + Placeholder + y;
    NoPlaceholderAcrossBoundary(x, y);
    UnfoldKept(s);
    assert s[1..] == x[1..] + Placeholder + y;
  }

  /* Concatenation regrouped around the name; a hint for the solver,
     which otherwise unfolds the literals behind the constants. */
  lemma RegroupFront(a: string, b: string, n: string, c: string)
    ensures a + (b + n + c) == (a + b) + n + c
    ensures [] + n + c == n + c
  {
  }

  /* A placeholder at the front of `x + Placeholder + y` lies inside `x`:
     a shorter `x` would put the second `[` inside it. */
  lemma NoPlaceholderAcrossBoundary(x: string, y: string)
    requires x != [] && !StartsWith(x, Placeholder)
    ensures !StartsWith(x + Placeholder + y, Placeholder)
  {
    var s := x + Placeholder + y;
    if |x| < |Placeholder| {
      assert s[|x|] == '[';
      OnlyOpeningBracket(|x|);
      assert s[..|Placeholder|][|x|] != Placeholder[|x|];
    } else {
      assert s[..|Placeholder|] == x[..|Placeholder|];
    }
  }

  // ---------------------------------------------------------------------
  // Response normalisation
  // ---------------------------------------------------------------------

  /** An element of an array answer: a string, or any other JSON value. */
  datatype JsValue = JsString(text: string) | JsNonString

  /** The answer body: a JSON array, or any other value, given by what
      `String(data)` makes of it. */
  datatype ResponseData = JsArray(elements: seq<JsValue>) | JsScalar(asString: string)

  /** What the POST does: resolves with a body, or rejects (network error,
      non-2xx status). */
  datatype HttpOutcome = Resolved(data: ResponseData) | Rejected

  /** `data.map(r => r.replace(...))`; a non-string element has no
      `replace`, so the call throws and there is no list. */
  function ReplaceEach(values: seq<JsValue>): (r: Option<seq<string>>)
    ensures r.Some? <==> forall i :: 0 <= i < |values| ==> values[i].JsString?
    ensures r.Some? ==> (|r.value| == |values| &&
      forall i :: 0 <= i < |values| ==> r.value[i] == ReplacePlaceholder(values[i].text))
  {
    if values == [] then Some([])
    else match values[0]
      case JsNonString => None
      case JsString(t) =>
        var rest := ReplaceEach(values[1..]);
        if rest.None? then None else Some([ReplacePlaceholder(t)] + rest.value)
  }

  /** The replies shown for an answer: an array answer gives one reply per
      element, in order; any other answer gives exactly one. */
  function NormalizeReplies(data: ResponseData): (r: Option<seq<string>>)
    ensures data.JsScalar? ==> r == Some([ReplacePlaceholder(data.asString)])
    ensures data.JsArray? ==>
      (r.Some? <==> forall i :: 0 <= i < |data.elements| ==> data.elements[i].JsString?)
    ensures data.JsArray? && r.Some? ==> (|r.value| == |data.elements| &&
      forall i :: 0 <= i < |data.elements| ==> r.value[i] == ReplacePlaceholder(data.elements[i].text))
  {
    match data
    case JsScalar(t) => Some([ReplacePlaceholder(t)])
    case JsArray(values) => ReplaceEach(values)
  }

  /** No reply that reaches the screen still carries the placeholder. */
  lemma NormalizedRepliesAreFilledIn(data: ResponseData)
    ensures NormalizeReplies(data).Some? ==>
      forall i :: 0 <= i < |NormalizeReplies(data).value| ==>
        !Contains(NormalizeReplies(data).value[i], Placeholder)
  {
    var r := NormalizeReplies(data);
    if r.Some? {
      forall i | 0 <= i < |r.value|
        ensures !Contains(r.value[i], Placeholder)
      {
        match data
        case JsScalar(t) => ReplaceRemovesPlaceholder(t);
        case JsArray(values) => ReplaceRemovesPlaceholder(values[i].text);
      }
    }
  }

  /** An array answer of placeholder-free strings is shown as is, one
      reply per element, in order. */
  lemma ArrayOfFilledReplies(xs: seq<string>)
    requires forall i :: 0 <= i < |xs| ==> !Contains(xs[i], Placeholder)
    ensures NormalizeReplies(JsArray(seq(|xs|, i requires 0 <= i < |xs| => JsString(xs[i])))) == Some(xs)
  {
    var values := seq(|xs|, i requires 0 <= i < |xs| => JsString(xs[i]));
    var r := NormalizeReplies(JsArray(values));
    assert r.Some?;
    forall i | 0 <= i < |xs|
      ensures r.value[i] == xs[i]
    {
      ReplaceWithoutPlaceholder(xs[i]);
    }
    assert r.value == xs;
  }

  /* A closing placeholder after text without one becomes the name. */
  lemma FillClosingName(x: string)
    requires !Contains(x, Placeholder)
    ensures ReplacePlaceholder(x + Placeholder) == x + SenderName
  {
    ReplaceWithoutPlaceholder(x);
    ClosingPlaceholder(x);
  }

  /** A string answer ending in the placeholder becomes one reply: its
      earlier text replaced, then the name. */
  lemma ScalarFillsName(x: string)
    ensures NormalizeReplies(JsScalar(x + Placeholder)) == Some([ReplacePlaceholder(x) + SenderName])
  {
    ClosingPlaceholder(x);
  }

  /* A placeholder at the end becomes the name after the earlier text. */
  lemma ClosingPlaceholder(x: string)
    ensures ReplacePlaceholder(x + Placeholder) == ReplacePlaceholder(x) + SenderName
  {
    var e: string := [];
    ReplaceAround(x, e);
    assert x + Placeholder + e == x + Placeholder;
    assert ReplacePlaceholder(e) == e;
    assert ReplacePlaceholder(x) + SenderName + e == ReplacePlaceholder(x) + SenderName;
  }

  /** The replies a submission ends with, or `None` when it ends in the
      catch branch. */
  function SubmitResult(outcome: HttpOutcome): Option<seq<string>> {
    match outcome
    case Rejected => None
    case Resolved(data) => NormalizeReplies(data)
  }

  // ---------------------------------------------------------------------
  // Component state and `handleSubmit`
  // ---------------------------------------------------------------------

  /** JavaScript white space and line terminators, which `trim` removes. */
  predicate IsJsWhiteSpace(c: char) {
    c == '\t' || c == '\n' || c == '\U{000B}' || c == '\U{000C}' || c == '\r' ||
    c == ' ' || c == '\U{00A0}' || c == '\U{1680}' || ('\U{2000}' <= c <= '\U{200A}') ||
    c == '\U{2028}' || c == '\U{2029}' || c == '\U{202F}' || c == '\U{205F}' ||
    c == '\U{3000}' || c == '\U{FEFF}'
  }

  /** `!s.trim()`: the text is empty once white space is trimmed. */
  predicate Blank(s: string) {
    forall i :: 0 <= i < |s| ==> IsJsWhiteSpace(s[i])
  }

  /** The body of the POST to the reply-generation endpoint. */
  datatype PostRequest = PostRequest(emailContent: string, tone: string)

  /** The component's state hooks, plus the log of POSTs it has issued. */
  class AppState {
    var emailContent: string
    var tone: string
    var generatedReplies: seq<string>
    var loading: bool
    var error: string
    var requests: seq<PostRequest>

    /** Replies on screen never carry the placeholder; replies and the
        error message are never shown together; nothing is shown while a
        request is loading; the only error is the fixed message. */
    ghost predicate Valid()
      reads this
    {
      (forall i :: 0 <= i < |generatedReplies| ==> !Contains(generatedReplies[i], Placeholder)) &&
      (generatedReplies != [] ==> error == "") &&
      (loading ==> generatedReplies == [] && error == "") &&
      (error == "" || error == FailureMessage)
    }

    /** The state while a submission awaits its answer. */
    predicate InFlight()
      reads this
    {
      loading && error == "" && generatedReplies == []
    }

    /** The `useState` initial values. */
    constructor ()
      ensures Valid()
      ensures emailContent == "" && tone == "" && generatedReplies == []
      ensures !loading && error == "" && requests == []
    {
      emailContent := "";
      tone := "";
      generatedReplies := [];
      loading := false;
      error := "";
      requests := [];
    }

    /** Typing in the email field. */
    method SetEmailContent(s: string)
      requires Valid()
      modifies this`emailContent
      ensures Valid() && emailContent == s
    {
      emailContent := s;
    }

    /** Choosing a tone. */
    method SetTone(t: string)
      requires Valid()
      modifies this`tone
      ensures Valid() && tone == t
    {
      tone := t;
    }

    /** The part of `handleSubmit` before the `await`: nothing happens for
        blank content; otherwise loading starts, the previous error and
        replies are cleared and the POST is issued. */
    method StartSubmit() returns (sent: bool)
      requires Valid()
      modifies this
      ensures Valid()
      ensures sent <==> !Blank(old(emailContent))
      ensures !sent ==> unchanged(this)
      ensures sent ==> InFlight() && requests == old(requests) + [PostRequest(emailContent, tone)]
      ensures emailContent == old(emailContent) && tone == old(tone)
    {
      if Blank(emailContent) {
        return false;
      }
      loading := true;
      error := "";
      generatedReplies := [];
      requests := requests + [PostRequest(emailContent, tone)];
      sent := true;
    }

    /** The part of `handleSubmit` after the `await`: the replies on
        success, the fixed message from the catch branch otherwise, and in
        every case loading stops. */
    method Finish(outcome: HttpOutcome)
      requires Valid() && InFlight()
      modifies this`generatedReplies, this`error, this`loading
      ensures Valid() && !loading
      ensures SubmitResult(outcome).Some? ==>
        generatedReplies == SubmitResult(outcome).value && error == ""
      ensures SubmitResult(outcome).None? ==>
        generatedReplies == [] && error == FailureMessage
    {
      match outcome {
        case Resolved(data) =>
          var replies := NormalizeReplies(data);
          if replies.Some? {
            NormalizedRepliesAreFilledIn(data);
            generatedReplies := replies.value;
          } else {
            error := FailureMessage;
          }
        case Rejected =>
          error := FailureMessage;
      }
      loading := false;
    }

    /** `handleSubmit` for one request whose answer is `outcome`. */
    method HandleSubmit(outcome: HttpOutcome)
      requires Valid()
      modifies this
      ensures Valid()
      ensures emailContent == old(emailContent) && tone == old(tone)
      ensures Blank(old(emailContent)) ==> unchanged(this)
      ensures !Blank(old(emailContent)) ==>
        requests == old(requests) + [PostRequest(emailContent, tone)] && !loading &&
        (SubmitResult(outcome).Some? ==> generatedReplies == SubmitResult(outcome).value && error == "") &&
        (SubmitResult(outcome).None? ==> generatedReplies == [] && error == FailureMessage)
    {
      var sent := StartSubmit();
      if sent {
        Finish(outcome);
      }
    }
  }

  // ---------------------------------------------------------------------
  // `copyToClipboard`
  // ---------------------------------------------------------------------

  /** What the copy action does to the outside world. */
  datatype Effect = ClipboardWrite(text: string) | Alert(message: string)

  /** JavaScript truthiness of the text passed in: present and non-empty. */
  predicate Truthy(text: Option<string>) {
    text.Some? && text.value != ""
  }

  /** The texts written to the clipboard by a sequence of effects. */
  function ClipboardWrites(effects: seq<Effect>): seq<string> {
    if effects == [] then []
    else (if effects[0].ClipboardWrite? then [effects[0].text] else []) + ClipboardWrites(effects[1..])
  }

  /** Copying writes the text to the clipboard exactly once and then
      confirms, or, with nothing to copy, writes nothing and says so; each
      way the user sees exactly one notice, last. */
  function CopyToClipboard(text: Option<string>): (effects: seq<Effect>)
    ensures ClipboardWrites(effects) == (if Truthy(text) then [text.value] else [])
    ensures effects != [] && effects[|effects| - 1] ==
      Alert(if Truthy(text) then CopiedNotice else NothingToCopyNotice)
    ensures forall i :: 0 <= i < |effects| - 1 ==> !effects[i].Alert?
  {
    if Truthy(text) then
      var effects := [ClipboardWrite(text.value), Alert(CopiedNotice)];
      assert ClipboardWrites(effects[1..]) == [];
      effects
    else [Alert(NothingToCopyNotice)]
  }
}
