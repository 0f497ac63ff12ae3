/**
 * The AI side channel of the server: `mentionsAI`, the prompt sent to the
 * model, and what the server does with the model's answer. The model itself
 * is an oracle: it answers with some text or with nothing.
 */
module Mention {
  import opened Wrappers
  import opened Text
  import opened Handle

  /** `@` followed by the AI handle. */
  const AiToken: string := "@" + AiHandle

  const PromptHead: string := "You are Gemini. Reply in Portuguese in 1-3 short sentences. The user \""
  const PromptMiddle: string := "\" said: \""
  const PromptTail: string := "\"."
  const AiUnavailable: string := "AI unavailable. Check API key or model."

  /** The regular expression `(^|\s)@gemini\b` matches the lower-cased text
      `t` at index `i`: start of text or whitespace before the token, end of
      text or a non-word character after it. */
  predicate MentionAt(t: string, i: nat) {
    && OccursAt(t, AiToken, i)
    && (i == 0 || IsSpace(t[i - 1]))
    && (i + |AiToken| == |t| || !IsWordChar(t[i + |AiToken|]))
  }

  /** The regular expression's left-to-right search from index `k`. */
  function ScanMention(t: string, k: nat): (found: bool)
    decreases |t| - k
    ensures found <==> exists i :: k <= i && MentionAt(t, i)
  {
    if k + |AiToken| > |t| then false
    else MentionAt(t, k) || ScanMention(t, k + 1)
  }

  /** `mentionsAI`: the lower-cased text mentions `@gemini` as a whole word. */
  function MentionsAI(text: string): (b: bool)
    ensures b <==> exists i :: MentionAt(Lower(text), i)
  {
    ScanMention(Lower(text), 0)
  }

  /** A lower-case token is its own lower case. */
  lemma LowerOfAiToken()
    ensures Lower(AiToken) == AiToken
  {
  }

  /** A mention written at the start of the text or after whitespace, and not
      glued to a following word character, is detected whatever its case. */
  lemma MentionDetected(before: string, token: string, after: string)
    requires Lower(token) == AiToken
    requires before == [] || IsSpace(before[|before| - 1])
    requires after == [] || !IsWordChar(LowerChar(after[0]))
    ensures MentionsAI(before + token + after)
  {
    var text := before + token + after;
    var t := Lower(text);
    var i := |before|;
    assert t[i..i + |AiToken|] == Lower(token);
    if i > 0 {
      assert t[i - 1] == LowerChar(before[|before| - 1]);
    }
    if after != [] {
      assert t[i + |AiToken|] == LowerChar(after[0]);
    }
    assert MentionAt(t, i);
  }

  /** A message mentioning the AI mid-sentence triggers it. */
  lemma MentionsAIExample()
    ensures MentionsAI("hello @gemini how are you")
  {
    var text := "hello @gemini how are you";
    var t := Lower(text);
    assert text[6..13] == AiToken;
    LowerSlice(text, 6, 13);
    LowerOfAiToken();
    assert t[5] == LowerChar(text[5]) && t[13] == LowerChar(text[13]);
    MentionsAIAt(text, 6);
  }

  lemma LowerSlice(text: string, k: nat, m: nat)
    requires k <= m <= |text|
    ensures Lower(text[k..m]) == Lower(text)[k..m]
  {
  }

  /** A mention lying inside the slice `text[k..m]` is still a mention there. */
  lemma MentionInSlice(text: string, k: nat, m: nat, i: nat)
    requires k <= m <= |text|
    requires MentionAt(Lower(text), i)
    requires k <= i && i + |AiToken| <= m
    ensures MentionAt(Lower(text[k..m]), i - k)
    ensures MentionsAI(text[k..m])
  {
    LowerSlice(text, k, m);
    var t, u, n, j := Lower(text), Lower(text[k..m]), |AiToken|, i - k;
    SliceOfSlice(t, k, m, j, j + n);
    if j > 0 {
      assert u[j - 1] == t[i - 1];
    }
    if j + n < |u| {
      assert u[j + n] == t[i + n];
    }
    assert MentionAt(u, j);
  }

  lemma MentionsAIAt(text: string, i: nat)
    requires MentionAt(Lower(text), i)
    ensures MentionsAI(text)
  {
  }

  /** The token starts with `@` and ends with a letter. */
  lemma TokenEnds(t: string, i: nat)
    requires OccursAt(t, AiToken, i)
    ensures t[i] == '@' && t[i + |AiToken| - 1] == 'i'
  {
    assert t[i] == t[i..i + |AiToken|][0] == AiToken[0];
    assert t[i + |AiToken| - 1] == t[i..i + |AiToken|][|AiToken| - 1] == AiToken[|AiToken| - 1];
  }

  /** Lower-casing neither makes nor unmakes whitespace. */
  lemma LowerKeepsSpace(c: char)
    ensures IsSpace(LowerChar(c)) <==> IsSpace(c)
  {
  }

  /** Trimming never removes a mention: the server tests the trimmed text.
      The `@` and the last letter of the token are not whitespace, so the
      token lies inside the trimmed slice. */
  lemma MentionSurvivesTrim(text: string)
    requires MentionsAI(text)
    ensures MentionsAI(Trim(text))
  {
    var i: nat :| MentionAt(Lower(text), i);
    var n := |AiToken|;
    TokenEnds(Lower(text), i);
    LowerKeepsSpace(text[i]);
    LowerKeepsSpace(text[i + n - 1]);
    TrimIsSlice(text);
    var a := SkipSpaces(text, 0);
    var b := SkipSpacesBack(text, |text|);
    assert a <= i && i + n <= b;
    MentionInSlice(text, a, b, i);
  }

  /** The prompt sent to the model quotes the sender's name and the text. */
  function AiPrompt(username: string, text: string): (p: string)
    ensures OccursAt(p, username, |PromptHead|)
    ensures OccursAt(p, text, |PromptHead| + |username| + |PromptMiddle|)
  {
    var p := PromptHead + username + PromptMiddle + text + PromptTail;
    assert p[|PromptHead|..|PromptHead| + |username|] == username;
    assert p[|PromptHead| + |username| + |PromptMiddle|..][..|text|] == text;
    p
  }

  /** The handle the reply is addressed to: `normalizeHandle(username || 'user')`. */
  function SenderHandle(username: string): (h: string)
    ensures IsHandle(h)
  {
    NormalizeIsHandle(if username == "" then "user" else username);
    Normalize(if username == "" then "user" else username)
  }

  /** What the server does once the model has answered: the answer is
      trimmed; a non-empty one is broadcast as `@<handle> <answer>`,
      anything else (no answer, or only whitespace) is an error for the
      sender alone. */
  datatype AiOutcome = Broadcast(text: string) | Unavailable(error: string)

  function AiFollowUp(username: string, reply: Option<string>): AiOutcome {
    var answer := if reply.Some? then Trim(reply.value) else "";
    if answer != "" then Broadcast("@" + SenderHandle(username) + " " + answer)
    else Unavailable(AiUnavailable)
  }

  /** The reply is broadcast exactly when the model answered with some
      non-whitespace text; the broadcast starts with the sender's handle and
      then carries the trimmed answer. */
  lemma AiFollowUpSpec(username: string, reply: Option<string>)
    ensures AiFollowUp(username, reply).Broadcast? <==>
              reply.Some? && exists i :: 0 <= i < |reply.value| && !IsSpace(reply.value[i])
    ensures AiFollowUp(username, reply).Unavailable? ==>
              AiFollowUp(username, reply).error == AiUnavailable
    ensures AiFollowUp(username, reply).Broadcast? ==>
              var h := SenderHandle(username);
              var out := AiFollowUp(username, reply).text;
              && StartsWith(out, "@" + h + " ")
              && out[|h| + 2..] == Trim(reply.value)
  {
    if reply.Some? {
      TrimEmptyIffBlank(reply.value);
    }
  }
}
