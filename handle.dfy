/**
 * Mention handles. The server's `normalizeHandle` and the client's
 * `normalizedName` are the same chain of string operations: lower-case, trim,
 * turn each run of whitespace into one underscore, then drop every character
 * outside [a-z0-9_]. Both are modelled by `Normalize`.
 */
module Handle {
  import opened Text

  const AiHandle: string := "gemini"
  const AiName: string := "Gemini"

  predicate IsHandleChar(c: char) {
    'a' <= c <= 'z' || '0' <= c <= '9' || c == '_'
  }

  /** A string made of handle characters only. */
  predicate IsHandle(s: string) {
    forall i :: 0 <= i < |s| ==> IsHandleChar(s[i])
  }

  /** `.replace(/\s+/g, '_')`: each maximal run of whitespace becomes one
      underscore; `inRun` says that the character before `s` was whitespace. */
  function CollapseSpaces(s: string, inRun: bool): (r: string)
    ensures forall i :: 0 <= i < |r| ==> !IsSpace(r[i])
    ensures |r| <= |s|
  {
    if s == [] then []
    else if IsSpace(s[0]) then (if inRun then [] else ['_']) + CollapseSpaces(s[1..], true)
    else [s[0]] + CollapseSpaces(s[1..], false)
  }

  /** `.replace(/[^a-z0-9_]/g, '')`. */
  function KeepHandleChars(s: string): (r: string)
    ensures IsHandle(r)
    ensures |r| <= |s|
  {
    if s == [] then []
    else if IsHandleChar(s[0]) then [s[0]] + KeepHandleChars(s[1..])
    else KeepHandleChars(s[1..])
  }

  /** The character filter works character by character: it distributes
      over concatenation ... */
  lemma {:induction false} KeepHandleCharsConcat(x: string, y: string)
    ensures KeepHandleChars(x + y) == KeepHandleChars(x) + KeepHandleChars(y)
  {
    if x == [] {
      assert x + y == y;
    } else {
      assert (x + y)[1..] == x[1..] + y;
      KeepHandleCharsConcat(x[1..], y);
    }
  }

  /** ... and keeps a single character exactly when it is a handle
      character. */
  lemma KeepHandleCharsOne(c: char)
    ensures KeepHandleChars([c]) == if IsHandleChar(c) then [c] else []
  {
    assert [c][1..] == [];
  }

  /** A word without whitespace is copied unchanged. */
  lemma {:induction false} CollapseSpacesWord(w: string, rest: string)
    requires forall i :: 0 <= i < |w| ==> !IsSpace(w[i])
    ensures CollapseSpaces(w + rest, false) == w + CollapseSpaces(rest, false)
  {
    if w != [] {
      assert (w + rest)[0] == w[0] && (w + rest)[1..] == w[1..] + rest;
      CollapseSpacesWord(w[1..], rest);
    } else {
      assert w + rest == rest;
    }
  }

  /** A non-empty run of whitespace gives one underscore, or nothing when it
      continues a run. */
  lemma {:induction false} CollapseSpacesRun(sp: string, t: string, inRun: bool)
    requires sp != [] && forall i :: 0 <= i < |sp| ==> IsSpace(sp[i])
    ensures CollapseSpaces(sp + t, inRun) == (if inRun then [] else "_") + CollapseSpaces(t, true)
  {
    assert (sp + t)[0] == sp[0] && (sp + t)[1..] == sp[1..] + t;
    if |sp| > 1 {
      CollapseSpacesRun(sp[1..], t, true);
    } else {
      assert sp[1..] + t == t;
    }
  }

  /** A run ends where a non-whitespace character or the end comes. */
  lemma CollapseSpacesAfterRun(t: string)
    requires t == [] || !IsSpace(t[0])
    ensures CollapseSpaces(t, true) == CollapseSpaces(t, false)
  {
  }

  /** `w + sp + t`, with `w` a word and `sp` a maximal run of whitespace,
      becomes `w`, one underscore, and the rest collapsed on its own. */
  lemma CollapseSpacesWordThenRun(w: string, sp: string, t: string)
    requires forall i :: 0 <= i < |w| ==> !IsSpace(w[i])
    requires sp != [] && forall i :: 0 <= i < |sp| ==> IsSpace(sp[i])
    requires t == [] || !IsSpace(t[0])
    ensures CollapseSpaces(w + sp + t, false) == w + "_" + CollapseSpaces(t, false)
  {
    assert w + sp + t == w + (sp + t);
    CollapseSpacesWord(w, sp + t);
    CollapseSpacesRun(sp, t, false);
    CollapseSpacesAfterRun(t);
  }

  /** `normalizeHandle` (server) and `normalizedName` (client). */
  function Normalize(v: string): string {
    KeepHandleChars(CollapseSpaces(Trim(Lower(v)), false))
  }

  /** The result is a handle: only [a-z0-9_], so in particular no whitespace
      and no upper-case letter. */
  lemma NormalizeIsHandle(v: string)
    ensures IsHandle(Normalize(v))
    ensures forall i :: 0 <= i < |Normalize(v)| ==> !IsSpace(Normalize(v)[i])
  {
  }

  lemma {:induction false} CollapseSpacesNoSpace(s: string)
    requires forall i :: 0 <= i < |s| ==> !IsSpace(s[i])
    ensures CollapseSpaces(s, false) == s
  {
    if s != [] {
      CollapseSpacesNoSpace(s[1..]);
    }
  }

  lemma {:induction false} KeepHandleCharsOfHandle(s: string)
    requires IsHandle(s)
    ensures KeepHandleChars(s) == s
  {
    if s != [] {
      KeepHandleCharsOfHandle(s[1..]);
    }
  }

  /** A handle is its own normal form. */
  lemma NormalizeOfHandle(s: string)
    requires IsHandle(s)
    ensures Normalize(s) == s
  {
    assert Lower(s) == s;
    TrimUnpadded(s);
    CollapseSpacesNoSpace(s);
    KeepHandleCharsOfHandle(s);
  }

  /** Normalising twice gives what normalising once gives. */
  lemma NormalizeIdempotent(v: string)
    ensures Normalize(Normalize(v)) == Normalize(v)
  {
    NormalizeOfHandle(Normalize(v));
  }

  /** A name whose lower case is a handle normalises to that lower case. */
  lemma NormalizeOfLowerHandle(v: string)
    requires IsHandle(Lower(v))
    ensures Normalize(v) == Lower(v)
  {
    NormalizeOfHandle(Lower(v));
    assert Lower(Lower(v)) == Lower(v);
  }

  lemma ExampleTrimmed()
    ensures Trim(Lower(" Jo  Do! ")) == "jo  do!"
  {
    var low := Lower(" Jo  Do! ");
    assert low == " jo  do! ";
    assert low[1..8] == "jo  do!";
    TrimIsSlice(low);
  }

  lemma ExampleCollapsed()
    ensures CollapseSpaces("jo  do!", false) == "jo_do!"
  {
  }

  lemma ExampleFiltered()
    ensures KeepHandleChars("jo_do!") == "jo_do"
  {
  }

  /** Padding goes, an inner run of spaces becomes one underscore, upper
      case is lowered and punctuation is dropped. */
  lemma NormalizeExample()
    ensures Normalize(" Jo  Do! ") == "jo_do"
  {
    ExampleTrimmed();
    ExampleCollapsed();
    ExampleFiltered();
  }

  /** The AI's display name normalises to the AI handle. */
  lemma AiNameNormalizesToAiHandle()
    ensures Normalize(AiName) == AiHandle
  {
    var low := Lower(AiName);
    assert low[0] == LowerChar('G') == 'g';
    assert low[1..] == AiHandle[1..];
    assert low == AiHandle;
    NormalizeOfLowerHandle(AiName);
  }
}
