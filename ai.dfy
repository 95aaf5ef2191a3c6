/**
 * The two pieces of the matrix generator that are not network I/O: pulling
 * the JSON text out of a model's reply, and the bounded retry loop around a
 * generation attempt. The attempt itself (HTTP request, reply decoding,
 * matrix deserialisation) is a parameter.
 */
module Ai {
  import opened Wrappers
  import opened Matrix
  import Text

  /** What a generation attempt can fail with. */
  datatype AiError =
    | MissingApiKey(message: string)
    | RequestFailed(message: string)
    | InvalidJson(message: string)
    | ApiError(message: string)
    | ParseError(message: string)

  /** Attempts made before giving up. */
  const MaxRetries: nat := 3

  /** Pause between two attempts, in milliseconds. */
  const RetryDelayMs: nat := 1000

  // ---------------------------------------------------------------------------
  // extract_json
  // ---------------------------------------------------------------------------

  /**
   * The "```json" block: its trimmed content up to the first "```\n" after
   * the opening fence, or else up to the last "```"; nothing when there is
   * no opening fence or the closing fence leaves no room.
   */
  function JsonBlock(text: string): (r: Option<string>)
    ensures r.Some? <==> JsonSpan(text).Some?
    ensures r.Some? ==> var span := JsonSpan(text).value;
      exists i, j :: span.0 <= i <= j <= span.1 && r.value == text[i..j]
    ensures r.Some? ==> r.value == [] || (!Text.IsWhitespace(r.value[0]) && !Text.IsWhitespace(r.value[|r.value| - 1]))
  {
    match JsonSpan(text)
    case None => None
    case Some(span) =>
      SliceOfSlice(text, span.0, span.1);
      Some(Text.Trim(text[span.0..span.1]))
  }

  /** The trimmed text of a slice is itself a slice of the whole text, inside the first one. */
  lemma SliceOfSlice(text: string, lo: nat, hi: nat)
    requires lo <= hi <= |text|
    ensures exists i, j :: lo <= i <= j <= hi && Text.Trim(text[lo..hi]) == text[i..j]
  {
    var piece := text[lo..hi];
    var i, j := Text.TrimBounds(piece);
    assert forall k :: 0 <= k < j - i ==> piece[i..j][k] == text[lo + i..lo + j][k];
    assert piece[i..j] == text[lo + i..lo + j];
  }

  /** Where the content of the "```json" block lies, before trimming. */
  function JsonSpan(text: string): (r: Option<(nat, nat)>)
    ensures r.Some? ==> r.value.0 < r.value.1 <= |text|
  {
    var open := Text.IndexOf(text, "```json");
    if open.None? then None
    else
      var start := open.value;
      var close := ClosingFenceOf(text[start..]);
      if close.Some? && start + 7 < start + close.value then Some((start + 7, start + close.value))
      else None
  }

  /** Where a "```json" block starting `tail` ends: the first "```\n", else the last "```". */
  function ClosingFenceOf(tail: string): (r: Option<nat>)
    ensures r.Some? ==> r.value <= |tail|
  {
    if Text.IndexOf(tail, "```\n").Some? then Text.IndexOf(tail, "```\n") else Text.LastIndexOf(tail, "```")
  }

  /**
   * A generic "```" block: the trimmed text from after the rest of the
   * opening fence's line (its language tag) up to the next "```".
   */
  function GenericBlock(text: string): (r: Option<string>)
    ensures r.Some? <==> GenericSpan(text).Some?
    ensures r.Some? ==> var span := GenericSpan(text).value;
      exists i, j :: span.0 <= i <= j <= span.1 && r.value == text[i..j]
    ensures r.Some? ==> r.value == [] || (!Text.IsWhitespace(r.value[0]) && !Text.IsWhitespace(r.value[|r.value| - 1]))
  {
    match GenericSpan(text)
    case None => None
    case Some(span) =>
      SliceOfSlice(text, span.0, span.1);
      Some(Text.Trim(text[span.0..span.1]))
  }

  /** Where the content of the generic block lies, before trimming. */
  function GenericSpan(text: string): (r: Option<(nat, nat)>)
    ensures r.Some? ==> r.value.0 <= r.value.1 <= |text|
  {
    match Text.IndexOf(text, "```")
    case None => None
    case Some(start) =>
      var contentStart := ContentStart(text, start + 3);
      var end := Text.IndexOf(text[contentStart..], "```");
      if end.Some? then Some((contentStart, contentStart + end.value)) else None
  }

  /** Where a generic block's content starts: after the line of its opening fence, which ends at `after`. */
  function ContentStart(text: string, after: nat): (r: nat)
    requires after <= |text|
    ensures after <= r <= |text|
  {
    var newline := Text.IndexOf(text[after..], "\n");
    if newline.Some? then after + newline.value + 1 else after
  }

  /**
   * The span from the first '{' to the last '}', when the first comes
   * before the last: present exactly when some '{' precedes some '}'.
   */
  function BraceSpan(text: string): (r: Option<string>)
    ensures r.Some? <==> exists i, j :: 0 <= i < j < |text| && text[i] == '{' && text[j] == '}'
    ensures r.Some? ==> |r.value| >= 2 && r.value[0] == '{' && r.value[|r.value| - 1] == '}'
    ensures r.Some? ==> exists i, j :: (0 <= i < j < |text| && text[i] == '{' && text[j] == '}'
      && r.value == text[i..j + 1] && '{' !in text[..i] && '}' !in text[j + 1..])
  {
    var first := Text.IndexOf(text, "{");
    var last := Text.LastIndexOf(text, "}");
    if first.Some? && last.Some? && first.value < last.value then
      BracesAt(text, first.value, last.value);
      Some(text[first.value..last.value + 1])
    else
      NoBracePair(text);
      None
  }

  /** The first "{" and the last "}" delimit a span that opens and closes with them. */
  lemma BracesAt(text: string, first: nat, last: nat)
    requires first < last && Text.OccursAt(text, "{", first) && Text.OccursAt(text, "}", last)
    requires forall j :: 0 <= j < first ==> !Text.OccursAt(text, "{", j)
    requires forall j :: last < j ==> !Text.OccursAt(text, "}", j)
    ensures last < |text| && text[first] == '{' && text[last] == '}'
    ensures '{' !in text[..first] && '}' !in text[last + 1..]
    ensures var span := text[first..last + 1]; |span| >= 2 && span[0] == '{' && span[|span| - 1] == '}'
  {
    assert text[first] == text[first..first + 1][0];
    assert text[last] == text[last..last + 1][0];
    OutsideBraces(text, first, last);
  }

  /** Without a "{" before a later "}", no '{' precedes any '}'. */
  lemma NoBracePair(text: string)
    requires var first := Text.IndexOf(text, "{"); var last := Text.LastIndexOf(text, "}");
      !(first.Some? && last.Some? && first.value < last.value)
    ensures !exists i, j :: 0 <= i < j < |text| && text[i] == '{' && text[j] == '}'
  {
    forall i, j | 0 <= i < j < |text| && text[i] == '{' && text[j] == '}' ensures false {
      assert text[i..i + 1] == [text[i]] && text[j..j + 1] == [text[j]];
      assert Text.OccursAt(text, "{", i) && Text.OccursAt(text, "}", j);
    }
  }

  /** No '{' before the first occurrence of "{" and no '}' after the last occurrence of "}". */
  lemma OutsideBraces(text: string, first: nat, last: nat)
    requires first < last < |text|
    requires forall j :: 0 <= j < first ==> !Text.OccursAt(text, "{", j)
    requires forall j :: last < j ==> !Text.OccursAt(text, "}", j)
    ensures '{' !in text[..first] && '}' !in text[last + 1..]
  {
    var before := text[..first];
    forall k | 0 <= k < |before| ensures before[k] != '{' {
      assert !Text.OccursAt(text, "{", k);
      assert text[k..k + 1] == [before[k]];
    }
    var after := text[last + 1..];
    forall k | 0 <= k < |after| ensures after[k] != '}' {
      assert !Text.OccursAt(text, "}", last + 1 + k);
      assert text[last + 1 + k..last + 1 + k + 1] == [after[k]];
    }
  }

  /**
   * `extract_json`: a "```json" block, else a generic block, else the brace
   * span, else the text itself.
   */
  function ExtractJson(text: string): (r: string)
    ensures JsonBlock(text).Some? ==> r == JsonBlock(text).value
    ensures JsonBlock(text).None? && GenericBlock(text).Some? ==> r == GenericBlock(text).value
    ensures JsonBlock(text).None? && GenericBlock(text).None? && BraceSpan(text).Some? ==> r == BraceSpan(text).value
    ensures JsonBlock(text).None? && GenericBlock(text).None? && BraceSpan(text).None? ==> r == text
  {
    match JsonBlock(text)
    case Some(block) => block
    case None =>
      match GenericBlock(text)
      case Some(block) => block
      case None =>
        match BraceSpan(text)
        case Some(span) => span
        case None => text
  }

  /** The first occurrence of `pat` is at `p` when it occurs there and nowhere before. */
  lemma FirstOccurrence(s: string, pat: string, p: nat)
    requires Text.OccursAt(s, pat, p)
    requires forall j :: 0 <= j < p ==> !Text.OccursAt(s, pat, j)
    ensures Text.IndexOf(s, pat) == Some(p)
  {
  }

  /** Text without a backquote holds no fence. */
  lemma NoBackquoteNoFence(s: string, pat: string)
    requires pat != [] && pat[0] == '`'
    requires '`' !in s
    ensures !Text.Contains(s, pat)
  {
    forall i | 0 <= i <= |s| ensures !Text.OccursAt(s, pat, i) {
      if i + |pat| <= |s| {
        assert s[i..i + |pat|][0] == s[i];
      }
    }
  }

  /**
   * A reply that is a bare object and holds no fence is returned unchanged.
   */
  lemma RawObjectUnchanged(text: string)
    requires |text| >= 2 && text[0] == '{' && text[|text| - 1] == '}'
    requires '`' !in text
    ensures ExtractJson(text) == text
  {
    NoBackquoteNoFence(text, "```json");
    NoBackquoteNoFence(text, "```");
    FirstOccurrence(text, "{", 0);
    assert Text.OccursAt(text, "}", |text| - 1);
    assert Text.LastIndexOf(text, "}") == Some(|text| - 1);
    assert text[0..|text| - 1 + 1] == text;
  }

  /** A reply with no fence and no '{' before a '}' is returned unchanged. */
  lemma UnstructuredUnchanged(text: string)
    requires '`' !in text
    requires forall i, j :: 0 <= i < j < |text| && text[i] == '{' ==> text[j] != '}'
    ensures ExtractJson(text) == text
  {
    NoBackquoteNoFence(text, "```json");
    NoBackquoteNoFence(text, "```");
  }

  /** A pattern first occurs at `p` when it occurs there and its first character does not occur before. */
  lemma FirstAfterClean(text: string, pat: string, p: nat)
    requires pat != [] && p <= |text| && pat[0] !in text[..p]
    requires Text.OccursAt(text, pat, p)
    ensures forall j :: 0 <= j < p ==> !Text.OccursAt(text, pat, j)
    ensures Text.IndexOf(text, pat) == Some(p)
  {
    forall j | 0 <= j < p ensures !Text.OccursAt(text, pat, j) {
      if j + |pat| <= |text| {
        assert text[j..j + |pat|][0] == text[..p][j];
        assert text[..p][j] in text[..p];
      }
    }
    FirstOccurrence(text, pat, p);
  }

  /** A reply without "```json" has no json block, so the generic block, the braces or the reply itself decide. */
  lemma NoJsonFence(text: string)
    requires !Text.Contains(text, "```json")
    ensures JsonSpan(text) == None && JsonBlock(text) == None
  {
  }

  /**
   * The first "```json" fence at `start` and the first "```" plus line
   * break after it at `close`, leaving room for a block: the json block
   * spans from after the opening fence to `close`.
   */
  lemma JsonFenceSpan(text: string, start: nat, close: nat)
    requires Text.OccursAt(text, "```json", start)
    requires forall j :: 0 <= j < start ==> !Text.OccursAt(text, "```json", j)
    requires start + 7 < close && Text.OccursAt(text, "```\n", close)
    requires forall j :: start <= j < close ==> !Text.OccursAt(text, "```\n", j)
    ensures JsonSpan(text) == Some((start + 7, close))
  {
    FirstOccurrence(text, "```json", start);
    Text.FirstOccurrenceAfter(text, "```\n", start, close);
  }

  /** Such a reply yields the trimmed block, whatever follows the closing fence. */
  lemma JsonFenceContent(text: string, start: nat, close: nat)
    requires Text.OccursAt(text, "```json", start)
    requires forall j :: 0 <= j < start ==> !Text.OccursAt(text, "```json", j)
    requires start + 7 < close && Text.OccursAt(text, "```\n", close)
    requires forall j :: start <= j < close ==> !Text.OccursAt(text, "```\n", j)
    ensures ExtractJson(text) == Text.Trim(text[start + 7..close])
  {
    JsonFenceSpan(text, start, close);
    JsonBlockOfSpan(text, start + 7, close);
  }

  /**
   * No "```" plus line break after the first "```json" at `start`: the block
   * closes at the last "```" of the reply, at `close`, and the reply yields
   * the trimmed block.
   */
  lemma JsonFenceAtLastFence(text: string, start: nat, close: nat)
    requires Text.OccursAt(text, "```json", start)
    requires forall j :: 0 <= j < start ==> !Text.OccursAt(text, "```json", j)
    requires forall j :: start <= j ==> !Text.OccursAt(text, "```\n", j)
    requires start + 7 < close && Text.OccursAt(text, "```", close)
    requires forall j :: close < j ==> !Text.OccursAt(text, "```", j)
    ensures JsonSpan(text) == Some((start + 7, close))
    ensures ExtractJson(text) == Text.Trim(text[start + 7..close])
  {
    FirstOccurrence(text, "```json", start);
    Text.NoOccurrenceAfter(text, "```\n", start);
    Text.LastOccurrenceAfter(text, "```", start, close);
    JsonBlockOfSpan(text, start + 7, close);
  }

  /**
   * The usual reply: "```json" with no backquote before it, a block without
   * backquotes, and a bare "```" ending the reply.
   */
  lemma JsonFenceEndingReply(text: string, start: nat)
    requires start + 10 < |text|
    requires '`' !in text[..start] && text[start..start + 7] == "```json"
    requires '`' !in text[start + 7..|text| - 3] && text[|text| - 3..] == "```"
    ensures ExtractJson(text) == Text.Trim(text[start + 7..|text| - 3])
  {
    var close := |text| - 3;
    assert text[start] == '`' && text[start + 3] == 'j' by {
      assert text[start] == text[start..start + 7][0];
      assert text[start + 3] == text[start..start + 7][3];
    }
    assert Text.OccursAt(text, "```json", start);
    FirstAfterClean(text, "```json", start);
    NoLineFenceAfter(text, start, close);
    assert Text.OccursAt(text, "```", close);
    JsonFenceAtLastFence(text, start, close);
  }

  /** A "```json" fence followed by text without backquotes holds no "```" and line break. */
  lemma NoLineFenceAfter(text: string, start: nat, close: nat)
    requires start + 7 <= close <= |text| && text[start] == '`' && text[start + 3] == 'j'
    requires text[start..start + 7] == "```json" && '`' !in text[start + 7..close]
    requires close + 3 == |text|
    ensures forall j :: start <= j ==> !Text.OccursAt(text, "```\n", j)
  {
    forall j | start <= j ensures !Text.OccursAt(text, "```\n", j) {
      NoLineFenceAt(text, start, close, j);
    }
  }

  /** One position of `NoLineFenceAfter`. */
  lemma NoLineFenceAt(text: string, start: nat, close: nat, j: nat)
    requires start + 7 <= close <= |text| && text[start] == '`' && text[start + 3] == 'j'
    requires text[start..start + 7] == "```json" && '`' !in text[start + 7..close]
    requires close + 3 == |text| && start <= j
    ensures !Text.OccursAt(text, "```\n", j)
  {
    if j + 4 <= |text| {
      var w := text[j..j + 4];
      if j < start + 3 {
        assert w[start + 3 - j] == text[start + 3];
      } else {
        assert text[j] != '`' by {
          if j < start + 7 {
            assert text[j] == text[start..start + 7][j - start];
          } else {
            assert text[j] == text[start + 7..close][j - start - 7];
          }
        }
        assert w[0] == text[j];
      }
    }
  }

  /**
   * The "```json" span starts right after the first "```json" of the reply
   * and ends where a "```" fence starts.
   */
  lemma JsonSpanFences(text: string)
    ensures JsonSpan(text).Some? ==> var span := JsonSpan(text).value;
      (span.0 >= 7 && Text.OccursAt(text, "```json", span.0 - 7)
       && (forall j :: 0 <= j < span.0 - 7 ==> !Text.OccursAt(text, "```json", j))
       && Text.OccursAt(text, "```", span.1))
  {
    if JsonSpan(text).Some? {
      var start := Text.IndexOf(text, "```json").value;
      var tail := text[start..];
      var close := ClosingFenceOf(tail).value;
      ClosingFenceIsFence(tail);
      Text.OccursShift(text, "```", start, close);
    }
  }

  /** Where a "```json" block ends there is a "```". */
  lemma ClosingFenceIsFence(tail: string)
    ensures ClosingFenceOf(tail).Some? ==> Text.OccursAt(tail, "```", ClosingFenceOf(tail).value)
  {
    var first := Text.IndexOf(tail, "```\n");
    if first.Some? {
      var k := first.value;
      assert tail[k..k + 3] == tail[k..k + 4][..3];
    }
  }

  /** The generic span ends at the first "```" after its start. */
  lemma GenericSpanFences(text: string)
    ensures GenericSpan(text).Some? ==> var span := GenericSpan(text).value;
      (Text.OccursAt(text, "```", span.1)
       && forall j :: span.0 <= j < span.1 ==> !Text.OccursAt(text, "```", j))
  {
    if GenericSpan(text).Some? {
      var span := GenericSpan(text).value;
      var end := Text.IndexOf(text[span.0..], "```").value;
      assert span.1 == span.0 + end;
      Text.OccursShift(text, "```", span.0, end);
      forall j | span.0 <= j < span.1 ensures !Text.OccursAt(text, "```", j) {
        Text.OccursShift(text, "```", span.0, j - span.0);
      }
    }
  }

  /** The "```json" block is the trimmed text of its span. */
  lemma JsonBlockOfSpan(text: string, i: nat, j: nat)
    requires JsonSpan(text) == Some((i, j))
    ensures i <= j <= |text| && ExtractJson(text) == Text.Trim(text[i..j])
  {
  }

  /**
   * The first "```" at `start`; the block content starts after the first
   * line break that follows it, or right after the fence when no line break
   * follows; the first "```" from there on is at `end`. The generic block
   * spans from `contentStart` to `end`.
   */
  lemma GenericFenceSpan(text: string, start: nat, contentStart: nat, end: nat)
    requires Text.OccursAt(text, "```", start)
    requires forall j :: 0 <= j < start ==> !Text.OccursAt(text, "```", j)
    requires || (contentStart == start + 3 && '\n' !in text[start + 3..])
             || (start + 3 < contentStart <= |text| && text[contentStart - 1] == '\n'
                 && '\n' !in text[start + 3..contentStart - 1])
    requires contentStart <= end && Text.OccursAt(text, "```", end)
    requires forall j :: contentStart <= j < end ==> !Text.OccursAt(text, "```", j)
    ensures GenericSpan(text) == Some((contentStart, end))
  {
    FirstOccurrence(text, "```", start);
    ContentStartAt(text, start + 3, contentStart);
    Text.FirstOccurrenceAfter(text, "```", contentStart, end);
    GenericSpanUnfold(text, start, contentStart, end);
  }

  /** `GenericSpan` from its three searches. */
  lemma GenericSpanUnfold(text: string, start: nat, contentStart: nat, end: nat)
    requires Text.IndexOf(text, "```") == Some(start) && start + 3 <= contentStart <= end <= |text|
    requires ContentStart(text, start + 3) == contentStart
    requires Text.IndexOf(text[contentStart..], "```") == Some(end - contentStart)
    ensures GenericSpan(text) == Some((contentStart, end))
  { }

  /**
   * The content of a generic block starts after the first line break from
   * `after` on, or at `after` when no line break follows.
   */
  lemma ContentStartAt(text: string, after: nat, contentStart: nat)
    requires after <= |text|
    requires || (contentStart == after && '\n' !in text[after..])
             || (after < contentStart <= |text| && text[contentStart - 1] == '\n'
                 && '\n' !in text[after..contentStart - 1])
    ensures ContentStart(text, after) == contentStart
  {
    var rest := text[after..];
    if contentStart == after && '\n' !in rest {
      forall k | 0 <= k <= |rest| ensures !Text.OccursAt(rest, "\n", k) {
        if k < |rest| {
          assert rest[k..k + 1][0] == rest[k];
        }
      }
      assert Text.IndexOf(rest, "\n") == None;
    } else {
      var n := contentStart - 1 - after;
      assert rest[n..n + 1] == [text[contentStart - 1]];
      forall k | 0 <= k < n ensures !Text.OccursAt(rest, "\n", k) {
        assert rest[k..k + 1][0] == text[after..contentStart - 1][k];
      }
      FirstOccurrence(rest, "\n", n);
    }
  }

  /** Without a "```json" block, the generic block is the trimmed text of its span. */
  lemma GenericBlockOfSpan(text: string, i: nat, j: nat)
    requires JsonSpan(text) == None && GenericSpan(text) == Some((i, j))
    ensures i <= j <= |text| && ExtractJson(text) == Text.Trim(text[i..j])
  {
  }


  // ---------------------------------------------------------------------------
  // The attempt loop
  // ---------------------------------------------------------------------------

  /**
   * `generate_matrix_with_schema_full`: up to `MaxRetries` attempts, the
   * `k`-th answered by `attempt(k)`; the first success is returned at once,
   * otherwise the last failure. `waits` lists the pauses taken, one after
   * each failed attempt but the last.
   */
  method GenerateWithRetries(attempt: nat -> Result<TransformationMatrix, AiError>)
      returns (r: Result<TransformationMatrix, AiError>, waits: seq<nat>)
    ensures |waits| < MaxRetries
    ensures forall k :: 1 <= k <= |waits| ==> attempt(k).Err?
    ensures r == attempt(|waits| + 1)
    ensures r.Err? ==> |waits| + 1 == MaxRetries
    ensures forall k :: 0 <= k < |waits| ==> waits[k] == RetryDelayMs
  {
    var lastError: Option<AiError> := None;
    waits := [];
    for n := 1 to MaxRetries + 1
      invariant |waits| == (if n <= MaxRetries then n - 1 else MaxRetries - 1)
      invariant forall k :: 1 <= k < n ==> attempt(k).Err?
      invariant n == 1 <==> lastError.None?
      invariant lastError.Some? ==> attempt(n - 1) == Err(lastError.value)
      invariant forall k :: 0 <= k < |waits| ==> waits[k] == RetryDelayMs
    {
      var outcome := attempt(n);
      if outcome.Ok? {
        return outcome, waits;
      }
      lastError := Some(outcome.error);
      if n < MaxRetries {
        waits := waits + [RetryDelayMs];
      }
    }
    r := Err(if lastError.Some? then lastError.value else ApiError("Unknown error"));
  }
}
