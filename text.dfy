/**
 * The pieces of Rust's `str` API that the backend relies on, stated over
 * `seq<char>`: whitespace and `trim`, ASCII case mapping, `find`/`rfind`,
 * `split`, `join`, `lines`, `trim_matches`, integer formatting and parsing,
 * and the UTF-8 byte length that `str::len` returns.
 */
module Text {
  import opened Wrappers

  // ---------------------------------------------------------------------------
  // Whitespace and trimming
  // ---------------------------------------------------------------------------

  /** `char::is_whitespace`: the Unicode White_Space property. */
  predicate IsWhitespace(c: char) {
    || ('\U{0009}' <= c <= '\U{000D}')
    || c == '\U{0020}' || c == '\U{0085}' || c == '\U{00A0}' || c == '\U{1680}'
    || ('\U{2000}' <= c <= '\U{200A}')
    || c == '\U{2028}' || c == '\U{2029}' || c == '\U{202F}' || c == '\U{205F}' || c == '\U{3000}'
  }

  /** A string that `trim` reduces to "". */
  predicate IsBlank(s: string) {
    forall i :: 0 <= i < |s| ==> IsWhitespace(s[i])
  }

  /** `str::trim_start`. */
  function TrimStart(s: string): string {
    if s == [] || !IsWhitespace(s[0]) then s else TrimStart(s[1..])
  }

  /** `str::trim_end`. */
  function TrimEnd(s: string): string {
    if s == [] || !IsWhitespace(s[|s| - 1]) then s else TrimEnd(s[..|s| - 1])
  }

  /** `str::trim`. */
  function Trim(s: string): (r: string)
    ensures |r| <= |s|
    ensures r == [] <==> IsBlank(s)
    ensures r == [] || (!IsWhitespace(r[0]) && !IsWhitespace(r[|r| - 1]))
    ensures exists i, j :: 0 <= i <= j <= |s| && r == s[i..j] && IsBlank(s[..i]) && IsBlank(s[j..])
  {
    TrimFacts(s);
    TrimSlice(s);
    TrimEnd(TrimStart(s))
  }

  /** `trim_start` keeps a suffix that starts with a non-whitespace character. */
  lemma {:induction false} TrimStartShape(s: string)
    ensures var r := TrimStart(s); |r| <= |s| && r == s[|s| - |r|..] && (r == [] || !IsWhitespace(r[0]))
    ensures var r := TrimStart(s); |r| <= |s| && IsBlank(s[..|s| - |r|])
    decreases |s|
  {
    if s != [] && IsWhitespace(s[0]) {
      TrimStartShape(s[1..]);
      var r := TrimStart(s);
      var cut := s[..|s| - |r|];
      forall k | 0 <= k < |cut| ensures IsWhitespace(cut[k]) {
        if k > 0 { assert cut[k] == s[1..][..|s| - 1 - |r|][k - 1]; }
      }
    }
  }

  /** `trim_end` keeps a prefix that ends with a non-whitespace character. */
  lemma {:induction false} TrimEndShape(s: string)
    ensures var r := TrimEnd(s); |r| <= |s| && r == s[..|r|] && (r == [] || !IsWhitespace(r[|r| - 1]))
    ensures var r := TrimEnd(s); |r| <= |s| && IsBlank(s[|r|..])
    decreases |s|
  {
    if s != [] && IsWhitespace(s[|s| - 1]) {
      TrimEndShape(s[..|s| - 1]);
      var r := TrimEnd(s);
      var cut := s[|r|..];
      forall k | 0 <= k < |cut| ensures IsWhitespace(cut[k]) {
        if k < |cut| - 1 { assert cut[k] == s[..|s| - 1][|r|..][k]; }
      }
    }
  }

  /** The trimmed text is a slice of the input with only whitespace cut off either side. */
  lemma TrimSlice(s: string)
    ensures exists i, j :: 0 <= i <= j <= |s| && TrimEnd(TrimStart(s)) == s[i..j] && IsBlank(s[..i]) && IsBlank(s[j..])
  {
    var i, j := TrimCut(s);
  }

  /** Where `trim` cuts: the kept slice runs from `i` to `j`. */
  lemma TrimCut(s: string) returns (i: nat, j: nat)
    ensures i <= j <= |s| && TrimEnd(TrimStart(s)) == s[i..j] && IsBlank(s[..i]) && IsBlank(s[j..])
  {
    var t := TrimStart(s);
    TrimStartShape(s);
    i := |s| - |t|;
    TrimEndSlice(s, t, i);
    j := i + |TrimEnd(t)|;
  }

  /** Where `trim` cuts, stated on `Trim`. */
  lemma TrimBounds(s: string) returns (i: nat, j: nat)
    ensures i <= j <= |s| && Trim(s) == s[i..j] && IsBlank(s[..i]) && IsBlank(s[j..])
  {
    i, j := TrimCut(s);
  }

  /** `trim_end` of the suffix `t` from `i` cuts only whitespace off the end of the text. */
  lemma TrimEndSlice(s: string, t: string, i: nat)
    requires i <= |s| && t == s[i..] && IsBlank(s[..i])
    ensures var j := i + |TrimEnd(t)|; j <= |s| && TrimEnd(t) == s[i..j] && IsBlank(s[..i]) && IsBlank(s[j..])
  {
    TrimEndShape(t);
    var r := TrimEnd(t);
    assert s[i + |r|..] == t[|r|..];
  }

  lemma TrimFacts(s: string)
    ensures TrimEnd(TrimStart(s)) == [] <==> IsBlank(s)
    ensures var r := TrimEnd(TrimStart(s)); |r| <= |s| && (r == [] || (!IsWhitespace(r[0]) && !IsWhitespace(r[|r| - 1])))
  {
    var t := TrimStart(s);
    TrimStartShape(s);
    TrimEndShape(t);
    TrimStartBlank(s);
    TrimEndBlank(t);
    var r := TrimEnd(t);
    if r != [] {
      assert t[0] == r[0];
    }
  }

  lemma {:induction false} TrimStartBlank(s: string)
    ensures IsBlank(TrimStart(s)) <==> IsBlank(s)
    decreases |s|
  {
    if s != [] && IsWhitespace(s[0]) {
      TrimStartBlank(s[1..]);
      assert IsBlank(s) <==> IsBlank(s[1..]) by {
        if IsBlank(s[1..]) {
          forall i | 0 <= i < |s| ensures IsWhitespace(s[i]) {
            if i > 0 { assert s[i] == s[1..][i - 1]; }
          }
        }
      }
    }
  }

  lemma {:induction false} TrimEndBlank(s: string)
    ensures TrimEnd(s) == [] <==> IsBlank(s)
    decreases |s|
  {
    if s != [] && IsWhitespace(s[|s| - 1]) {
      TrimEndBlank(s[..|s| - 1]);
      assert IsBlank(s) <==> IsBlank(s[..|s| - 1]) by {
        if IsBlank(s[..|s| - 1]) {
          forall i | 0 <= i < |s| ensures IsWhitespace(s[i]) {
            if i < |s| - 1 { assert s[i] == s[..|s| - 1][i]; }
          }
        }
      }
    }
  }

  lemma {:induction false} TrimIdempotent(s: string)
    ensures Trim(Trim(s)) == Trim(s)
  {
    var r := Trim(s);
    assert TrimStart(r) == r;
    assert TrimEnd(r) == r;
  }

  // ---------------------------------------------------------------------------
  // Character classes and ASCII case mapping
  // ---------------------------------------------------------------------------

  /** `char::is_ascii_digit`. */
  predicate IsAsciiDigit(c: char) {
    '0' <= c <= '9'
  }

  predicate IsAsciiUpper(c: char) {
    'A' <= c <= 'Z'
  }

  predicate IsAsciiLower(c: char) {
    'a' <= c <= 'z'
  }

  /** `char::is_alphanumeric`, restricted to ASCII letters and digits. */
  predicate IsAlphanumeric(c: char) {
    IsAsciiDigit(c) || IsAsciiUpper(c) || IsAsciiLower(c)
  }

  function ToLowerChar(c: char): (r: char)
    ensures !IsAsciiUpper(r)
    ensures IsAlphanumeric(r) <==> IsAlphanumeric(c)
    ensures IsWhitespace(r) <==> IsWhitespace(c)
  {
    if IsAsciiUpper(c) then (c as int + 32) as char else c
  }

  function ToUpperChar(c: char): (r: char)
    ensures !IsAsciiLower(r)
    ensures IsWhitespace(r) <==> IsWhitespace(c)
  {
    if IsAsciiLower(c) then (c as int - 32) as char else c
  }

  /** `str::to_lowercase` on the ASCII range. */
  function ToLower(s: string): (r: string)
    ensures |r| == |s|
    ensures forall i :: 0 <= i < |s| ==> r[i] == ToLowerChar(s[i])
  {
    seq(|s|, i requires 0 <= i < |s| => ToLowerChar(s[i]))
  }

  /** `str::to_uppercase` on the ASCII range. */
  function ToUpper(s: string): (r: string)
    ensures |r| == |s|
    ensures forall i :: 0 <= i < |s| ==> r[i] == ToUpperChar(s[i])
  {
    seq(|s|, i requires 0 <= i < |s| => ToUpperChar(s[i]))
  }

  lemma ToUpperOfToLower(s: string)
    ensures ToUpper(ToLower(s)) == ToUpper(s)
  {
  }

  lemma ToLowerIdempotent(s: string)
    ensures ToLower(ToLower(s)) == ToLower(s)
  {
  }

  /** Trimming commutes with case mapping: no whitespace character is a letter. */
  lemma {:induction false} TrimToLower(s: string)
    ensures Trim(ToLower(s)) == ToLower(Trim(s))
  {
    TrimStartToLower(s);
    TrimEndToLower(TrimStart(s));
  }

  lemma {:induction false} TrimStartToLower(s: string)
    ensures TrimStart(ToLower(s)) == ToLower(TrimStart(s))
    decreases |s|
  {
    if s != [] && IsWhitespace(s[0]) {
      assert ToLower(s)[1..] == ToLower(s[1..]);
      TrimStartToLower(s[1..]);
    }
  }

  lemma {:induction false} TrimEndToLower(s: string)
    ensures TrimEnd(ToLower(s)) == ToLower(TrimEnd(s))
    decreases |s|
  {
    if s != [] && IsWhitespace(s[|s| - 1]) {
      assert ToLower(s)[..|s| - 1] == ToLower(s[..|s| - 1]);
      TrimEndToLower(s[..|s| - 1]);
    }
  }

  // ---------------------------------------------------------------------------
  // Prefixes, suffixes and substring search
  // ---------------------------------------------------------------------------

  predicate StartsWith(s: string, p: string) {
    |p| <= |s| && s[..|p|] == p
  }

  predicate EndsWith(s: string, p: string) {
    |p| <= |s| && s[|s| - |p|..] == p
  }

  /** A concatenation starts with its first part and ends with its second. */
  lemma ConcatEnds(a: string, b: string)
    ensures StartsWith(a + b, a) && EndsWith(a + b, b)
  {
    assert (a + b)[..|a|] == a;
    assert (a + b)[|a + b| - |b|..] == b;
  }

  /** `pat` occurs in `s` starting at index `i`. */
  predicate OccursAt(s: string, pat: string, i: int) {
    0 <= i && i + |pat| <= |s| && s[i..i + |pat|] == pat
  }

  predicate Contains(s: string, pat: string) {
    exists i :: 0 <= i <= |s| && OccursAt(s, pat, i)
  }

  function IndexOfFrom(s: string, pat: string, from: nat): (r: Option<nat>)
    requires from <= |s|
    ensures r.Some? ==> from <= r.value && OccursAt(s, pat, r.value)
    ensures r.Some? ==> forall j :: from <= j < r.value ==> !OccursAt(s, pat, j)
    ensures r.None? ==> forall j :: from <= j ==> !OccursAt(s, pat, j)
    decreases |s| - from
  {
    if from + |pat| > |s| then None
    else if s[from..from + |pat|] == pat then Some(from)
    else if from == |s| then None
    else IndexOfFrom(s, pat, from + 1)
  }

  /** `str::find` with a string pattern: the first occurrence. */
  function IndexOf(s: string, pat: string): (r: Option<nat>)
    ensures r.Some? ==> OccursAt(s, pat, r.value)
    ensures r.Some? ==> forall j :: 0 <= j < r.value ==> !OccursAt(s, pat, j)
    ensures r.None? <==> !Contains(s, pat)
  {
    IndexOfFrom(s, pat, 0)
  }

  function LastIndexOfBelow(s: string, pat: string, bound: nat): (r: Option<nat>)
    requires bound <= |s|
    ensures r.Some? ==> r.value <= bound && OccursAt(s, pat, r.value)
    ensures r.Some? ==> forall j :: r.value < j <= bound ==> !OccursAt(s, pat, j)
    ensures r.None? ==> forall j :: 0 <= j <= bound ==> !OccursAt(s, pat, j)
    decreases bound
  {
    if OccursAt(s, pat, bound) then Some(bound)
    else if bound == 0 then None
    else LastIndexOfBelow(s, pat, bound - 1)
  }

  /** `str::rfind` with a string pattern: the last occurrence. */
  function LastIndexOf(s: string, pat: string): (r: Option<nat>)
    ensures r.Some? ==> OccursAt(s, pat, r.value)
    ensures r.Some? ==> forall j :: r.value < j ==> !OccursAt(s, pat, j)
    ensures r.None? <==> !Contains(s, pat)
  {
    LastIndexOfBelow(s, pat, |s|)
  }

  /** An occurrence in a suffix is an occurrence in the whole text, shifted by where the suffix starts. */
  lemma OccursShift(s: string, pat: string, k: nat, j: nat)
    requires k <= |s|
    ensures OccursAt(s[k..], pat, j) <==> OccursAt(s, pat, k + j)
  {
    if 0 <= j && j + |pat| <= |s| - k {
      assert s[k..][j..j + |pat|] == s[k + j..k + j + |pat|];
    }
  }

  /** The first occurrence in the suffix from `k` is the first occurrence in `s` at or after `k`. */
  lemma FirstOccurrenceAfter(s: string, pat: string, k: nat, p: nat)
    requires k <= p && OccursAt(s, pat, p)
    requires forall j :: k <= j < p ==> !OccursAt(s, pat, j)
    ensures IndexOf(s[k..], pat) == Some(p - k)
  {
    forall j | 0 <= j < p - k ensures !OccursAt(s[k..], pat, j) {
      OccursShift(s, pat, k, j);
    }
    OccursShift(s, pat, k, p - k);
  }

  /** A suffix from `k` holds no occurrence when `s` has none at or after `k`. */
  lemma NoOccurrenceAfter(s: string, pat: string, k: nat)
    requires k <= |s|
    requires forall j :: k <= j ==> !OccursAt(s, pat, j)
    ensures IndexOf(s[k..], pat) == None
  {
    forall j | 0 <= j <= |s| - k ensures !OccursAt(s[k..], pat, j) {
      OccursShift(s, pat, k, j);
    }
  }

  /** The last occurrence in the suffix from `k` is the last occurrence in `s`, when that is at or after `k`. */
  lemma LastOccurrenceAfter(s: string, pat: string, k: nat, p: nat)
    requires k <= p && OccursAt(s, pat, p)
    requires forall j :: p < j ==> !OccursAt(s, pat, j)
    ensures LastIndexOf(s[k..], pat) == Some(p - k)
  {
    OccursShift(s, pat, k, p - k);
    var r := LastIndexOf(s[k..], pat);
    assert r.Some?;
    OccursShift(s, pat, k, r.value);
  }

  // ---------------------------------------------------------------------------
  // split / join
  // ---------------------------------------------------------------------------

  /** `str::split` with a non-empty string pattern. */
  function SplitOn(s: string, sep: string): (r: seq<string>)
    requires sep != []
    ensures |r| >= 1
    decreases |s|
  {
    match IndexOf(s, sep)
    case None => [s]
    case Some(i) => [s[..i]] + SplitOn(s[i + |sep|..], sep)
  }

  /** No piece of a split contains the separator. */
  lemma {:induction false} SplitOnPiecesClean(s: string, sep: string)
    requires sep != []
    ensures forall k :: 0 <= k < |SplitOn(s, sep)| ==> !Contains(SplitOn(s, sep)[k], sep)
    decreases |s|
  {
    match IndexOf(s, sep)
    case None =>
    case Some(i) =>
      var head := s[..i];
      var rest := s[i + |sep|..];
      assert !Contains(head, sep) by {
        forall j | OccursAt(head, sep, j) ensures false {
          assert s[j..j + |sep|] == head[j..j + |sep|];
          assert OccursAt(s, sep, j);
        }
      }
      SplitOnPiecesClean(rest, sep);
      SplitOnUnfold(s, sep, i, rest);
  }

  /** `str::split("")`: an empty piece, one piece per character, an empty piece. */
  function SplitChars(s: string): (r: seq<string>)
    ensures |r| == |s| + 2
  {
    [[]] + seq(|s|, i requires 0 <= i < |s| => [s[i]]) + [[]]
  }

  /** `str::split` for any pattern. */
  function Split(s: string, sep: string): (r: seq<string>)
    ensures |r| >= 1
  {
    if sep == [] then SplitChars(s) else SplitOn(s, sep)
  }

  /** `[String]::join`. */
  function Join(parts: seq<string>, sep: string): string {
    if |parts| == 0 then []
    else if |parts| == 1 then parts[0]
    else parts[0] + sep + Join(parts[1..], sep)
  }

  lemma JoinCons(head: string, tail: seq<string>, sep: string)
    requires |tail| >= 1
    ensures Join([head] + tail, sep) == head + sep + Join(tail, sep)
  {
    assert ([head] + tail)[1..] == tail;
  }

  /** Joining the per-character split of a non-empty text peels off its first character. */
  lemma JoinSplitCharsStep(s: string, sep: string)
    requires s != []
    ensures Join(SplitChars(s), sep) == sep + [s[0]] + Join(SplitChars(s[1..]), sep)
  {
    var chars := seq(|s|, i requires 0 <= i < |s| => [s[i]]);
    var rest := seq(|s| - 1, i requires 0 <= i < |s| - 1 => [s[1..][i]]);
    var tail := rest + [[]];
    assert chars == [[s[0]]] + rest;
    assert SplitChars(s) == [[]] + ([[s[0]]] + tail);
    assert SplitChars(s[1..]) == [[]] + tail;
    JoinCons([], [[s[0]]] + tail, sep);
    JoinCons([s[0]], tail, sep);
    JoinCons([], tail, sep);
  }

  /** Joining the per-character split of the empty text gives the separator once. */
  lemma JoinSplitCharsEmpty(sep: string)
    ensures Join(SplitChars([]), sep) == sep
  {
    assert SplitChars([]) == [[], []];
    JoinCons([], [[]], sep);
  }

  /** The pieces after the first separator at `i` follow the text before it. */
  lemma SplitOnUnfold(s: string, sep: string, i: nat, rest: string)
    requires sep != [] && IndexOf(s, sep) == Some(i) && rest == s[i + |sep|..]
    ensures SplitOn(s, sep) == [s[..i]] + SplitOn(rest, sep)
  {
  }

  /** Splitting at the first separator at `i` puts the text before it first. */
  lemma SplitOnFound(s: string, sep: string, i: nat)
    requires sep != [] && IndexOf(s, sep) == Some(i)
    ensures Join(SplitOn(s, sep), sep) == s[..i] + sep + Join(SplitOn(s[i + |sep|..], sep), sep)
  {
    var head, tail := s[..i], SplitOn(s[i + |sep|..], sep);
    calc {
      Join(SplitOn(s, sep), sep);
      { SplitOnUnfold(s, sep, i, s[i + |sep|..]); }
      Join([head] + tail, sep);
      { JoinCons(head, tail, sep); }
      head + sep + Join(tail, sep);
    }
  }

  /** A text is the concatenation of its three slices around an occurrence of `pat` at `i`. */
  lemma Rejoin(s: string, pat: string, i: nat)
    requires OccursAt(s, pat, i)
    ensures s == s[..i] + pat + s[i + |pat|..]
  {
    assert s == s[..i] + s[i..i + |pat|] + s[i + |pat|..];
  }

  /** Splitting and joining again on the same separator gives back the input. */
  lemma {:induction false} JoinSplitOn(s: string, sep: string)
    requires sep != []
    ensures Join(SplitOn(s, sep), sep) == s
    decreases |s|
  {
    var found := IndexOf(s, sep);
    if found.Some? {
      var i := found.value;
      JoinSplitOn(s[i + |sep|..], sep);
      JoinSplitOnFound(s, sep, i);
    }
  }

  /** The step of `JoinSplitOn` at the first separator, at `i`. */
  lemma JoinSplitOnFound(s: string, sep: string, i: nat)
    requires sep != [] && IndexOf(s, sep) == Some(i)
    requires Join(SplitOn(s[i + |sep|..], sep), sep) == s[i + |sep|..]
    ensures Join(SplitOn(s, sep), sep) == s
  {
    var rest := s[i + |sep|..];
    var tail := SplitOn(rest, sep);
    SplitOnUnfold(s, sep, i, rest);
    JoinCons(s[..i], tail, sep);
    Rejoin(s, sep, i);
  }

  /** `str::lines`: split on '\n', drop one '\r' before each '\n', no empty last line. */
  function Lines(s: string): (r: seq<string>)
    ensures s == [] ==> r == []
  {
    if s == [] then []
    else
      var parts := SplitOn(s, "\n");
      var n := |parts|;
      var ended := seq(n - 1, i requires 0 <= i < n - 1 => StripCarriageReturn(parts[i]));
      if parts[n - 1] == [] then ended else ended + [parts[n - 1]]
  }

  function StripCarriageReturn(line: string): string {
    if line != [] && line[|line| - 1] == '\r' then line[..|line| - 1] else line
  }

  /** `str::trim_matches(c)`: strip every leading and trailing `c`. */
  function TrimMatches(s: string, c: char): (r: string)
    ensures |r| <= |s|
    ensures r == [] || (r[0] != c && r[|r| - 1] != c)
    decreases |s|
  {
    if s == [] then []
    else if s[0] == c then TrimMatches(s[1..], c)
    else if s[|s| - 1] == c then TrimMatches(s[..|s| - 1], c)
    else s
  }

  /** Every character of `s` is `c`. */
  predicate AllChar(s: string, c: char) {
    forall k :: 0 <= k < |s| ==> s[k] == c
  }

  /** `trim_matches(c)` keeps the slice from `i` to `j` and cuts only `c` off either side. */
  lemma {:induction false} TrimMatchesBounds(s: string, c: char) returns (i: nat, j: nat)
    ensures i <= j <= |s| && TrimMatches(s, c) == s[i..j] && AllChar(s[..i], c) && AllChar(s[j..], c)
    decreases |s|
  {
    if s == [] {
      i, j := 0, 0;
    } else if s[0] == c {
      var i', j' := TrimMatchesBounds(s[1..], c);
      i, j := i' + 1, j' + 1;
      CutFront(s, c, i', j');
    } else if s[|s| - 1] == c {
      i, j := TrimMatchesBounds(s[..|s| - 1], c);
      CutBack(s, c, i, j);
    } else {
      i, j := 0, |s|;
      assert s[i..j] == s;
    }
  }

  /** The step of `TrimMatchesBounds` that cuts a leading `c`. */
  lemma CutFront(s: string, c: char, i: nat, j: nat)
    requires s != [] && s[0] == c
    requires var rest := s[1..];
      i <= j <= |rest| && TrimMatches(rest, c) == rest[i..j] && AllChar(rest[..i], c) && AllChar(rest[j..], c)
    ensures TrimMatches(s, c) == s[i + 1..j + 1] && AllChar(s[..i + 1], c) && AllChar(s[j + 1..], c)
  {
    var rest := s[1..];
    assert rest[i..j] == s[i + 1..j + 1];
    assert s[..i + 1] == [c] + rest[..i];
    assert s[j + 1..] == rest[j..];
  }

  /** The step of `TrimMatchesBounds` that cuts a trailing `c`. */
  lemma CutBack(s: string, c: char, i: nat, j: nat)
    requires s != [] && s[0] != c && s[|s| - 1] == c
    requires var init := s[..|s| - 1];
      i <= j <= |init| && TrimMatches(init, c) == init[i..j] && AllChar(init[..i], c) && AllChar(init[j..], c)
    ensures TrimMatches(s, c) == s[i..j] && AllChar(s[..i], c) && AllChar(s[j..], c)
  {
    var init := s[..|s| - 1];
    assert init[i..j] == s[i..j];
    assert s[..i] == init[..i];
    assert s[j..] == init[j..] + [c];
  }

  /** `trim_matches(c)` keeps a slice of the text and cuts only `c` off either side. */
  lemma TrimMatchesSlice(s: string, c: char)
    ensures exists i, j :: (0 <= i <= j <= |s| && TrimMatches(s, c) == s[i..j]
                            && AllChar(s[..i], c) && AllChar(s[j..], c))
  {
    var i, j := TrimMatchesBounds(s, c);
  }

  /** `str::matches(c).count()` for a single character. */
  function CountChar(s: string, c: char): (n: nat)
    ensures n <= |s|
    ensures n == 0 <==> c !in s
  {
    if s == [] then 0 else (if s[0] == c then 1 else 0) + CountChar(s[1..], c)
  }

  // ---------------------------------------------------------------------------
  // Filtering
  // ---------------------------------------------------------------------------

  /** `s.chars().filter(p).collect()`: exactly the characters satisfying `p`, in order. */
  function Filter(p: char -> bool, s: string): (r: string)
    ensures |r| <= |s|
    ensures forall i :: 0 <= i < |r| ==> p(r[i])
    decreases |s|
  {
    if s == [] then []
    else (if p(s[0]) then [s[0]] else []) + Filter(p, s[1..])
  }

  /** Filtering keeps every occurrence of every character that passes. */
  lemma {:induction false} FilterKeepsPassing(p: char -> bool, s: string)
    ensures forall c :: p(c) ==> multiset(Filter(p, s))[c] == multiset(s)[c]
    decreases |s|
  {
    if s != [] {
      FilterKeepsPassing(p, s[1..]);
      assert s == [s[0]] + s[1..];
    }
  }

  lemma {:induction false} FilterAppend(p: char -> bool, a: string, b: string)
    ensures Filter(p, a + b) == Filter(p, a) + Filter(p, b)
    decreases |a|
  {
    if a != [] {
      assert (a + b)[0] == a[0];
      assert (a + b)[1..] == a[1..] + b;
      FilterAppend(p, a[1..], b);
    } else {
      assert a + b == b;
    }
  }

  /** Filtering a string whose characters all pass leaves it unchanged. */
  lemma {:induction false} FilterAllPass(p: char -> bool, s: string)
    requires forall i :: 0 <= i < |s| ==> p(s[i])
    ensures Filter(p, s) == s
    decreases |s|
  {
    if s != [] {
      FilterAllPass(p, s[1..]);
    }
  }

  // ---------------------------------------------------------------------------
  // Integers as decimal text
  // ---------------------------------------------------------------------------

  function DigitChar(d: nat): (c: char)
    requires d < 10
    ensures IsAsciiDigit(c)
  {
    ('0' as int + d) as char
  }

  function DigitValue(c: char): (d: nat)
    requires IsAsciiDigit(c)
    ensures d < 10
  {
    c as int - '0' as int
  }

  predicate AllDigits(s: string) {
    forall i :: 0 <= i < |s| ==> IsAsciiDigit(s[i])
  }

  /** Decimal text of a natural number, no leading zeros. */
  function NatToString(n: nat): (r: string)
    ensures |r| >= 1 && AllDigits(r)
    decreases n
  {
    if n < 10 then [DigitChar(n)] else NatToString(n / 10) + [DigitChar(n % 10)]
  }

  /** `i64::to_string`: an optional '-' then the decimal digits. */
  function IntToString(n: int): string {
    if n < 0 then "-" + NatToString(-n) else NatToString(n)
  }

  /** The value of a string of ASCII digits read in base 10. */
  function DigitsValue(s: string): nat
    requires AllDigits(s)
    decreases |s|
  {
    if s == [] then 0 else DigitsValue(s[..|s| - 1]) * 10 + DigitValue(s[|s| - 1])
  }

  lemma {:induction false} DigitsValueOfNatToString(n: nat)
    ensures DigitsValue(NatToString(n)) == n
    decreases n
  {
    if n >= 10 {
      DigitsValueOfNatToString(n / 10);
      var s := NatToString(n);
      assert s[..|s| - 1] == NatToString(n / 10);
    }
  }

  // ---------------------------------------------------------------------------
  // Lexicographic order (Rust's `Ord` on `String`)
  // ---------------------------------------------------------------------------

  /** Strict lexicographic order by code point, as `String::cmp` orders UTF-8 text. */
  predicate Less(a: string, b: string)
    decreases |a|
  {
    if a == [] then b != []
    else if b == [] then false
    else a[0] < b[0] || (a[0] == b[0] && Less(a[1..], b[1..]))
  }

  lemma {:induction false} LessIrreflexive(a: string)
    ensures !Less(a, a)
    decreases |a|
  {
    if a != [] { LessIrreflexive(a[1..]); }
  }

  lemma {:induction false} LessTransitive(a: string, b: string, c: string)
    requires Less(a, b) && Less(b, c)
    ensures Less(a, c)
    decreases |a|
  {
    if a != [] && b != [] && c != [] && a[0] == b[0] && b[0] == c[0] {
      LessTransitive(a[1..], b[1..], c[1..]);
    }
  }

  lemma {:induction false} LessTotal(a: string, b: string)
    requires a != b
    ensures Less(a, b) || Less(b, a)
    decreases |a|
  {
    if a != [] && b != [] && a[0] == b[0] {
      assert a == [a[0]] + a[1..] && b == [b[0]] + b[1..];
      LessTotal(a[1..], b[1..]);
    }
  }

  predicate StrictlySorted(s: seq<string>) {
    forall i, j :: 0 <= i < j < |s| ==> Less(s[i], s[j])
  }

  /** Insert `x` into a strictly sorted list, keeping it strictly sorted and duplicate-free. */
  function InsertSorted(s: seq<string>, x: string): (r: seq<string>)
    requires StrictlySorted(s)
    ensures StrictlySorted(r)
    ensures forall y :: y in r <==> y in s || y == x
    decreases |s|
  {
    if s == [] then [x]
    else if x == s[0] then s
    else if Less(x, s[0]) then
      assert forall j :: 0 < j < |s| ==> Less(x, s[j]) by {
        forall j | 0 < j < |s| ensures Less(x, s[j]) { LessTransitive(x, s[0], s[j]); }
      }
      [x] + s
    else
      LessTotal(x, s[0]);
      var rest := InsertSorted(s[1..], x);
      assert forall y :: y in rest ==> Less(s[0], y) by {
        forall y | y in rest ensures Less(s[0], y) {
          if y != x { var j :| 0 <= j < |s[1..]| && s[1..][j] == y; assert s[j + 1] == y; }
        }
      }
      [s[0]] + rest
  }

  /** Insert every element of `xs`. */
  function InsertAll(s: seq<string>, xs: seq<string>): (r: seq<string>)
    requires StrictlySorted(s)
    ensures StrictlySorted(r)
    ensures forall y :: y in r <==> y in s || y in xs
    decreases |xs|
  {
    if xs == [] then s else InsertAll(InsertSorted(s, xs[0]), xs[1..])
  }

  // ---------------------------------------------------------------------------
  // UTF-8 byte length (`str::len`)
  // ---------------------------------------------------------------------------

  function Utf8Width(c: char): (w: nat)
    ensures 1 <= w <= 4
    ensures w == 1 <==> c as int < 0x80
  {
    if c as int < 0x80 then 1
    else if c as int < 0x800 then 2
    else if c as int < 0x10000 then 3
    else 4
  }

  function Utf8Len(s: string): (n: nat)
    ensures |s| <= n
    decreases |s|
  {
    if s == [] then 0 else Utf8Width(s[0]) + Utf8Len(s[1..])
  }

  lemma {:induction false} Utf8LenAppend(a: string, b: string)
    ensures Utf8Len(a + b) == Utf8Len(a) + Utf8Len(b)
    decreases |a|
  {
    if a != [] {
      assert (a + b)[0] == a[0];
      assert (a + b)[1..] == a[1..] + b;
      Utf8LenAppend(a[1..], b);
    } else {
      assert a + b == b;
    }
  }

  /** `std::iter::repeat_n(c, n).collect::<String>()`. */
  function Repeat(c: char, n: nat): (r: string)
    ensures |r| == n
    ensures forall i :: 0 <= i < n ==> r[i] == c
  {
    seq(n, _ => c)
  }

  lemma {:induction false} Utf8LenRepeatAscii(c: char, n: nat)
    ensures c as int < 0x80 ==> Utf8Len(Repeat(c, n)) == n
    decreases n
  {
    if n > 0 {
      assert Repeat(c, n)[1..] == Repeat(c, n - 1);
      Utf8LenRepeatAscii(c, n - 1);
    }
  }
}
