/**
 * The value-transform operations of the transformation DSL. Every operation
 * is a total function from a JSON value to a JSON value: scalar inputs are
 * read as text (`as_string`), anything else passes through or degrades to a
 * null/false result, and nothing ever fails.
 */
module Operations {
  import opened Wrappers
  import opened Json
  import Text

  datatype Operation =
    | Trim
    | Uppercase
    | Lowercase
      /** Replace-all of a literal pattern (see `ReplaceAll`). */
    | Replace(pattern: string, replacement: string)
    | PadStart(length: nat, padChar: string)
    | PadEnd(length: nat, padChar: string)
    | ExtractYear
    | EnsurePrefix(prefix: string)
    | EnsureSuffix(suffix: string)
      /** The lookup table, in the order in which the map is iterated. */
    | Map(mapping: seq<(string, string)>, caseInsensitive: bool, defaultUnmapped: Option<string>)
    | Split(separator: string)
    | ToBoolean(trueValues: seq<string>)
    | ToNumber
    | Substring(start: nat, maxLength: Option<nat>)
    | Alphanumeric
    | DigitsOnly
  {
    /** `Operation::apply`. */
    function Apply(v: Value): (r: Value)
      ensures !IsScalar(v) ==>
        r == (if ExtractYear? || ToNumber? then Null else if ToBoolean? then Bool(false) else v)
      ensures IsScalar(v) && !ExtractYear? && !ToNumber? && !ToBoolean? ==> r.Str? || r.Arr?
    {
      match this
      case ExtractYear => ApplyExtractYear(v)
      case Split(separator) => ApplySplit(v, separator)
      case ToBoolean(trueValues) => ApplyToBoolean(v, trueValues)
      case ToNumber => ApplyToNumber(v)
      case _ => MapText(v, this)
    }

    /** The operations that map the text of a scalar to a new text. */
    predicate IsTextOp() {
      !ExtractYear? && !Split? && !ToBoolean? && !ToNumber?
    }

    /** What a text operation does to the text of a scalar. */
    function OnText(s: string): string
      requires IsTextOp()
    {
      match this
      case Trim => Text.Trim(s)
      case Uppercase => Text.ToUpper(s)
      case Lowercase => Text.ToLower(s)
      case Replace(pattern, replacement) => ReplaceAll(s, pattern, replacement)
      case PadStart(length, padChar) => PadStartText(s, length, PadCharOf(padChar))
      case PadEnd(length, padChar) => PadEndText(s, length, PadCharOf(padChar))
      case EnsurePrefix(prefix) => EnsurePrefixText(s, prefix)
      case EnsureSuffix(suffix) => EnsureSuffixText(s, suffix)
      case Map(mapping, ci, dflt) => MapLookupText(s, mapping, ci, dflt)
      case Substring(start, length) => SubstringText(s, start, length)
      case Alphanumeric => Text.Filter(Text.IsAlphanumeric, s)
      case DigitsOnly => Text.Filter(Text.IsAsciiDigit, s)
    }
  }

  /** The pad character when the operation names none. */
  const DefaultPadChar: string := "0"

  /** The separator of `split` when the operation names none. */
  const DefaultSplitSeparator: string := ","

  /** The truthy strings of `to_boolean` when the operation names none. */
  const DefaultTrueValues: seq<string> := ["true", "1", "yes", "oui", "o", "y"]

  predicate IsScalar(v: Value) {
    v.Str? || v.Num? || v.Bool?
  }

  /** `as_string`: the text of a string, number or boolean. */
  function AsString(v: Value): (r: Option<string>)
    ensures r.Some? <==> IsScalar(v)
    ensures v.Str? ==> r == Some(v.s)
    ensures v.Num? ==> r == Some(Text.IntToString(v.n))
    ensures v.Bool? ==> r == Some(if v.b then "true" else "false")
  {
    match v
    case Str(s) => Some(s)
    case Num(n) => Some(Text.IntToString(n))
    case Bool(b) => Some(if b then "true" else "false")
    case _ => None
  }

  /** `as_string(v).map(|s| Value::String(f(s))).unwrap_or(v)`. */
  function MapText(v: Value, op: Operation): (r: Value)
    requires op.IsTextOp()
    ensures IsScalar(v) ==> r == Str(op.OnText(AsString(v).value))
    ensures !IsScalar(v) ==> r == v
  {
    match AsString(v)
    case Some(s) => Str(op.OnText(s))
    case None => v
  }

  // ---------------------------------------------------------------------------
  // replace
  // ---------------------------------------------------------------------------

  /**
   * Replace every non-overlapping occurrence of `pattern`, scanning left to
   * right, as a regex without metacharacters does; an empty pattern matches
   * before every character and at the end.
   */
  function ReplaceAll(s: string, pattern: string, replacement: string): (r: string)
    ensures r == Text.Join(Text.Split(s, pattern), replacement)
    ensures pattern != [] && !Text.Contains(s, pattern) ==> r == s
    decreases |s|
  {
    if pattern == [] then
      if s == [] then
        Text.JoinSplitCharsEmpty(replacement);
        replacement
      else
        Text.JoinSplitCharsStep(s, replacement);
        replacement + [s[0]] + ReplaceAll(s[1..], pattern, replacement)
    else
      match Text.IndexOf(s, pattern)
      case None => s
      case Some(i) =>
        Text.SplitOnFound(s, pattern, i);
        s[..i] + replacement + ReplaceAll(s[i + |pattern|..], pattern, replacement)
  }

  // ---------------------------------------------------------------------------
  // pad_start / pad_end
  // ---------------------------------------------------------------------------

  /** `pad_char.chars().next().unwrap_or('0')`. */
  function PadCharOf(padChar: string): (c: char)
    ensures padChar == [] ==> c == '0'
    ensures padChar != [] ==> c == padChar[0]
  {
    if padChar != [] then padChar[0] else '0'
  }

  /**
   * Left-pad `s` until its UTF-8 byte length reaches `length`. The original
   * is always a suffix of the result; with an ASCII pad character a short
   * input comes out at exactly `length` bytes.
   */
  function PadStartText(s: string, length: nat, pad: char): (r: string)
    ensures Text.Utf8Len(s) >= length ==> r == s
    ensures Text.EndsWith(r, s)
    ensures Text.Utf8Len(s) < length ==> forall i :: 0 <= i < |r| - |s| ==> r[i] == pad
    ensures Text.Utf8Len(s) < length && pad as int < 0x80 ==> Text.Utf8Len(r) == length
  {
    var n := Text.Utf8Len(s);
    if n >= length then s
    else
      var padding := Text.Repeat(pad, length - n);
      Text.Utf8LenAppend(padding, s);
      Text.Utf8LenRepeatAscii(pad, length - n);
      assert (padding + s)[|padding|..] == s;
      padding + s
  }

  /** Right-pad `s`: the mirror image of `PadStartText`. */
  function PadEndText(s: string, length: nat, pad: char): (r: string)
    ensures Text.Utf8Len(s) >= length ==> r == s
    ensures Text.StartsWith(r, s)
    ensures Text.Utf8Len(s) < length ==> forall i :: |s| <= i < |r| ==> r[i] == pad
    ensures Text.Utf8Len(s) < length && pad as int < 0x80 ==> Text.Utf8Len(r) == length
  {
    var n := Text.Utf8Len(s);
    if n >= length then s
    else
      var padding := Text.Repeat(pad, length - n);
      Text.Utf8LenAppend(s, padding);
      Text.Utf8LenRepeatAscii(pad, length - n);
      assert (s + padding)[..|s|] == s;
      s + padding
  }

  // ---------------------------------------------------------------------------
  // extract_year
  // ---------------------------------------------------------------------------

  /** Four consecutive ASCII digits start at `i`. */
  predicate YearAt(s: string, i: int) {
    0 <= i && i + 4 <= |s| && Text.AllDigits(s[i..i + 4])
  }

  function FindYearFrom(s: string, from: nat): (r: Option<nat>)
    ensures r.Some? ==> from <= r.value && YearAt(s, r.value)
    ensures r.Some? ==> forall j :: from <= j < r.value ==> !YearAt(s, j)
    ensures r.None? ==> forall j :: from <= j ==> !YearAt(s, j)
    decreases |s| - from
  {
    if from + 4 > |s| then None
    else if YearAt(s, from) then Some(from)
    else FindYearFrom(s, from + 1)
  }

  /** The start of the leftmost run of four digits (the first match of `\d{4}`). */
  function FindYear(s: string): (r: Option<nat>)
    ensures r.Some? ==> YearAt(s, r.value) && forall j :: 0 <= j < r.value ==> !YearAt(s, j)
    ensures r.None? <==> forall j :: !YearAt(s, j)
  {
    FindYearFrom(s, 0)
  }

  /** `extract_year`: the first four-digit run as a number, null when there is none. */
  function ApplyExtractYear(v: Value): (r: Value)
    ensures r.Null? || r.Num?
    ensures r.Num? ==> 0 <= r.n <= 9999
    ensures IsScalar(v) ==> var s := AsString(v).value;
      match FindYear(s)
      case Some(i) => r == Num(Text.DigitsValue(s[i..i + 4]))
      case None => r == Null
    ensures !IsScalar(v) ==> r == Null
  {
    match AsString(v)
    case None => Null
    case Some(s) =>
      match FindYear(s)
      case None => Null
      case Some(i) =>
        var year := s[i..i + 4];
        FourDigitsBound(year);
        Num(Text.DigitsValue(year))
  }

  /** The value of four digits, place by place. */
  lemma FourDigitsValue(s: string)
    requires |s| == 4 && Text.AllDigits(s)
    ensures Text.DigitsValue(s) == 1000 * Text.DigitValue(s[0]) + 100 * Text.DigitValue(s[1])
                                    + 10 * Text.DigitValue(s[2]) + Text.DigitValue(s[3])
  {
    var s3, s2, s1 := s[..3], s[..2], s[..1];
    assert s3[..2] == s2 && s2[..1] == s1 && s1[..0] == [];
    assert Text.DigitsValue(s1) == Text.DigitValue(s[0]);
    assert Text.DigitsValue(s2) == 10 * Text.DigitValue(s[0]) + Text.DigitValue(s[1]);
    assert Text.DigitsValue(s3) == 100 * Text.DigitValue(s[0]) + 10 * Text.DigitValue(s[1]) + Text.DigitValue(s[2]);
  }

  lemma FourDigitsBound(s: string)
    requires |s| == 4 && Text.AllDigits(s)
    ensures Text.DigitsValue(s) <= 9999
  {
    FourDigitsValue(s);
  }

  // ---------------------------------------------------------------------------
  // ensure_prefix / ensure_suffix
  // ---------------------------------------------------------------------------

  /** Prepend `prefix` unless `s` already starts with it. */
  function EnsurePrefixText(s: string, prefix: string): (r: string)
    ensures Text.StartsWith(r, prefix)
    ensures Text.StartsWith(s, prefix) ==> r == s
    ensures !Text.StartsWith(s, prefix) ==> r == prefix + s
  {
    if Text.StartsWith(s, prefix) then s
    else
      assert (prefix + s)[..|prefix|] == prefix;
      prefix + s
  }

  /** Append `suffix` unless `s` already ends with it. */
  function EnsureSuffixText(s: string, suffix: string): (r: string)
    ensures Text.EndsWith(r, suffix)
    ensures Text.EndsWith(s, suffix) ==> r == s
    ensures !Text.EndsWith(s, suffix) ==> r == s + suffix
  {
    if Text.EndsWith(s, suffix) then s
    else
      assert (s + suffix)[|s|..] == suffix;
      s + suffix
  }

  // ---------------------------------------------------------------------------
  // map
  // ---------------------------------------------------------------------------

  /** The key under which a table entry is compared. */
  function KeyForm(k: string, caseInsensitive: bool): string {
    if caseInsensitive then Text.ToLower(k) else k
  }

  /** The first entry (in iteration order) whose key matches `key`. */
  function Lookup(mapping: seq<(string, string)>, key: string, caseInsensitive: bool): (r: Option<nat>)
    ensures r.Some? ==> r.value < |mapping| && KeyForm(mapping[r.value].0, caseInsensitive) == key
    ensures r.Some? ==> forall j :: 0 <= j < r.value ==> KeyForm(mapping[j].0, caseInsensitive) != key
    ensures r.None? ==> forall j :: 0 <= j < |mapping| ==> KeyForm(mapping[j].0, caseInsensitive) != key
    decreases |mapping|
  {
    if mapping == [] then None
    else if KeyForm(mapping[0].0, caseInsensitive) == key then Some(0)
    else
      match Lookup(mapping[1..], key, caseInsensitive)
      case None => None
      case Some(j) => Some(j + 1)
  }

  /**
   * `map`: a key found in the table (compared on lowercase when
   * case-insensitive) yields its value; an unmapped key yields
   * `default_unmapped`, or "" when there is none.
   */
  function MapLookupText(s: string, mapping: seq<(string, string)>, caseInsensitive: bool,
                         defaultUnmapped: Option<string>): (r: string)
    ensures forall j :: 0 <= j < |mapping| && KeyForm(mapping[j].0, caseInsensitive) == KeyForm(s, caseInsensitive) ==>
      (exists i :: 0 <= i <= j && r == mapping[i].1)
    ensures (forall j :: 0 <= j < |mapping| ==> KeyForm(mapping[j].0, caseInsensitive) != KeyForm(s, caseInsensitive))
      ==> r == defaultUnmapped.GetOr("")
    ensures var l := Lookup(mapping, KeyForm(s, caseInsensitive), caseInsensitive);
      (l.Some? ==> r == mapping[l.value].1) && (l.None? ==> r == defaultUnmapped.GetOr(""))
  {
    match Lookup(mapping, KeyForm(s, caseInsensitive), caseInsensitive)
    case Some(i) => mapping[i].1
    case None => defaultUnmapped.GetOr("")
  }

  // ---------------------------------------------------------------------------
  // split, to_boolean, to_number
  // ---------------------------------------------------------------------------

  /** `split`: an array of the trimmed pieces. */
  function ApplySplit(v: Value, separator: string): (r: Value)
    ensures IsScalar(v) ==> r.Arr? && |r.items| == |Text.Split(AsString(v).value, separator)|
    ensures IsScalar(v) ==> forall k :: 0 <= k < |r.items| ==>
      r.items[k] == Str(Text.Trim(Text.Split(AsString(v).value, separator)[k]))
    ensures !IsScalar(v) ==> r == v
  {
    match AsString(v)
    case None => v
    case Some(s) =>
      var parts := Text.Split(s, separator);
      Arr(seq(|parts|, k requires 0 <= k < |parts| => Str(Text.Trim(parts[k]))))
  }

  /** `to_boolean`: booleans pass through; text is true iff it matches a truthy value ignoring case. */
  function ApplyToBoolean(v: Value, trueValues: seq<string>): (r: Value)
    ensures r.Bool?
    ensures v.Bool? ==> r == v
    ensures !IsScalar(v) ==> r == Bool(false)
    ensures IsScalar(v) && !v.Bool? ==>
      (r.b <==> exists i :: 0 <= i < |trueValues| && Text.ToLower(trueValues[i]) == Text.ToLower(AsString(v).value))
  {
    if v.Bool? then v
    else if !IsScalar(v) then Bool(false)
    else
      var lower := Text.ToLower(AsString(v).value);
      Bool(exists i :: 0 <= i < |trueValues| && Text.ToLower(trueValues[i]) == lower)
  }

  /**
   * `to_number`: numbers pass through; otherwise every ASCII digit of the
   * text, read as one integer, negated iff the trimmed text starts with '-';
   * no digit, or a value outside 64 signed bits, gives null.
   */
  function ApplyToNumber(v: Value): (r: Value)
    ensures v.Num? ==> r == v
    ensures r.Null? || r.Num?
    ensures !IsScalar(v) ==> r == Null
    ensures r.Num? && !v.Num? ==> InI64(r.n)
    ensures IsScalar(v) && !v.Num? ==>
      var s := AsString(v).value;
      var digits := Text.Filter(Text.IsAsciiDigit, s);
      (r.Num? <==> digits != [] && InI64(SignedDigits(s, digits)))
      && (r.Num? ==> r.n == SignedDigits(s, digits))
  {
    if v.Num? then v
    else if !IsScalar(v) then Null
    else
      var s := AsString(v).value;
      var digits := Text.Filter(Text.IsAsciiDigit, s);
      if digits == [] then Null
      else
        var n := SignedDigits(s, digits);
        if InI64(n) then Num(n) else Null
  }

  /** The value of `digits`, negated iff the trimmed text starts with '-'. */
  function SignedDigits(s: string, digits: string): int
    requires Text.AllDigits(digits)
  {
    var value: int := Text.DigitsValue(digits);
    if Text.StartsWith(Text.Trim(s), "-") then -value else value
  }

  // ---------------------------------------------------------------------------
  // substring
  // ---------------------------------------------------------------------------

  function Min(a: int, b: int): int {
    if a <= b then a else b
  }

  /** `substring`: the characters at indices [start, min(start + length, n)); "" from the end on. */
  function SubstringText(s: string, start: nat, length: Option<nat>): (r: string)
    ensures start >= |s| ==> r == []
    ensures start < |s| ==> r == s[start..Min(start + length.GetOr(|s|), |s|)]
    ensures length.Some? ==> |r| <= length.value
  {
    var end := match length case Some(l) => start + l case None => |s|;
    if start <= Min(end, |s|) then s[start..Min(end, |s|)] else []
  }

  // ---------------------------------------------------------------------------
  // Properties
  // ---------------------------------------------------------------------------

  /** Text with no whitespace at either end is left alone by `trim`. */
  lemma TrimUnpadded(s: string)
    requires s != [] && !Text.IsWhitespace(s[0]) && !Text.IsWhitespace(s[|s| - 1])
    ensures Text.Trim(s) == s
  {
    assert Text.TrimStart(s) == s;
    assert Text.TrimEnd(s) == s;
  }

  function Abs(n: int): nat {
    if n < 0 then -n else n
  }

  /** Decimal text has no whitespace at its ends and no sign. */
  lemma NatTextEdges(n: nat)
    ensures var s := Text.NatToString(n);
      s[0] != '-' && !Text.IsWhitespace(s[0]) && !Text.IsWhitespace(s[|s| - 1])
  {
    var s := Text.NatToString(n);
    assert Text.IsAsciiDigit(s[0]);
    assert Text.IsAsciiDigit(s[|s| - 1]);
  }

  lemma NegativeTextEdges(n: nat)
    ensures var s := "-" + Text.NatToString(n); !Text.IsWhitespace(s[0]) && !Text.IsWhitespace(s[|s| - 1])
  {
    var body := Text.NatToString(n);
    var s := "-" + body;
    assert s[|s| - 1] == body[|body| - 1];
    assert Text.IsAsciiDigit(body[|body| - 1]);
  }

  lemma FilterDigitsOfNatText(n: nat)
    ensures Text.Filter(Text.IsAsciiDigit, Text.NatToString(n)) == Text.NatToString(n)
  {
    Text.FilterAllPass(Text.IsAsciiDigit, Text.NatToString(n));
  }

  lemma FilterDigitsDropsMinus(body: string)
    ensures Text.Filter(Text.IsAsciiDigit, "-" + body) == Text.Filter(Text.IsAsciiDigit, body)
  {
    Text.FilterAppend(Text.IsAsciiDigit, "-", body);
    assert "-"[1..] == [];
  }

  /** The digits and the sign `to_number` sees in the decimal text of `n`. */
  lemma DigitsOfIntText(n: int)
    ensures var s := Text.IntToString(n);
      Text.Filter(Text.IsAsciiDigit, s) == Text.NatToString(Abs(n))
      && (Text.StartsWith(Text.Trim(s), "-") <==> n < 0)
  {
    var s := Text.IntToString(n);
    var body := Text.NatToString(Abs(n));
    if n < 0 {
      assert s == "-" + body;
      NegativeTextEdges(Abs(n));
      TrimUnpadded(s);
      assert s[..1] == "-";
      FilterDigitsDropsMinus(body);
      FilterDigitsOfNatText(Abs(n));
    } else {
      NatTextEdges(n);
      TrimUnpadded(s);
      FilterDigitsOfNatText(n);
    }
  }

  /** `to_number` reads back the decimal text of every 64-bit integer. */
  lemma ToNumberOfIntText(n: int)
    requires InI64(n)
    ensures ToNumber.Apply(Str(Text.IntToString(n))) == Num(n)
  {
    var s := Text.IntToString(n);
    ToNumberOnText(s);
    SignedDigitsOfIntText(n);
  }

  lemma ToNumberOnText(s: string)
    ensures ToNumber.Apply(Str(s)) == ApplyToNumber(Str(s))
  {
  }

  lemma SignedDigitsOfIntText(n: int)
    ensures var s := Text.IntToString(n); var digits := Text.Filter(Text.IsAsciiDigit, s);
      digits != [] && SignedDigits(s, digits) == n
  {
    var s := Text.IntToString(n);
    DigitsOfIntText(n);
    var digits := Text.Filter(Text.IsAsciiDigit, s);
    Text.DigitsValueOfNatToString(Abs(n));
    assert Text.DigitsValue(digits) == Abs(n);
  }

  /** `extract_year` finds the year at the end of a day/month/year date. */
  lemma ExtractYearOfDate()
    ensures ExtractYear.Apply(Str("15/03/2024")) == Num(2024)
  {
    var s := "15/03/2024";
    YearOfDate();
    ExtractYearAt(s, 6);
    assert s[6..10] == "2024";
    YearDigits();
  }

  lemma ExtractYearAt(s: string, i: nat)
    requires FindYear(s) == Some(i)
    ensures i + 4 <= |s| && ExtractYear.Apply(Str(s)) == Num(Text.DigitsValue(s[i..i + 4]))
  {
    ExtractYearOnText(s);
  }

  lemma YearDigits()
    ensures Text.DigitsValue("2024") == 2024
  {
    FourDigitsValue("2024");
  }

  lemma ExtractYearOnText(s: string)
    ensures ExtractYear.Apply(Str(s)) == ApplyExtractYear(Str(s))
  {
  }

  lemma YearOfDate()
    ensures FindYear("15/03/2024") == Some(6)
  {
    var s := "15/03/2024";
    assert !YearAt(s, 0) by { assert !Text.IsAsciiDigit(s[2]); }
    assert !YearAt(s, 1) by { assert !Text.IsAsciiDigit(s[2]); }
    assert !YearAt(s, 2) by { assert !Text.IsAsciiDigit(s[2]); }
    assert !YearAt(s, 3) by { assert !Text.IsAsciiDigit(s[5]); }
    assert !YearAt(s, 4) by { assert !Text.IsAsciiDigit(s[5]); }
    assert !YearAt(s, 5) by { assert !Text.IsAsciiDigit(s[5]); }
    assert YearAt(s, 6);
  }

  /** Applying `ensure_prefix` twice is the same as applying it once. */
  lemma EnsurePrefixIdempotent(prefix: string, v: Value)
    ensures EnsurePrefix(prefix).Apply(EnsurePrefix(prefix).Apply(v)) == EnsurePrefix(prefix).Apply(v)
  {
  }

  /** Applying `ensure_suffix` twice is the same as applying it once. */
  lemma EnsureSuffixIdempotent(suffix: string, v: Value)
    ensures EnsureSuffix(suffix).Apply(EnsureSuffix(suffix).Apply(v)) == EnsureSuffix(suffix).Apply(v)
  {
  }

  /** `ensure_prefix` on the identifiers of the source's own example. */
  lemma EnsurePrefixOfCode()
    ensures EnsurePrefix("T").Apply(Str("1234567890")) == Str("T1234567890")
    ensures EnsurePrefix("T").Apply(Str("T1234567890")) == Str("T1234567890")
  {
    assert !Text.StartsWith("1234567890", "T") by {
      assert "1234567890"[..1] == "1";
    }
    assert Text.StartsWith("T1234567890", "T") by {
      assert "T1234567890"[..1] == "T";
    }
  }

  /** Applying `trim` twice is the same as applying it once. */
  lemma TrimIdempotentOnValues(v: Value)
    ensures Trim.Apply(Trim.Apply(v)) == Trim.Apply(v)
  {
    if IsScalar(v) {
      Text.TrimIdempotent(AsString(v).value);
    }
  }

  /** Uppercasing after lowercasing is plain uppercasing. */
  lemma UppercaseAfterLowercase(v: Value)
    ensures Uppercase.Apply(Lowercase.Apply(v)) == Uppercase.Apply(v)
  {
    if IsScalar(v) {
      Text.ToUpperOfToLower(AsString(v).value);
    }
  }

  /**
   * `digits_only` keeps exactly the digits: every character of the result is
   * an ASCII digit, and each digit occurs as often as in the input.
   */
  lemma DigitsOnlyKeepsDigits(v: Value)
    requires IsScalar(v)
    ensures var r := DigitsOnly.Apply(v); r.Str? && Text.AllDigits(r.s)
    ensures forall c :: Text.IsAsciiDigit(c) ==>
      multiset(DigitsOnly.Apply(v).s)[c] == multiset(AsString(v).value)[c]
  {
    FilterOfScalar(v, DigitsOnly, Text.IsAsciiDigit);
    Text.FilterKeepsPassing(Text.IsAsciiDigit, AsString(v).value);
  }

  /** On a scalar, a filtering operation gives the filtered text of its string form. */
  lemma FilterOfScalar(v: Value, op: Operation, p: char -> bool)
    requires IsScalar(v)
    requires (op == DigitsOnly && p == Text.IsAsciiDigit) || (op == Alphanumeric && p == Text.IsAlphanumeric)
    ensures op.Apply(v) == Str(Text.Filter(p, AsString(v).value))
  {
    var s := AsString(v).value;
    assert MapText(v, op) == Str(op.OnText(s));
  }

  /** `alphanumeric` keeps exactly the ASCII letters and digits. */
  lemma AlphanumericKeepsLettersAndDigits(v: Value)
    requires IsScalar(v)
    ensures var r := Alphanumeric.Apply(v); r.Str? && forall i :: 0 <= i < |r.s| ==> Text.IsAlphanumeric(r.s[i])
    ensures forall c :: Text.IsAlphanumeric(c) ==>
      multiset(Alphanumeric.Apply(v).s)[c] == multiset(AsString(v).value)[c]
  {
    FilterOfScalar(v, Alphanumeric, Text.IsAlphanumeric);
    Text.FilterKeepsPassing(Text.IsAlphanumeric, AsString(v).value);
  }

  /** Replacing a non-empty pattern by itself changes nothing. */
  lemma {:induction false} ReplaceBySelf(s: string, pattern: string)
    requires pattern != []
    ensures ReplaceAll(s, pattern, pattern) == s
    decreases |s|
  {
    match Text.IndexOf(s, pattern)
    case None =>
    case Some(i) =>
      ReplaceBySelf(s[i + |pattern|..], pattern);
      Text.Rejoin(s, pattern, i);
  }

  /** Left padding a short code with zeros reaches the requested width. */
  lemma PadStartWithZeros()
    ensures PadStart(5, DefaultPadChar).Apply(Str("42")) == Str("00042")
  {
    assert Text.Utf8Len("42") == 2 by {
      assert "42"[1..][1..] == [];
    }
    assert Text.Repeat('0', 3) == "000";
  }

  /** Each piece of `split` is trimmed, and a separator-free text gives one piece. */
  lemma SplitWithoutSeparator(s: string, separator: string)
    requires separator != [] && !Text.Contains(s, separator)
    ensures Split(separator).Apply(Str(s)) == Arr([Str(Text.Trim(s))])
  {
    assert Text.Split(s, separator) == [s] by {
      assert Text.IndexOf(s, separator).None?;
    }
    var r := ApplySplit(Str(s), separator);
    assert r.items == [Str(Text.Trim(s))] by {
      assert |r.items| == 1 && r.items[0] == Str(Text.Trim(s));
    }
    assert Split(separator).Apply(Str(s)) == r;
  }
}
