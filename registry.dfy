/**
 * The matrix registry: stored transformation matrices keyed by id, matched
 * against the columns of a new CSV file by a case-insensitive overlap score
 * and ranked by that score times the matrix's success rate.
 */
module Registry {
  import opened Wrappers
  import opened Matrix
  import Text

  /** A stored matrix with its bookkeeping; `successRate` is meant to lie in [0, 1]. */
  datatype StoredMatrix = StoredMatrix(
    id: string,
    name: string,
    matrix: TransformationMatrix,
    csvColumns: seq<string>,
    createdAt: string,
    lastUsed: Option<string>,
    successRate: real,
    useCount: nat)

  // ---------------------------------------------------------------------------
  // Compatibility
  // ---------------------------------------------------------------------------

  /** A compatibility score: `matches` of `total` stored columns were found; 0 when nothing is stored. */
  datatype Score = Score(matches: nat, total: nat) {
    function Ratio(): (r: real)
      ensures total == 0 ==> r == 0.0
      ensures matches <= total ==> 0.0 <= r <= 1.0
      ensures 0 < total ==> r * total as real == matches as real
    {
      if total == 0 then 0.0 else matches as real / total as real
    }

    /** The `score > 0.5` filter of `find_compatible`. */
    predicate AboveHalf() {
      2 * matches > total
    }
  }

  /** Every column lowercased. */
  function LowerAll(columns: seq<string>): (r: seq<string>)
    ensures |r| == |columns|
    ensures forall i :: 0 <= i < |columns| ==> r[i] == Text.ToLower(columns[i])
  {
    seq(|columns|, i requires 0 <= i < |columns| => Text.ToLower(columns[i]))
  }

  /** How many stored columns, lowercased, are among `lowered`. */
  function CountMatches(stored: seq<string>, lowered: seq<string>): (n: nat)
    ensures n <= |stored|
    ensures n == |MatchedIndices(stored, lowered)|
    decreases |stored|
  {
    if stored == [] then
      assert MatchedIndices(stored, lowered) == {};
      0
    else
      MatchedIndicesSnoc(stored, lowered);
      CountMatches(stored[..|stored| - 1], lowered)
        + (if Text.ToLower(stored[|stored| - 1]) in lowered then 1 else 0)
  }

  /** The positions of the stored columns that, lowercased, are among `lowered`. */
  function MatchedIndices(stored: seq<string>, lowered: seq<string>): set<nat> {
    set i: nat | i < |stored| && Text.ToLower(stored[i]) in lowered
  }

  /** The last stored column adds its own position when it matches, and nothing otherwise. */
  lemma MatchedIndicesSnoc(stored: seq<string>, lowered: seq<string>)
    requires stored != []
    ensures var last := |stored| - 1;
      last !in MatchedIndices(stored[..last], lowered)
      && MatchedIndices(stored, lowered) ==
         MatchedIndices(stored[..last], lowered) + (if Text.ToLower(stored[last]) in lowered then {last} else {})
  {
    var last := |stored| - 1;
    var init := stored[..last];
    assert forall i :: 0 <= i < last ==> init[i] == stored[i];
  }

  /** `calculate_compatibility`, as a fraction. */
  function Compatibility(stored: seq<string>, csv: seq<string>): (s: Score)
    ensures s.total == |stored| && s.matches <= s.total
  {
    Score(CountMatches(stored, LowerAll(csv)), |stored|)
  }

  /** The score is 0 for no stored column, else the matched fraction, within [0, 1]. */
  lemma CompatibilityRange(stored: seq<string>, csv: seq<string>)
    ensures stored == [] ==> Compatibility(stored, csv).Ratio() == 0.0
    ensures 0.0 <= Compatibility(stored, csv).Ratio() <= 1.0
    ensures Compatibility(stored, csv).AboveHalf() <==> Compatibility(stored, csv).Ratio() > 0.5
  {
    var s := Compatibility(stored, csv);
    if s.total > 0 {
      Fraction(s.matches, s.total);
    }
  }

  /** The product of two positive reals is positive. */
  lemma MulPos(a: real, b: real)
    requires a > 0.0 && b > 0.0
    ensures a * b > 0.0
  {
  }

  /** A fraction `m / t` of naturals with `m <= t` lies in [0, 1] and exceeds one half exactly when `2m > t`. */
  lemma Fraction(m: nat, t: nat)
    requires 0 < t && m <= t
    ensures 0.0 <= m as real / t as real <= 1.0
    ensures m as real / t as real > 0.5 <==> 2 * m > t
  {
    var q := m as real / t as real;
    var tr := t as real;
    assert q * tr == m as real;
    FractionBounds(q, tr, m as real);
    FractionHalf(q, tr, m as real);
  }

  /** A quotient `q = m / t` with `0 <= m <= t` lies in [0, 1]. */
  lemma FractionBounds(q: real, tr: real, mr: real)
    requires tr > 0.0 && 0.0 <= mr <= tr && q * tr == mr
    ensures 0.0 <= q <= 1.0
  {
    if q < 0.0 {
      MulPos(-q, tr);
      assert false;
    }
    if q > 1.0 {
      MulPos(q - 1.0, tr);
      assert false;
    }
  }

  /** A quotient `q = m / t` exceeds one half exactly when `2m > t`. */
  lemma FractionHalf(q: real, tr: real, mr: real)
    requires tr > 0.0 && q * tr == mr
    ensures q > 0.5 <==> 2.0 * mr > tr
  {
    if q > 0.5 {
      MulPos(q - 0.5, tr);
      assert (q - 0.5) * tr == q * tr - 0.5 * tr;
    } else if q < 0.5 {
      MulPos(0.5 - q, tr);
      assert (0.5 - q) * tr == 0.5 * tr - q * tr;
    } else {
      assert mr == 0.5 * tr;
    }
  }

  /** A column matches regardless of case. */
  lemma CountIgnoresStoredCase(stored: seq<string>, lowered: seq<string>)
    ensures CountMatches(LowerAll(stored), lowered) == CountMatches(stored, lowered)
    decreases |stored|
  {
    if stored != [] {
      var init := stored[..|stored| - 1];
      assert LowerAll(stored)[..|stored| - 1] == LowerAll(init);
      CountIgnoresStoredCase(init, lowered);
      Text.ToLowerIdempotent(stored[|stored| - 1]);
    }
  }

  /** The score does not depend on the case of either column list. */
  lemma CompatibilityIgnoresCase(stored: seq<string>, csv: seq<string>)
    ensures Compatibility(LowerAll(stored), csv) == Compatibility(stored, csv)
    ensures Compatibility(stored, LowerAll(csv)) == Compatibility(stored, csv)
  {
    CountIgnoresStoredCase(stored, LowerAll(csv));
    forall i | 0 <= i < |csv| ensures LowerAll(LowerAll(csv))[i] == LowerAll(csv)[i] {
      Text.ToLowerIdempotent(csv[i]);
    }
    assert LowerAll(LowerAll(csv)) == LowerAll(csv);
  }

  /** When every stored column is among the CSV headers the score is 1. */
  lemma {:induction false} AllFoundIsFullMatch(stored: seq<string>, csv: seq<string>)
    requires forall i :: 0 <= i < |stored| ==> stored[i] in csv
    ensures CountMatches(stored, LowerAll(csv)) == |stored|
    decreases |stored|
  {
    if stored != [] {
      var init := stored[..|stored| - 1];
      AllFoundIsFullMatch(init, csv);
      var j :| 0 <= j < |csv| && csv[j] == stored[|stored| - 1];
      assert LowerAll(csv)[j] == Text.ToLower(stored[|stored| - 1]);
    }
  }

  // ---------------------------------------------------------------------------
  // Ranking
  // ---------------------------------------------------------------------------

  /** A candidate of `find_compatible`: a stored matrix and its score. */
  type Candidate = (StoredMatrix, Score)

  /** The sort key: score times success rate. */
  function Rank(c: Candidate): (r: real)
    ensures c.1.total == 0 || c.1.matches == 0 || c.0.successRate == 0.0 ==> r == 0.0
    ensures c.0.successRate == 1.0 ==> r == c.1.Ratio()
  {
    c.1.Ratio() * c.0.successRate
  }

  /** Non-increasing by `key`. */
  predicate Descending<T>(s: seq<T>, key: T -> real) {
    forall i, j :: 0 <= i < j < |s| ==> key(s[i]) >= key(s[j])
  }

  /** Non-increasing by rank. */
  predicate RankedDown(s: seq<Candidate>) {
    forall i, j :: 0 <= i < j < |s| ==> Rank(s[i]) >= Rank(s[j])
  }

  /** `c` placed after every element keyed at least as high. */
  function InsertByKey<T>(s: seq<T>, c: T, key: T -> real): (r: seq<T>)
    requires Descending(s, key)
    ensures Descending(r, key)
    ensures multiset(r) == multiset(s) + multiset{c}
    decreases |s|
  {
    if s == [] then [c]
    else if key(s[0]) >= key(c) then
      var rest := InsertByKey(s[1..], c, key);
      HeadAboveInsert(s, c, key, rest);
      [s[0]] + rest
    else
      HeadAboveAll(s, c, key);
      [c] + s
  }

  /** Inserting below the head keeps the head first. */
  lemma HeadAboveInsert<T>(s: seq<T>, c: T, key: T -> real, rest: seq<T>)
    requires s != [] && Descending(s, key) && key(s[0]) >= key(c)
    requires Descending(rest, key) && multiset(rest) == multiset(s[1..]) + multiset{c}
    ensures Descending([s[0]] + rest, key)
    ensures multiset([s[0]] + rest) == multiset(s) + multiset{c}
  {
    assert s == [s[0]] + s[1..];
    forall x | x in rest ensures key(s[0]) >= key(x) {
      assert x in multiset(rest);
      if x != c {
        var k :| 0 <= k < |s[1..]| && s[1..][k] == x;
        assert s[k + 1] == x;
      }
    }
    DescendingCons(s[0], rest, key);
  }

  /** Inserting above the head puts `c` first. */
  lemma HeadAboveAll<T>(s: seq<T>, c: T, key: T -> real)
    requires s != [] && Descending(s, key) && key(s[0]) < key(c)
    ensures Descending([c] + s, key)
  {
    forall x | x in s ensures key(c) >= key(x) {
      var k :| 0 <= k < |s| && s[k] == x;
      assert key(s[0]) >= key(s[k]);
    }
    DescendingCons(c, s, key);
  }

  /** A head keyed at least as high as every element of a descending tail keeps the order. */
  lemma DescendingCons<T>(x: T, rest: seq<T>, key: T -> real)
    requires Descending(rest, key)
    requires forall y :: y in rest ==> key(x) >= key(y)
    ensures Descending([x] + rest, key)
  {
    var r := [x] + rest;
    forall i, j | 0 <= i < j < |r| ensures key(r[i]) >= key(r[j]) {
      assert r[j] == rest[j - 1];
      if i > 0 {
        assert r[i] == rest[i - 1];
      }
    }
  }

  /** `compatible.sort_by(...)`, descending by rank: an insertion sort. */
  method SortByRank(s: seq<Candidate>) returns (r: seq<Candidate>)
    ensures RankedDown(r)
    ensures multiset(r) == multiset(s)
  {
    r := [];
    for i := 0 to |s|
      invariant Descending(r, Rank)
      invariant multiset(r) == multiset(s[..i])
    {
      r := InsertByKey(r, s[i], Rank);
      assert s[..i + 1] == s[..i] + [s[i]];
    }
    assert s[..|s|] == s;
  }

  /** Two equal entries at distinct positions count twice. */
  lemma RepeatCountsTwice(s: seq<Candidate>, i: nat, j: nat)
    requires i < j < |s| && s[i] == s[j]
    ensures multiset(s)[s[i]] >= 2
  {
    assert s == s[..j] + [s[j]] + s[j + 1..];
    assert s[i] in s[..j];
  }

  // ---------------------------------------------------------------------------
  // Slugs and ids
  // ---------------------------------------------------------------------------

  /** Every character not alphanumeric becomes '-'. */
  function Dashed(s: string): (r: string)
    ensures |r| == |s|
    ensures forall i :: 0 <= i < |s| ==> r[i] == (if Text.IsAlphanumeric(s[i]) then s[i] else '-')
  {
    seq(|s|, i requires 0 <= i < |s| => if Text.IsAlphanumeric(s[i]) then s[i] else '-')
  }

  /** The non-empty pieces, in order. */
  function NonEmpty(parts: seq<string>): (r: seq<string>)
    ensures forall k :: 0 <= k < |r| ==> r[k] != [] && r[k] in parts
    ensures (forall k :: 0 <= k < |parts| ==> parts[k] != []) ==> r == parts
    decreases |parts|
  {
    if parts == [] then []
    else
      var rest := NonEmpty(parts[1..]);
      assert forall k :: 0 <= k < |rest| ==> rest[k] in parts by {
        forall k | 0 <= k < |rest| ensures rest[k] in parts {
          assert rest[k] in parts[1..];
        }
      }
      assert parts == [parts[0]] + parts[1..];
      if parts[0] == [] then rest else [parts[0]] + rest
  }

  /** Lowercase alphanumerics in runs separated by single dashes, no dash at either end. */
  predicate SlugShape(s: string) {
    (forall i :: 0 <= i < |s| ==> s[i] == '-' || (Text.IsAlphanumeric(s[i]) && !Text.IsAsciiUpper(s[i])))
    && (s != [] ==> s[0] != '-' && s[|s| - 1] != '-')
    && (forall i :: 0 <= i < |s| - 1 ==> s[i] != '-' || s[i + 1] != '-')
  }

  /** The slug part of `generate_id`: lowercase, non-alphanumerics to '-', empty runs dropped. */
  function Slug(name: string): (r: string)
    ensures SlugShape(r)
  {
    var dashed := Dashed(Text.ToLower(name));
    var pieces := Text.SplitOn(dashed, "-");
    var words := NonEmpty(pieces);
    Text.SplitOnPiecesClean(dashed, "-");
    forall k | 0 <= k < |words| ensures Word(words[k]) {
      var p :| 0 <= p < |pieces| && pieces[p] == words[k];
      PiecesFrom(dashed, "-", p);
      NoDash(pieces[p]);
      forall i | 0 <= i < |words[k]|
        ensures Text.IsAlphanumeric(words[k][i]) && !Text.IsAsciiUpper(words[k][i])
      {
        assert words[k][i] in dashed;
        var j :| 0 <= j < |dashed| && dashed[j] == words[k][i];
      }
    }
    JoinedWords(words);
    Text.Join(words, "-")
  }

  /** `generate_id`: the slug, a dash and the timestamp in milliseconds. */
  function GenerateId(name: string, millis: int): (id: string)
    ensures Text.StartsWith(id, Slug(name)) && SlugShape(Slug(name))
    ensures Text.EndsWith(id, "-" + Text.IntToString(millis))
    ensures |id| == |Slug(name)| + 1 + |Text.IntToString(millis)|
  {
    Text.ConcatEnds(Slug(name), "-" + Text.IntToString(millis));
    Slug(name) + "-" + Text.IntToString(millis)
  }


  /** A piece of a slug: non-empty lowercase alphanumerics. */
  predicate Word(p: string) {
    p != [] && forall i :: 0 <= i < |p| ==> Text.IsAlphanumeric(p[i]) && !Text.IsAsciiUpper(p[i])
  }

  /** Every character of a piece of `SplitOn(s, sep)` is a character of `s`. */
  lemma {:induction false} PiecesFrom(s: string, sep: string, p: nat)
    requires sep != [] && p < |Text.SplitOn(s, sep)|
    ensures forall c :: c in Text.SplitOn(s, sep)[p] ==> c in s
    decreases |s|
  {
    var found := Text.IndexOf(s, sep);
    if found.Some? {
      var i := found.value;
      var rest := s[i + |sep|..];
      Text.SplitOnUnfold(s, sep, i, rest);
      if p > 0 {
        PiecesFrom(rest, sep, p - 1);
        forall c | c in rest ensures c in s {
          var j :| 0 <= j < |rest| && rest[j] == c;
          assert s[i + |sep| + j] == c;
        }
      } else {
        forall c | c in s[..i] ensures c in s {
          var j :| 0 <= j < i && s[..i][j] == c;
          assert s[j] == c;
        }
      }
    }
  }

  /** A dashed, lowercased piece without the separator is a word, unless empty. */
  lemma NoDash(p: string)
    requires !Text.Contains(p, "-")
    ensures forall i :: 0 <= i < |p| ==> p[i] != '-'
  {
    forall i | 0 <= i < |p| ensures p[i] != '-' {
      if p[i] == '-' {
        assert p[i..i + 1] == "-";
        assert Text.OccursAt(p, "-", i);
      }
    }
  }

  /** Words joined by single dashes have the slug shape, and are non-empty when there is a word. */
  lemma {:induction false} JoinedWords(words: seq<string>)
    requires forall k :: 0 <= k < |words| ==> Word(words[k])
    ensures SlugShape(Text.Join(words, "-"))
    ensures words != [] ==> Text.Join(words, "-") != []
    decreases |words|
  {
    if |words| >= 2 {
      var p := words[0];
      var tail := Text.Join(words[1..], "-");
      JoinedWords(words[1..]);
      var s := Text.Join(words, "-");
      assert s == p + "-" + tail;
      forall i | 0 <= i < |s| - 1 ensures s[i] != '-' || s[i + 1] != '-' {
        if i < |p| - 1 {
          assert s[i] == p[i];
        } else if i == |p| - 1 {
          assert s[i] == p[i];
        } else if i == |p| {
          assert s[i + 1] == tail[0];
        } else {
          assert s[i] == tail[i - |p| - 1] && s[i + 1] == tail[i - |p|];
        }
      }
      forall i | 0 <= i < |s| ensures s[i] == '-' || (Text.IsAlphanumeric(s[i]) && !Text.IsAsciiUpper(s[i])) {
        if i < |p| {
          assert s[i] == p[i];
        } else if i > |p| {
          assert s[i] == tail[i - |p| - 1];
        }
      }
      assert s[|s| - 1] == tail[|tail| - 1];
    }
  }

  /** A well-shaped slug splits on '-' into words only. */
  lemma {:induction false} SlugPieces(s: string)
    requires SlugShape(s) && s != []
    ensures forall k :: 0 <= k < |Text.SplitOn(s, "-")| ==> Text.SplitOn(s, "-")[k] != []
    decreases |s|
  {
    var found := Text.IndexOf(s, "-");
    if found.Some? {
      var i := found.value;
      assert s[i] == '-' by {
        assert s[i..i + 1] == "-";
      }
      assert i != 0 && i != |s| - 1;
      var rest := s[i + 1..];
      assert SlugShape(rest) by {
        assert rest[0] == s[i + 1];
        forall j | 0 <= j < |rest| - 1 ensures rest[j] != '-' || rest[j + 1] != '-' {
          assert rest[j] == s[i + 1 + j] && rest[j + 1] == s[i + 2 + j];
        }
      }
      SlugPieces(rest);
      Text.SplitOnUnfold(s, "-", i, rest);
    }
  }

  /** A slug is its own slug: `generate_id` applied to an id's slug part gives the same slug. */
  lemma SlugIdempotent(name: string)
    ensures Slug(Slug(name)) == Slug(name)
  {
    var s := Slug(name);
    assert Text.ToLower(s) == s;
    assert Dashed(s) == s;
    if s != [] {
      SlugPieces(s);
    }
    Text.JoinSplitOn(s, "-");
  }

  /** The letters and digits of the pieces, in order. */
  ghost function Alphanumerics(parts: seq<string>): string
    decreases |parts|
  {
    if parts == [] then [] else Text.Filter(Text.IsAlphanumeric, parts[0]) + Alphanumerics(parts[1..])
  }

  /** Dashing keeps the letters and digits where they are. */
  lemma {:induction false} FilterDashed(s: string)
    ensures Text.Filter(Text.IsAlphanumeric, Dashed(s)) == Text.Filter(Text.IsAlphanumeric, s)
    decreases |s|
  {
    if s != [] {
      assert Dashed(s)[1..] == Dashed(s[1..]);
      FilterDashed(s[1..]);
    }
  }

  /** Joining with '-' adds no letter or digit. */
  lemma {:induction false} FilterJoinDashes(parts: seq<string>)
    ensures Text.Filter(Text.IsAlphanumeric, Text.Join(parts, "-")) == Alphanumerics(parts)
    decreases |parts|
  {
    if |parts| == 1 {
      assert parts[1..] == [];
    } else if |parts| > 1 {
      var rest := Text.Join(parts[1..], "-");
      FilterJoinDashes(parts[1..]);
      Text.FilterAppend(Text.IsAlphanumeric, parts[0] + "-", rest);
      Text.FilterAppend(Text.IsAlphanumeric, parts[0], "-");
      assert Text.Filter(Text.IsAlphanumeric, "-") == [];
    }
  }

  /** Dropping the empty pieces drops no letter or digit. */
  lemma {:induction false} AlphanumericsNonEmpty(parts: seq<string>)
    ensures Alphanumerics(NonEmpty(parts)) == Alphanumerics(parts)
    decreases |parts|
  {
    if parts != [] {
      var rest := NonEmpty(parts[1..]);
      AlphanumericsNonEmpty(parts[1..]);
      if parts[0] != [] {
        assert ([parts[0]] + rest)[1..] == rest;
      }
    }
  }

  /** The slug keeps the letters and digits of the lower-cased name, in order, and adds none. */
  lemma SlugKeepsAlphanumerics(name: string)
    ensures Text.Filter(Text.IsAlphanumeric, Slug(name)) == Text.Filter(Text.IsAlphanumeric, Text.ToLower(name))
  {
    var dashed := Dashed(Text.ToLower(name));
    var pieces := Text.SplitOn(dashed, "-");
    FilterJoinDashes(NonEmpty(pieces));
    AlphanumericsNonEmpty(pieces);
    FilterJoinDashes(pieces);
    Text.JoinSplitOn(dashed, "-");
    FilterDashed(Text.ToLower(name));
  }

  // ---------------------------------------------------------------------------
  // The registry
  // ---------------------------------------------------------------------------

  /** Why an import failed before anything was saved. */
  datatype ImportFailure = ReadFailed(reason: string) | InvalidJson(reason: string)

  /** The message `import` reports for a failure to read or to parse the file. */
  function ImportMessage(f: ImportFailure): string {
    match f
    case ReadFailed(e) => "Failed to read file: " + e
    case InvalidJson(e) => "Invalid matrix JSON: " + e
  }

  /** The map after inserting each loaded matrix under its own id, later files overriding earlier ones. */
  function InsertAll(m: map<string, StoredMatrix>, loaded: seq<StoredMatrix>): map<string, StoredMatrix>
    decreases |loaded|
  {
    if loaded == [] then m
    else
      var last := loaded[|loaded| - 1];
      InsertAll(m, loaded[..|loaded| - 1])[last.id := last]
  }

  /** The name an import saves under: the given one, else the file stem, else "imported". */
  function ImportName(name: Option<string>, fileStem: Option<string>): (r: string)
    ensures name.Some? ==> r == name.value
    ensures name.None? && fileStem.Some? ==> r == fileStem.value
    ensures name.None? && fileStem.None? ==> r == "imported"
  {
    name.GetOr(fileStem.GetOr("imported"))
  }

  /** The keys among `keys` whose transform reads column `c` as its single source. */
  function SourcedBy(transforms: map<string, FieldTransform>, keys: set<string>, c: string): set<string> {
    set k | k in keys && k in transforms && transforms[k].source == Some(c)
  }

  /** One more visited key counts once more for its own single source and for no other column. */
  lemma SourcedByStep(transforms: map<string, FieldTransform>, done: set<string>, k: string, c: string)
    requires k in transforms && k !in done
    ensures |SourcedBy(transforms, done + {k}, c)| ==
      |SourcedBy(transforms, done, c)| + (if transforms[k].source == Some(c) then 1 else 0)
  {
    if transforms[k].source == Some(c) {
      assert SourcedBy(transforms, done + {k}, c) == SourcedBy(transforms, done, c) + {k};
    } else {
      assert SourcedBy(transforms, done + {k}, c) == SourcedBy(transforms, done, c);
    }
  }

  /**
   * The single-source columns of a matrix's transforms, in some order, once
   * per transform that reads them; concatenated sources are not included.
   */
  method SingleSources(transforms: map<string, FieldTransform>) returns (r: seq<string>)
    ensures forall c :: multiset(r)[c] == |SourcedBy(transforms, transforms.Keys, c)|
    ensures forall c :: c in r <==> exists k :: k in transforms && transforms[k].source == Some(c)
    ensures |r| <= |transforms|
  {
    r := [];
    var todo := transforms.Keys;
    while todo != {}
      invariant todo <= transforms.Keys
      invariant |r| + |todo| <= |transforms|
      invariant forall c :: multiset(r)[c] == |SourcedBy(transforms, transforms.Keys - todo, c)|
      decreases todo
    {
      var k :| k in todo;
      ghost var done := transforms.Keys - todo;
      assert transforms.Keys - (todo - {k}) == done + {k};
      forall c ensures |SourcedBy(transforms, done + {k}, c)| ==
        |SourcedBy(transforms, done, c)| + (if transforms[k].source == Some(c) then 1 else 0) {
        SourcedByStep(transforms, done, k, c);
      }
      if transforms[k].source.Some? {
        r := r + [transforms[k].source.value];
      }
      todo := todo - {k};
    }
    assert transforms.Keys - todo == transforms.Keys;
    forall c ensures c in r <==> exists k :: k in transforms && transforms[k].source == Some(c) {
      assert c in r <==> multiset(r)[c] > 0;
      SourcedByNonEmpty(transforms, c);
    }
  }

  /** Some transform reads `c` exactly when the set of keys sourced by `c` is not empty. */
  lemma SourcedByNonEmpty(transforms: map<string, FieldTransform>, c: string)
    ensures |SourcedBy(transforms, transforms.Keys, c)| > 0 <==>
      exists k :: k in transforms && transforms[k].source == Some(c)
  {
    if k :| k in transforms && transforms[k].source == Some(c) {
      assert k in SourcedBy(transforms, transforms.Keys, c);
    }
  }

  /** The exponential moving average `update_stats` keeps. */
  function NextRate(rate: real, success: bool): (r: real)
    ensures 0.0 <= rate <= 1.0 ==> 0.0 <= r <= 1.0
    ensures success && rate <= 1.0 ==> r >= rate
    ensures !success && rate >= 0.0 ==> r <= rate
  {
    if success then rate * 0.9 + 0.1 else rate * 0.9
  }

  /**
   * The answer of `find_compatible` for `matrices` and the headers `csv`:
   * every stored matrix scoring above one half, each once, with its score,
   * highest score times success rate first.
   */
  ghost predicate Ranked(r: seq<Candidate>, matrices: map<string, StoredMatrix>, csv: seq<string>) {
    && RankedDown(r)
    && (forall i :: 0 <= i < |r| ==>
          r[i].0.id in matrices && matrices[r[i].0.id] == r[i].0
          && r[i].1 == Compatibility(r[i].0.csvColumns, csv) && r[i].1.AboveHalf())
    && (forall k :: k in matrices && Compatibility(matrices[k].csvColumns, csv).AboveHalf() ==>
          (matrices[k], Compatibility(matrices[k].csvColumns, csv)) in r)
    && (forall i, j :: 0 <= i < j < |r| ==> r[i].0.id != r[j].0.id)
  }

  /**
   * The map after one recorded use of `id`: its rate moves by `NextRate`,
   * `lastUsed` becomes `now` and the use count grows by one; no key is
   * added or removed and every other entry is unchanged. An unknown id
   * changes nothing.
   */
  function StatsUpdated(ms: map<string, StoredMatrix>, id: string, success: bool, now: string): (r: map<string, StoredMatrix>)
    ensures r.Keys == ms.Keys
    ensures forall k :: k in ms && k != id ==> r[k] == ms[k]
    ensures id in ms ==> (r[id].id == ms[id].id && r[id].name == ms[id].name && r[id].matrix == ms[id].matrix
      && r[id].csvColumns == ms[id].csvColumns && r[id].createdAt == ms[id].createdAt)
    ensures id in ms ==> (r[id].successRate == NextRate(ms[id].successRate, success)
      && r[id].lastUsed == Some(now) && r[id].useCount == ms[id].useCount + 1)
  {
    if id in ms then
      ms[id := ms[id].(successRate := NextRate(ms[id].successRate, success), lastUsed := Some(now), useCount := ms[id].useCount + 1)]
    else ms
  }

  class MatrixRegistry {
    /** id -> stored matrix. */
    var matrices: map<string, StoredMatrix>

    /** Every entry is stored under its own id. */
    ghost predicate Valid()
      reads this
    {
      forall k :: k in matrices ==> matrices[k].id == k
    }

    /** `with_dir` with a directory that holds no readable matrix. */
    constructor()
      ensures matrices == map[] && Valid()
    {
      matrices := map[];
    }

    /** `load_all`: each readable, parseable file, in directory order, inserted under its id. */
    method LoadAll(loaded: seq<StoredMatrix>)
      requires Valid()
      modifies this
      ensures matrices == InsertAll(old(matrices), loaded)
      ensures Valid()
    {
      for i := 0 to |loaded|
        invariant matrices == InsertAll(old(matrices), loaded[..i])
        invariant Valid()
      {
        assert loaded[..i + 1][..i] == loaded[..i];
        matrices := matrices[loaded[i].id := loaded[i]];
      }
      assert loaded[..|loaded|] == loaded;
    }

    /** `get`. */
    function Get(id: string): (r: Option<StoredMatrix>)
      reads this
      ensures r.Some? <==> id in matrices
      ensures r.Some? ==> r.value == matrices[id]
    {
      if id in matrices then Some(matrices[id]) else None
    }

    /**
     * `find_compatible`: every stored matrix whose score is above one half,
     * each once, with its score, highest score times success rate first.
     */
    method FindCompatible(csv: seq<string>) returns (r: seq<Candidate>)
      requires Valid()
      ensures Ranked(r, matrices, csv)
    {
      var compatible: seq<Candidate> := [];
      var todo := matrices.Keys;
      while todo != {}
        invariant todo <= matrices.Keys
        invariant forall c :: c in compatible ==>
          c.0.id in matrices.Keys - todo && matrices[c.0.id] == c.0
          && c.1 == Compatibility(c.0.csvColumns, csv) && c.1.AboveHalf()
        invariant forall k :: k in matrices.Keys - todo && Compatibility(matrices[k].csvColumns, csv).AboveHalf() ==>
          (matrices[k], Compatibility(matrices[k].csvColumns, csv)) in compatible
        invariant forall c :: multiset(compatible)[c] <= 1
        decreases todo
      {
        var k :| k in todo;
        var m := matrices[k];
        var score := Compatibility(m.csvColumns, csv);
        if score.AboveHalf() {
          assert (m, score) !in compatible;
          compatible := compatible + [(m, score)];
        }
        todo := todo - {k};
      }
      r := SortByRank(compatible);
      PermutedCandidates(matrices, csv, compatible, r);
    }

    /**
     * `save`: on success a new entry under the generated id with the given
     * name and columns, full success rate, no use yet; on an I/O failure
     * nothing changes.
     */
    method Save(matrix: TransformationMatrix, name: string, csvColumns: seq<string>,
                ioFailure: Option<string>, now: string, millis: int) returns (r: Result<string, string>)
      requires Valid()
      modifies this
      ensures Valid()
      ensures ioFailure.Some? ==> r == Err(ioFailure.value) && matrices == old(matrices)
      ensures ioFailure.None? ==> (r == Ok(GenerateId(name, millis))
        && matrices == old(matrices)[r.value := StoredMatrix(r.value, name, matrix, csvColumns, now, None, 1.0, 0)])
    {
      if ioFailure.Some? {
        return Err(ioFailure.value);
      }
      var id := GenerateId(name, millis);
      var stored := StoredMatrix(id, name, matrix, csvColumns, now, None, 1.0, 0);
      matrices := matrices[id := stored];
      r := Ok(id);
    }

    /**
     * `import`: the matrix saved under the given name, the file stem or
     * "imported", with only its single-source columns recorded; read, parse
     * and save failures become messages.
     */
    method Import(file: Result<TransformationMatrix, ImportFailure>, name: Option<string>, fileStem: Option<string>,
                  ioFailure: Option<string>, now: string, millis: int) returns (r: Result<string, string>)
      requires Valid()
      modifies this
      ensures Valid()
      ensures file.Err? ==> r == Err(ImportMessage(file.error)) && matrices == old(matrices)
      ensures file.Ok? && ioFailure.Some? ==> r == Err("Failed to save: " + ioFailure.value) && matrices == old(matrices)
      ensures file.Ok? && ioFailure.None? ==>
        r == Ok(GenerateId(ImportName(name, fileStem), millis)) && r.value in matrices
        && matrices == old(matrices)[r.value := matrices[r.value]]
        && matrices[r.value].id == r.value && matrices[r.value].name == ImportName(name, fileStem)
        && matrices[r.value].matrix == file.value
        && matrices[r.value].createdAt == now && matrices[r.value].lastUsed == None
        && matrices[r.value].successRate == 1.0 && matrices[r.value].useCount == 0
        && (forall c :: multiset(matrices[r.value].csvColumns)[c] ==
              |SourcedBy(file.value.transforms, file.value.transforms.Keys, c)|)
        && (forall c :: c in matrices[r.value].csvColumns <==>
              exists k :: k in file.value.transforms && file.value.transforms[k].source == Some(c))
    {
      if file.Err? {
        return Err(ImportMessage(file.error));
      }
      var matrixName := ImportName(name, fileStem);
      var columns := SingleSources(file.value.transforms);
      var saved := Save(file.value, matrixName, columns, ioFailure, now, millis);
      if saved.Err? {
        r := Err("Failed to save: " + saved.error);
      } else {
        r := Ok(saved.value);
      }
    }

    /**
     * `update_stats` on a known id: the moving average moves toward 1 on
     * success and toward 0 on failure, the use count grows by one and
     * `lastUsed` is set; every other entry is unchanged. Unknown ids change
     * nothing.
     */
    method UpdateStats(id: string, success: bool, now: string)
      requires Valid()
      modifies this
      ensures Valid()
      ensures matrices == StatsUpdated(old(matrices), id, success, now)
    {
      if id in matrices {
        var m := matrices[id];
        var rate := if success then m.successRate * 0.9 + 0.1 else m.successRate * 0.9;
        matrices := matrices[id := m.(successRate := rate, lastUsed := Some(now), useCount := m.useCount + 1)];
      }
    }

    /**
     * `delete`: a present id is removed (even when removing its file then
     * fails); an absent one is reported and nothing changes.
     */
    method Delete(id: string, ioFailure: Option<string>) returns (r: Result<Unit, string>)
      requires Valid()
      modifies this
      ensures Valid()
      ensures id in old(matrices) ==> (matrices == old(matrices) - {id}
        && r == (if ioFailure.Some? then Err("Failed to delete file: " + ioFailure.value) else Ok(Unit)))
      ensures id !in old(matrices) ==> matrices == old(matrices) && r == Err("Matrix not found: " + id)
    {
      if id in matrices {
        matrices := matrices - {id};
        if ioFailure.Some? {
          return Err("Failed to delete file: " + ioFailure.value);
        }
        r := Ok(Unit);
      } else {
        r := Err("Matrix not found: " + id);
      }
    }
  }

  /** What the collecting loop of `find_compatible` established survives the sort. */
  lemma PermutedCandidates(matrices: map<string, StoredMatrix>, csv: seq<string>, compatible: seq<Candidate>, r: seq<Candidate>)
    requires multiset(r) == multiset(compatible)
    requires forall c :: c in compatible ==>
      c.0.id in matrices && matrices[c.0.id] == c.0 && c.1 == Compatibility(c.0.csvColumns, csv) && c.1.AboveHalf()
    requires forall k :: k in matrices && Compatibility(matrices[k].csvColumns, csv).AboveHalf() ==>
      (matrices[k], Compatibility(matrices[k].csvColumns, csv)) in compatible
    requires forall c :: multiset(compatible)[c] <= 1
    ensures forall i :: 0 <= i < |r| ==>
      r[i].0.id in matrices && matrices[r[i].0.id] == r[i].0
      && r[i].1 == Compatibility(r[i].0.csvColumns, csv) && r[i].1.AboveHalf()
    ensures forall k :: k in matrices && Compatibility(matrices[k].csvColumns, csv).AboveHalf() ==>
      (matrices[k], Compatibility(matrices[k].csvColumns, csv)) in r
    ensures forall i, j :: 0 <= i < j < |r| ==> r[i].0.id != r[j].0.id
  {
    forall i, j | 0 <= i < j < |r| ensures r[i].0.id != r[j].0.id {
      if r[i].0.id == r[j].0.id {
        assert r[i] in multiset(compatible) && r[j] in multiset(compatible);
        RepeatCountsTwice(r, i, j);
      }
    }
    forall k | k in matrices && Compatibility(matrices[k].csvColumns, csv).AboveHalf()
      ensures (matrices[k], Compatibility(matrices[k].csvColumns, csv)) in r
    {
      assert (matrices[k], Compatibility(matrices[k].csvColumns, csv)) in multiset(compatible);
    }
    forall i | 0 <= i < |r|
      ensures r[i].0.id in matrices && matrices[r[i].0.id] == r[i].0
      ensures r[i].1 == Compatibility(r[i].0.csvColumns, csv) && r[i].1.AboveHalf()
    {
      assert r[i] in multiset(compatible);
    }
  }

  // ---------------------------------------------------------------------------
  // Properties
  // ---------------------------------------------------------------------------

  /** Repeated updates keep a success rate that starts in [0, 1] inside it. */
  lemma {:induction false} RatesStayInRange(rate: real, outcomes: seq<bool>)
    requires 0.0 <= rate <= 1.0
    ensures 0.0 <= RateAfter(rate, outcomes) <= 1.0
    decreases |outcomes|
  {
    if outcomes != [] {
      RatesStayInRange(rate, outcomes[..|outcomes| - 1]);
    }
  }

  /** The success rate after a series of uses. */
  function RateAfter(rate: real, outcomes: seq<bool>): real
    decreases |outcomes|
  {
    if outcomes == [] then rate
    else NextRate(RateAfter(rate, outcomes[..|outcomes| - 1]), outcomes[|outcomes| - 1])
  }

  /** Two of the three stored columns are among the headers: a score of 2/3. */
  lemma TwoOfThreeColumns()
    ensures Compatibility(["ISWC", "Title", "Role"], ["ISWC", "Title", "Creator"]) == Score(2, 3)
  {
    var stored := ["ISWC", "Title", "Role"];
    var csv := ["ISWC", "Title", "Creator"];
    var lowered := ["iswc", "title", "creator"];
    assert Text.ToLower("ISWC") == "iswc";
    assert Text.ToLower("Title") == "title";
    assert Text.ToLower("Creator") == "creator";
    assert Text.ToLower("Role") == "role";
    assert LowerAll(csv) == lowered;
    assert stored[..2] == ["ISWC", "Title"] && stored[..2][..1] == ["ISWC"];
    assert "role" !in lowered by {
      assert "role"[0] != "iswc"[0] && "role"[0] != "title"[0] && "role"[0] != "creator"[0];
    }
    assert CountMatches(["ISWC"], lowered) == 1 by {
      assert ["ISWC"][..0] == [];
    }
    assert CountMatches(["ISWC", "Title"], lowered) == 2;
    assert CountMatches(stored, lowered) == 2;
  }
}
