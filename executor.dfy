/**
 * The executor: runs a transformation matrix over parsed CSV rows. Each row
 * is first expanded into (row, overrides) pairs; each pair then resolves to
 * a flat record, a skipped row (a required field is missing) or nothing (a
 * record with no field at all).
 */
module Executor {
  import opened Wrappers
  import opened Json
  import opened Operations
  import opened Matrix
  import Text

  /** An error attached to one field of one row. */
  datatype TransformError = TransformError(row: nat, field: string, message: string)

  /** A row that produced no record, with the reason and the required fields it lacked. */
  datatype SkippedRow = SkippedRow(row: nat, reason: string, missingFields: seq<string>)

  datatype TransformResult = TransformResult(records: seq<Value>, errors: seq<TransformError>, skipped: seq<SkippedRow>)
  {
    /** `is_ok`: no error was recorded. */
    predicate IsOk() {
      errors == []
    }
  }

  const NotAnObject: string := "Row is not a JSON object"
  const MissingRequiredFields: string := "Missing required fields"

  /** The field a split-role expansion overrides with the role it produced. */
  const CreatorRoleField: string := "creatorRole"

  /** A row paired with the per-field transforms that replace the matrix's for this pair. */
  type Overrides = Option<map<string, FieldTransform>>

  /**
   * `is_empty`: null, blank text, the empty array and the empty object;
   * numbers and booleans never are.
   */
  predicate IsEmpty(v: Value)
  {
    match v
    case Null => true
    case Str(s) => Text.Trim(s) == []
    case Arr(items) => items == []
    case Obj(fields) => fields == map[]
    case _ => false
  }

  lemma IsEmptyExactly(v: Value)
    ensures IsEmpty(v) <==>
      v.Null? || (v.Str? && Text.IsBlank(v.s)) || (v.Arr? && v.items == []) || (v.Obj? && v.fields == map[])
    ensures v.Num? || v.Bool? ==> !IsEmpty(v)
  {
  }

  predicate Filled(v: Option<Value>) {
    v.Some? && !IsEmpty(v.value)
  }

  // ---------------------------------------------------------------------------
  // One field: `apply_transform`
  // ---------------------------------------------------------------------------

  /** The trimmed text of column `c` when it is a non-blank string. */
  function PartOf(row: map<string, Value>, c: string): (r: Option<string>)
    ensures r.Some? <==> c in row && row[c].Str? && !Text.IsBlank(row[c].s)
    ensures r.Some? ==> r.value == Text.Trim(row[c].s) && r.value != []
  {
    if c in row && row[c].Str? && Text.Trim(row[c].s) != [] then Some(Text.Trim(row[c].s)) else None
  }

  /**
   * The parts a multi-source transform concatenates: the trimmed text of
   * every listed column that holds a non-blank string, in list order;
   * missing, non-string and blank columns are skipped.
   */
  function ConcatParts(row: map<string, Value>, sources: seq<string>): (parts: seq<string>)
    ensures |parts| <= |sources|
    decreases |sources|
  {
    if sources == [] then []
    else
      var rest := ConcatParts(row, sources[1..]);
      match PartOf(row, sources[0])
      case Some(p) => [p] + rest
      case None => rest
  }

  /**
   * The parts are exactly the contributions of the listed columns, and
   * there are none exactly when no listed column contributes.
   */
  lemma {:induction false} ConcatPartsMembers(row: map<string, Value>, sources: seq<string>)
    ensures forall p :: p in ConcatParts(row, sources) ==> exists c :: c in sources && PartOf(row, c) == Some(p)
    ensures forall c :: c in sources && PartOf(row, c).Some? ==> PartOf(row, c).value in ConcatParts(row, sources)
    ensures ConcatParts(row, sources) == [] <==> forall c :: c in sources ==> PartOf(row, c).None?
    decreases |sources|
  {
    if sources != [] {
      ConcatPartsMembers(row, sources[1..]);
      assert forall c :: c in sources <==> c == sources[0] || c in sources[1..];
    }
  }

  /** The parts of two source lists, one after the other, are the parts of their concatenation. */
  lemma {:induction false} ConcatPartsAppend(row: map<string, Value>, a: seq<string>, b: seq<string>)
    ensures ConcatParts(row, a + b) == ConcatParts(row, a) + ConcatParts(row, b)
    decreases |a|
  {
    if a == [] {
      assert a + b == b;
    } else {
      var tail := a[1..] + b;
      assert (a + b)[0] == a[0] && (a + b)[1..] == tail;
      ConcatPartsUnfold(row, a + b, a[0], tail);
      ConcatPartsAppend(row, a[1..], b);
      ConcatPartsUnfold(row, a, a[0], a[1..]);
    }
  }

  /** The parts of the part a column contributes, ahead of the parts of the columns after it. */
  lemma ConcatPartsUnfold(row: map<string, Value>, s: seq<string>, c: string, rest: seq<string>)
    requires s != [] && c == s[0] && rest == s[1..]
    ensures ConcatParts(row, s) == (if PartOf(row, c).Some? then [PartOf(row, c).value] else []) + ConcatParts(row, rest)
  { }

  /** One listed column contributes its trimmed text when it holds non-blank text, and nothing otherwise. */
  lemma ConcatPartsOne(row: map<string, Value>, c: string)
    ensures ConcatParts(row, [c]) == (if PartOf(row, c).Some? then [PartOf(row, c).value] else [])
  {
    assert [c][1..] == [];
  }

  /** The value read before any operation: single source, else concatenation, else constant. */
  function InitialValue(row: map<string, Value>, t: FieldTransform): (r: Option<Value>)
    ensures t.source.Some? ==> r == (if t.source.value in row then Some(row[t.source.value]) else None)
    ensures t.source.None? && t.sources.Some? ==>
      var parts := ConcatParts(row, t.sources.value);
      r == (if parts == [] then None else Some(Str(Text.Join(parts, t.concatSeparator))))
    ensures t.source.None? && t.sources.None? ==> r == t.constant
  {
    match t.source
    case Some(c) => if c in row then Some(row[c]) else None
    case None =>
      match t.sources
      case Some(cs) =>
        var parts := ConcatParts(row, cs);
        if parts == [] then None else Some(Str(Text.Join(parts, t.concatSeparator)))
      case None => t.constant
  }

  /** `step` applied along `xs`, first to last. */
  function Fold<T, V>(xs: seq<T>, step: (T, V) -> V, v: V): V
    decreases |xs|
  {
    if xs == [] then v else step(xs[|xs| - 1], Fold(xs[..|xs| - 1], step, v))
  }

  /** One operation applied to a value. */
  function Step(op: Operation, v: Value): Value {
    op.Apply(v)
  }

  /** The operations of `ops` applied to `v`, first to last. */
  function ApplyOps(ops: seq<Operation>, v: Value): Value {
    Fold(ops, Step, v)
  }

  /** A fold starts with its first element. */
  lemma {:induction false} FoldFirst<T, V>(x: T, rest: seq<T>, step: (T, V) -> V, v: V)
    ensures Fold([x] + rest, step, v) == Fold(rest, step, step(x, v))
    decreases |rest|
  {
    if rest != [] {
      var xs := [x] + rest;
      assert xs[..|xs| - 1] == [x] + rest[..|rest| - 1];
      FoldFirst(x, rest[..|rest| - 1], step, v);
    } else {
      assert ([x] + rest)[..0] == [];
    }
  }

  /** A fold over a concatenation folds the second part over the result of the first. */
  lemma {:induction false} FoldAppend<T, V>(p: seq<T>, q: seq<T>, step: (T, V) -> V, v: V)
    ensures Fold(p + q, step, v) == Fold(q, step, Fold(p, step, v))
    decreases |q|
  {
    if q == [] {
      assert p + q == p;
    } else {
      assert (p + q)[..|p + q| - 1] == p + q[..|q| - 1];
      FoldAppend(p, q[..|q| - 1], step, v);
    }
  }

  /** The chain runs in declared order: the first operation sees the input. */
  lemma ApplyOpsFirst(op: Operation, rest: seq<Operation>, v: Value)
    ensures ApplyOps([op] + rest, v) == ApplyOps(rest, op.Apply(v))
  {
    FoldFirst(op, rest, Step, v);
  }

  /** The chain up to and including operation `i` is operation `i` applied after the chain before it. */
  lemma ApplyOpsPrefix(ops: seq<Operation>, i: nat, v: Value)
    requires i < |ops|
    ensures ApplyOps(ops[..i + 1], v) == ops[i].Apply(ApplyOps(ops[..i], v))
  {
    assert ops[..i + 1][..i] == ops[..i];
  }

  /** Running two chains one after the other is running their concatenation. */
  lemma ApplyOpsAppend(p: seq<Operation>, q: seq<Operation>, v: Value)
    ensures ApplyOps(p + q, v) == ApplyOps(q, ApplyOps(p, v))
  {
    FoldAppend(p, q, Step, v);
  }

  /** `with_operation` adds one last step to the chain. */
  lemma WithOperationRunsLast(t: FieldTransform, op: Operation, v: Value)
    ensures ApplyOps(t.WithOperation(op).operations, v) == op.Apply(ApplyOps(t.operations, v))
  {
    var ops := t.WithOperation(op).operations;
    assert ops[..|ops| - 1] == t.operations;
  }

  /** The value the chain starts from: the default replaces an absent or empty reading. */
  function StartValue(init: Option<Value>, defaultValue: Option<Value>): (r: Option<Value>)
    ensures Filled(init) ==> r == init
    ensures !Filled(init) && defaultValue.Some? ==> r == defaultValue
    ensures !Filled(init) && defaultValue.None? ==> r == init
  {
    if (init.None? || IsEmpty(init.value)) && defaultValue.Some? then defaultValue else init
  }

  /**
   * The value `apply_transform` computes: the chain result when it is not
   * empty, otherwise the default; absent when there is no value to start
   * from and no default.
   */
  function TransformValue(row: map<string, Value>, t: FieldTransform): (r: Option<Value>)
    ensures var s := StartValue(InitialValue(row, t), t.defaultValue);
      s.Some? && !IsEmpty(ApplyOps(t.operations, s.value)) ==> r == Some(ApplyOps(t.operations, s.value))
    ensures var s := StartValue(InitialValue(row, t), t.defaultValue);
      s.Some? && IsEmpty(ApplyOps(t.operations, s.value)) ==> r == t.defaultValue
    ensures StartValue(InitialValue(row, t), t.defaultValue).None? ==> r == None
    ensures r.Some? && IsEmpty(r.value) ==> r == t.defaultValue
    ensures r.None? ==> t.defaultValue.None?
  {
    match StartValue(InitialValue(row, t), t.defaultValue)
    case None => None
    case Some(v) =>
      var out := ApplyOps(t.operations, v);
      if IsEmpty(out) then t.defaultValue else Some(out)
  }

  /** `apply_transform`. */
  method ApplyTransform(row: map<string, Value>, t: FieldTransform) returns (r: Option<Value>)
    ensures r == TransformValue(row, t)
  {
    var value := InitialValue(row, t);
    if value.None? || IsEmpty(value.value) {
      if t.defaultValue.Some? {
        value := t.defaultValue;
      }
    }
    assert value == StartValue(InitialValue(row, t), t.defaultValue);
    if value.Some? {
      var v := value.value;
      for i := 0 to |t.operations|
        invariant v == ApplyOps(t.operations[..i], value.value)
      {
        ApplyOpsPrefix(t.operations, i, value.value);
        v := t.operations[i].Apply(v);
      }
      assert t.operations[..|t.operations|] == t.operations;
      if IsEmpty(v) {
        return t.defaultValue;
      }
      return Some(v);
    }
    return None;
  }

  // ---------------------------------------------------------------------------
  // One (row, overrides) pair: `transform_row_with_overrides`
  // ---------------------------------------------------------------------------

  /** The transform in force for `field`: the pair's override if it has one, else the matrix's. */
  function Effective(m: TransformationMatrix, overrides: Overrides, field: string): (t: FieldTransform)
    requires field in m.transforms
    ensures overrides.None? || field !in overrides.value ==> t == m.transforms[field]
    ensures overrides.Some? && field in overrides.value ==> t == overrides.value[field]
  {
    if overrides.Some? && field in overrides.value then overrides.value[field] else m.transforms[field]
  }

  /** A required field whose value is absent or empty. */
  predicate Lacking(row: map<string, Value>, m: TransformationMatrix, overrides: Overrides, field: string)
    requires field in m.transforms
  {
    var t := Effective(m, overrides, field);
    !Filled(TransformValue(row, t)) && t.required
  }

  /** A field that goes into the record: filled, or optional with a default. */
  predicate Kept(row: map<string, Value>, m: TransformationMatrix, overrides: Overrides, field: string)
    requires field in m.transforms
  {
    var t := Effective(m, overrides, field);
    Filled(TransformValue(row, t)) || (!t.required && t.defaultValue.Some?)
  }

  /** The value a kept field takes. */
  function FieldOutput(row: map<string, Value>, m: TransformationMatrix, overrides: Overrides, field: string): Value
    requires field in m.transforms && Kept(row, m, overrides, field)
  {
    var t := Effective(m, overrides, field);
    var v := TransformValue(row, t);
    if Filled(v) then v.value else t.defaultValue.value
  }

  function Output(row: map<string, Value>, m: TransformationMatrix, overrides: Overrides): map<string, Value> {
    map f | f in m.transforms && Kept(row, m, overrides, f) :: FieldOutput(row, m, overrides, f)
  }

  function MissingRequired(row: map<string, Value>, m: TransformationMatrix, overrides: Overrides): set<string> {
    set f | f in m.transforms && Lacking(row, m, overrides, f)
  }

  /** What a pair resolves to. */
  datatype Resolution =
    | Emitted(record: map<string, Value>)
    | Dropped
    | Skipped(reason: string, missing: set<string>)

  /**
   * The resolution of one pair. A record is emitted only when no required
   * field is missing and at least one field is kept; every required field
   * of an emitted record is there with a non-empty value.
   */
  function Resolve(row: Value, m: TransformationMatrix, overrides: Overrides): (r: Resolution)
    ensures !row.Obj? ==> r == Skipped(NotAnObject, {})
    ensures r.Skipped? && row.Obj? ==> r.reason == MissingRequiredFields && r.missing != {}
    ensures r.Skipped? && row.Obj? ==> forall f :: f in r.missing <==>
      f in m.transforms && Effective(m, overrides, f).required && !Filled(TransformValue(row.fields, Effective(m, overrides, f)))
    ensures r.Emitted? ==> row.Obj? && r.record != map[] && r.record.Keys <= m.transforms.Keys
    ensures r.Emitted? ==> forall f :: f in m.transforms && Effective(m, overrides, f).required ==>
      f in r.record && !IsEmpty(r.record[f])
    ensures r.Dropped? ==> row.Obj? && MissingRequired(row.fields, m, overrides) == {}
  {
    if !row.Obj? then Skipped(NotAnObject, {})
    else
      var missing := MissingRequired(row.fields, m, overrides);
      if missing != {} then Skipped(MissingRequiredFields, missing)
      else
        var out := Output(row.fields, m, overrides);
        if out == map[] then Dropped
        else
          assert forall f :: f in m.transforms && Effective(m, overrides, f).required ==>
            f in out && !IsEmpty(out[f]) by {
            forall f | f in m.transforms && Effective(m, overrides, f).required
              ensures f in out && !IsEmpty(out[f])
            {
              assert f !in missing;
            }
          }
          Emitted(out)
  }

  /** `r` is what `transform_row_with_overrides` returns for the resolution `res` of row `rowIdx`. */
  ghost predicate Reports(r: Result<Option<Value>, SkippedRow>, rowIdx: nat, res: Resolution) {
    match res
    case Emitted(record) => r == Ok(Some(Obj(record)))
    case Dropped => r == Ok(None)
    case Skipped(reason, missing) => r.Err? && SkipReports(r.error, rowIdx, res)
  }

  /** A skipped row reports `res`, listing each missing field once, in some order. */
  ghost predicate SkipReports(s: SkippedRow, rowIdx: nat, res: Resolution) {
    res.Skipped? && s.row == rowIdx && s.reason == res.reason
    && (forall f :: f in s.missingFields <==> f in res.missing)
    && (forall i, j :: 0 <= i < j < |s.missingFields| ==> s.missingFields[i] != s.missingFields[j])
  }

  /** One turn of the field loop: a kept field goes into the output, a lacking one into the missing list. */
  method AddField(obj: map<string, Value>, m: TransformationMatrix, overrides: Overrides, f: string,
                  output: map<string, Value>, missing: seq<string>)
    returns (output': map<string, Value>, missing': seq<string>)
    requires f in m.transforms
    ensures Kept(obj, m, overrides, f) ==> output' == output[f := FieldOutput(obj, m, overrides, f)] && missing' == missing
    ensures Lacking(obj, m, overrides, f) ==> output' == output && missing' == missing + [f]
    ensures !Kept(obj, m, overrides, f) && !Lacking(obj, m, overrides, f) ==> output' == output && missing' == missing
  {
    output', missing' := output, missing;
    var t := if overrides.Some? && f in overrides.value then overrides.value[f] else m.transforms[f];
    var value := ApplyTransform(obj, t);
    if value.Some? && !IsEmpty(value.value) {
      output' := output[f := value.value];
    } else if t.required {
      missing' := missing + [f];
    } else if t.defaultValue.Some? {
      output' := output[f := t.defaultValue.value];
    }
  }

  /** `transform_row_with_overrides`. */
  method TransformRowWithOverrides(row: Value, m: TransformationMatrix, rowIdx: nat, overrides: Overrides)
    returns (r: Result<Option<Value>, SkippedRow>)
    ensures Reports(r, rowIdx, Resolve(row, m, overrides))
  {
    if !row.Obj? {
      return Err(SkippedRow(rowIdx, NotAnObject, []));
    }
    var output, missing := CollectFields(row.fields, m, overrides);
    ResolveCases(row, m, overrides);
    assert output == Output(row.fields, m, overrides);
    if missing != [] {
      assert missing[0] in MissingRequired(row.fields, m, overrides);
      return Err(SkippedRow(rowIdx, MissingRequiredFields, missing));
    }
    assert MissingRequired(row.fields, m, overrides) == {};
    if output == map[] {
      return Ok(None);
    }
    return Ok(Some(Obj(output)));
  }

  /** The field loop of `transform_row_with_overrides`: the kept fields and the lacking ones, each once. */
  method CollectFields(obj: map<string, Value>, m: TransformationMatrix, overrides: Overrides)
    returns (output: map<string, Value>, missing: seq<string>)
    ensures forall f :: f in output <==> f in m.transforms && Kept(obj, m, overrides, f)
    ensures forall f :: f in output ==> output[f] == FieldOutput(obj, m, overrides, f)
    ensures forall f :: f in missing <==> f in m.transforms && Lacking(obj, m, overrides, f)
    ensures forall i, j :: 0 <= i < j < |missing| ==> missing[i] != missing[j]
  {
    output, missing := map[], [];
    var todo := m.transforms.Keys;
    while todo != {}
      invariant todo <= m.transforms.Keys
      invariant forall f :: f in output <==> f in m.transforms && f !in todo && Kept(obj, m, overrides, f)
      invariant forall f :: f in output ==> output[f] == FieldOutput(obj, m, overrides, f)
      invariant forall f :: f in missing <==> f in m.transforms && f !in todo && Lacking(obj, m, overrides, f)
      invariant forall i, j :: 0 <= i < j < |missing| ==> missing[i] != missing[j]
      decreases todo
    {
      var f :| f in todo;
      output, missing := AddField(obj, m, overrides, f, output, missing);
      todo := todo - {f};
    }
  }

  /** How a record resolves, by its missing required fields and its output. */
  lemma ResolveCases(row: Value, m: TransformationMatrix, overrides: Overrides)
    requires row.Obj?
    ensures var missing := MissingRequired(row.fields, m, overrides);
      missing != {} ==> Resolve(row, m, overrides) == Skipped(MissingRequiredFields, missing)
    ensures var missing := MissingRequired(row.fields, m, overrides);
      var out := Output(row.fields, m, overrides);
      missing == {} ==> Resolve(row, m, overrides) == (if out == map[] then Dropped else Emitted(out))
  {
  }

  // ---------------------------------------------------------------------------
  // Row expansion: `expand_row`
  // ---------------------------------------------------------------------------

  type Pair = (Value, Overrides)

  /** The text of a string column, "" for a missing or non-string one. */
  function TextOr(row: map<string, Value>, c: string): (r: string)
    ensures c in row && row[c].Str? ==> r == row[c].s
    ensures !(c in row && row[c].Str?) ==> r == []
  {
    if c in row && row[c].Str? then row[c].s else ""
  }

  /** The role a split part stands for: its mapping, or the part itself when unmapped. */
  function MappedRole(mapping: map<string, string>, role: string): (r: string)
    ensures role in mapping ==> r == mapping[role]
    ensures role !in mapping ==> r == role
  {
    if role in mapping then mapping[role] else role
  }

  /** The trimmed parts of a combined role value. */
  function RoleParts(roleValue: string, separator: string): (r: seq<string>)
    requires separator != []
    ensures |r| == |Text.SplitOn(roleValue, separator)| && |r| >= 1
    ensures forall i :: 0 <= i < |r| ==> r[i] == Text.Trim(Text.SplitOn(roleValue, separator)[i])
  {
    var raw := Text.Split(roleValue, separator);
    seq(|raw|, i requires 0 <= i < |raw| => Text.Trim(raw[i]))
  }

  /** The pair a split part produces: the role written into the row and forced on `creatorRole`. */
  function SplitPair(row: map<string, Value>, source: string, role: string): Pair {
    (Obj(row[source := Str(role)]), Some(map[CreatorRoleField := FromConstant(Str(role))]))
  }

  /** A variant emits a pair unless its condition column is missing, not text, or blank. */
  predicate Fires(row: map<string, Value>, v: ColumnVariant) {
    v.conditionColumn.None? || Text.Trim(TextOr(row, v.conditionColumn.value)) != []
  }

  /** The pairs the firing variants of `variants` emit, in order. */
  function FiredPairs(row: Value, variants: seq<ColumnVariant>): (r: seq<Pair>)
    requires row.Obj?
    ensures |r| <= |variants|
    decreases |variants|
  {
    if variants == [] then []
    else
      var init := variants[..|variants| - 1];
      var last := variants[|variants| - 1];
      var before := FiredPairs(row, init);
      if Fires(row.fields, last) then before + [(row, Some(last.overrides))] else before
  }

  /**
   * Every pair is the row with the overrides of a firing variant, every
   * firing variant gives a pair, and there are none exactly when no variant fires.
   */
  lemma {:induction false} FiredPairsMembers(row: Value, variants: seq<ColumnVariant>)
    requires row.Obj?
    ensures forall p :: p in FiredPairs(row, variants) ==> (p.0 == row &&
      exists i :: 0 <= i < |variants| && Fires(row.fields, variants[i]) && p.1 == Some(variants[i].overrides))
    ensures forall i :: 0 <= i < |variants| && Fires(row.fields, variants[i]) ==>
      (row, Some(variants[i].overrides)) in FiredPairs(row, variants)
    ensures FiredPairs(row, variants) == [] <==> forall i :: 0 <= i < |variants| ==> !Fires(row.fields, variants[i])
    decreases |variants|
  {
    var r := FiredPairs(row, variants);
    if variants != [] {
      var n := |variants| - 1;
      var init := variants[..n];
      var v := variants[n];
      FiredPairsMembers(row, init);
      assert variants == init + [v];
      FiredPairsSnoc(row, init, v);
      forall p | p in r
        ensures p.0 == row && exists i :: 0 <= i < |variants| && Fires(row.fields, variants[i]) && p.1 == Some(variants[i].overrides)
      {
        if p in FiredPairs(row, init) {
          var i :| 0 <= i < |init| && Fires(row.fields, init[i]) && p.1 == Some(init[i].overrides);
          assert init[i] == variants[i];
        } else {
          assert Fires(row.fields, variants[n]) && p.1 == Some(variants[n].overrides);
        }
      }
      forall i | 0 <= i < |variants| && Fires(row.fields, variants[i]) ensures (row, Some(variants[i].overrides)) in r {
        if i < n {
          assert init[i] == variants[i];
        }
      }
    }
    if r != [] {
      assert r[0] in r;
    }
  }

  /** The variants of two lists, one after the other, fire as each list does on its own. */
  lemma {:induction false} FiredPairsAppend(row: Value, a: seq<ColumnVariant>, b: seq<ColumnVariant>)
    requires row.Obj?
    ensures FiredPairs(row, a + b) == FiredPairs(row, a) + FiredPairs(row, b)
    decreases |b|
  {
    if b == [] {
      assert a + b == a;
    } else {
      var init := b[..|b| - 1];
      var v := b[|b| - 1];
      var tail := if Fires(row.fields, v) then [(row, Some(v.overrides))] else [];
      calc {
        FiredPairs(row, a + b);
        { assert a + b == (a + init) + [v]; }
        FiredPairs(row, (a + init) + [v]);
        { FiredPairsSnoc(row, a + init, v); }
        FiredPairs(row, a + init) + tail;
        { FiredPairsAppend(row, a, init); }
        (FiredPairs(row, a) + FiredPairs(row, init)) + tail;
        FiredPairs(row, a) + (FiredPairs(row, init) + tail);
        { FiredPairsSnoc(row, init, v); assert init + [v] == b; }
        FiredPairs(row, a) + FiredPairs(row, b);
      }
    }
  }

  /** The last variant contributes after the others. */
  lemma FiredPairsSnoc(row: Value, init: seq<ColumnVariant>, v: ColumnVariant)
    requires row.Obj?
    ensures FiredPairs(row, init + [v]) ==
      FiredPairs(row, init) + (if Fires(row.fields, v) then [(row, Some(v.overrides))] else [])
  {
    var vs := init + [v];
    assert vs[..|vs| - 1] == init && vs[|vs| - 1] == v;
  }

  /** One variant emits exactly one pair with its overrides when it fires, and none otherwise. */
  lemma FiredPairsOne(row: Value, v: ColumnVariant)
    requires row.Obj?
    ensures FiredPairs(row, [v]) == (if Fires(row.fields, v) then [(row, Some(v.overrides))] else [])
  {
    assert [v][..0] == [];
  }

  /** The pairs `expand_row` produces for `row`. */
  function Expanded(row: Value, m: TransformationMatrix): (r: seq<Pair>)
    ensures |r| >= 1
    ensures !row.Obj? || m.expand.None? ==> r == [(row, None)]
    ensures (row.Obj? && m.expand.Some? && m.expand.value.SplitRole?
             && (TextOr(row.fields, m.expand.value.source) == [] || m.expand.value.separator == []))
            ==> r == [(row, None)]
    ensures row.Obj? && m.expand.Some? && m.expand.value.MultipleColumns? ==>
      var fired := FiredPairs(row, m.expand.value.variants);
      (fired != [] ==> r == fired) && (fired == [] ==> r == [(row, None)])
  {
    if !row.Obj? then [(row, None)]
    else
      match m.expand
      case None => [(row, None)]
      case Some(SplitRole(source, separator, mapping)) =>
        var roleValue := TextOr(row.fields, source);
        if roleValue == [] || separator == [] then [(row, None)]
        else
          var roles := RoleParts(roleValue, separator);
          if |roles| <= 1 then [(row, None)]
          else seq(|roles|, i requires 0 <= i < |roles| => SplitPair(row.fields, source, MappedRole(mapping, roles[i])))
      case Some(MultipleColumns(variants)) =>
        var fired := FiredPairs(row, variants);
        if fired == [] then [(row, None)] else fired
  }

  /** `expand_row`. */
  method ExpandRow(row: Value, m: TransformationMatrix) returns (r: seq<Pair>)
    ensures r == Expanded(row, m)
  {
    if !row.Obj? {
      return [(row, None)];
    }
    match m.expand {
      case None =>
        return [(row, None)];
      case Some(SplitRole(source, separator, mapping)) =>
        var roleValue := TextOr(row.fields, source);
        if roleValue == [] || separator == [] {
          return [(row, None)];
        }
        var roles := RoleParts(roleValue, separator);
        if |roles| <= 1 {
          return [(row, None)];
        }
        return seq(|roles|, i requires 0 <= i < |roles| => SplitPair(row.fields, source, MappedRole(mapping, roles[i])));
      case Some(MultipleColumns(variants)) =>
        var expanded := FirePairs(row, variants);
        if expanded == [] {
          return [(row, None)];
        }
        return expanded;
    }
  }

  /** The `MultipleColumns` loop of `expand_row`: one pair per firing variant, in order. */
  method FirePairs(row: Value, variants: seq<ColumnVariant>) returns (expanded: seq<Pair>)
    requires row.Obj?
    ensures expanded == FiredPairs(row, variants)
  {
    expanded := [];
    for i := 0 to |variants|
      invariant expanded == FiredPairs(row, variants[..i])
    {
      assert variants[..i + 1][..i] == variants[..i];
      if variants[i].conditionColumn.Some? {
        var condValue := TextOr(row.fields, variants[i].conditionColumn.value);
        if Text.Trim(condValue) == [] {
          continue;
        }
      }
      expanded := expanded + [(row, Some(variants[i].overrides))];
    }
    assert variants[..|variants|] == variants;
  }

  /**
   * A combined role such as "C+A" yields one pair per part, in order; each
   * writes the mapped role into the role column and forces `creatorRole`
   * to that same role.
   */
  lemma SplitRoleExpansion(row: Value, m: TransformationMatrix)
    requires row.Obj? && m.expand.Some? && m.expand.value.SplitRole?
    requires var e := m.expand.value; e.separator != [] && TextOr(row.fields, e.source) != []
    requires var e := m.expand.value; |Text.SplitOn(TextOr(row.fields, e.source), e.separator)| >= 2
    ensures var e := m.expand.value;
      var parts := Text.SplitOn(TextOr(row.fields, e.source), e.separator);
      var r := Expanded(row, m);
      |r| == |parts| &&
      forall i :: 0 <= i < |r| ==>
        var role := MappedRole(e.mapping, Text.Trim(parts[i]));
        r[i].0 == Obj(row.fields[e.source := Str(role)])
        && r[i].1 == Some(map[CreatorRoleField := FromConstant(Str(role))])
  {
    var e := m.expand.value;
    var roleValue := TextOr(row.fields, e.source);
    var roles := RoleParts(roleValue, e.separator);
    assert |roles| >= 2;
    var r := Expanded(row, m);
    assert r == seq(|roles|, i requires 0 <= i < |roles| => SplitPair(row.fields, e.source, MappedRole(e.mapping, roles[i])));
  }

  /** A role value without the separator leaves the row as it is. */
  lemma SplitRoleSinglePart(row: Value, m: TransformationMatrix)
    requires row.Obj? && m.expand.Some? && m.expand.value.SplitRole?
    requires var e := m.expand.value; e.separator != [] && !Text.Contains(TextOr(row.fields, e.source), e.separator)
    ensures Expanded(row, m) == [(row, None)]
  {
    var e := m.expand.value;
    var roleValue := TextOr(row.fields, e.source);
    assert Text.IndexOf(roleValue, e.separator).None?;
  }

  // ---------------------------------------------------------------------------
  // The whole table: `execute`
  // ---------------------------------------------------------------------------

  /** The resolutions of the pairs of row `rowIdx`, tagged with the row index. */
  function PairResolutions(rowIdx: nat, pairs: seq<Pair>, m: TransformationMatrix): (r: seq<(nat, Resolution)>)
    ensures |r| == |pairs|
  {
    seq(|pairs|, k requires 0 <= k < |pairs| => (rowIdx, Resolve(pairs[k].0, m, pairs[k].1)))
  }

  /** Resolving one more pair appends its resolution. */
  lemma PairResolutionsSnoc(rowIdx: nat, pairs: seq<Pair>, j: nat, m: TransformationMatrix)
    requires j < |pairs|
    ensures PairResolutions(rowIdx, pairs[..j + 1], m)
         == PairResolutions(rowIdx, pairs[..j], m) + [(rowIdx, Resolve(pairs[j].0, m, pairs[j].1))]
  {
    assert pairs[..j + 1][..j] == pairs[..j];
  }

  /** The resolutions of every pair of every row, in row order. */
  function Resolutions(rows: seq<Value>, m: TransformationMatrix): seq<(nat, Resolution)>
    decreases |rows|
  {
    if rows == [] then []
    else
      var n := |rows| - 1;
      Resolutions(rows[..n], m) + PairResolutions(n, Expanded(rows[n], m), m)
  }

  /** The records of the emitted resolutions, in order. */
  function RecordsOf(res: seq<(nat, Resolution)>): (r: seq<Value>)
    ensures |r| <= |res|
    decreases |res|
  {
    if res == [] then []
    else
      var last := res[|res| - 1];
      RecordsOf(res[..|res| - 1]) + (if last.1.Emitted? then [Obj(last.1.record)] else [])
  }

  /** The skipped resolutions, in order. */
  function SkipsOf(res: seq<(nat, Resolution)>): (r: seq<(nat, Resolution)>)
    ensures |r| <= |res|
    ensures forall e :: e in r ==> e in res && e.1.Skipped?
    decreases |res|
  {
    if res == [] then []
    else
      var last := res[|res| - 1];
      SkipsOf(res[..|res| - 1]) + (if last.1.Skipped? then [last] else [])
  }

  /** Adding one resolution adds at most one record and at most one skipped row. */
  lemma RecordsAndSkipsStep(acc: seq<(nat, Resolution)>, x: (nat, Resolution))
    ensures RecordsOf(acc + [x]) == RecordsOf(acc) + (if x.1.Emitted? then [Obj(x.1.record)] else [])
    ensures SkipsOf(acc + [x]) == SkipsOf(acc) + (if x.1.Skipped? then [x] else [])
  {
    assert (acc + [x])[..|acc|] == acc;
  }

  /** `skipped` reports the skipped resolutions of `acc`, one for one. */
  ghost predicate SkipsReported(skipped: seq<SkippedRow>, acc: seq<(nat, Resolution)>) {
    var skips := SkipsOf(acc);
    |skipped| == |skips| && forall k :: 0 <= k < |skips| ==> SkipReports(skipped[k], skips[k].0, skips[k].1)
  }

  /** Filing one reported outcome keeps `records` and `skipped` in step with the resolutions. */
  lemma FileOutcome(acc: seq<(nat, Resolution)>, x: (nat, Resolution), outcome: Result<Option<Value>, SkippedRow>,
                    records: seq<Value>, skipped: seq<SkippedRow>)
    requires Reports(outcome, x.0, x.1)
    requires records == RecordsOf(acc) && SkipsReported(skipped, acc)
    ensures outcome.Ok? && outcome.value.Some? ==>
      RecordsOf(acc + [x]) == records + [outcome.value.value] && SkipsReported(skipped, acc + [x])
    ensures outcome.Ok? && outcome.value.None? ==>
      RecordsOf(acc + [x]) == records && SkipsReported(skipped, acc + [x])
    ensures outcome.Err? ==>
      RecordsOf(acc + [x]) == records && SkipsReported(skipped + [outcome.error], acc + [x])
  {
    if outcome.Err? {
      FileSkipped(acc, x, outcome.error, records, skipped);
    } else {
      FileKept(acc, x, outcome.value, records, skipped);
    }
  }

  /** A record or a dropped pair leaves the skipped rows as they were. */
  lemma FileKept(acc: seq<(nat, Resolution)>, x: (nat, Resolution), kept: Option<Value>,
                 records: seq<Value>, skipped: seq<SkippedRow>)
    requires Reports(Ok(kept), x.0, x.1)
    requires records == RecordsOf(acc) && SkipsReported(skipped, acc)
    ensures RecordsOf(acc + [x]) == records + (if kept.Some? then [kept.value] else [])
    ensures SkipsReported(skipped, acc + [x])
  {
    RecordsAndSkipsStep(acc, x);
  }

  /** A skipped pair adds its report and no record. */
  lemma FileSkipped(acc: seq<(nat, Resolution)>, x: (nat, Resolution), skip: SkippedRow,
                    records: seq<Value>, skipped: seq<SkippedRow>)
    requires Reports(Err(skip), x.0, x.1)
    requires records == RecordsOf(acc) && SkipsReported(skipped, acc)
    ensures RecordsOf(acc + [x]) == records
    ensures SkipsReported(skipped + [skip], acc + [x])
  {
    RecordsAndSkipsStep(acc, x);
    var skips := SkipsOf(acc + [x]);
    assert skips == SkipsOf(acc) + [x];
    forall k | 0 <= k < |skips|
      ensures SkipReports((skipped + [skip])[k], skips[k].0, skips[k].1)
    {
      if k < |skipped| {
        assert skips[k] == SkipsOf(acc)[k];
      }
    }
  }

  /** The inner loop of `execute`: resolve the pairs of row `rowIdx` and file each outcome. */
  method ResolvePairs(pairs: seq<Pair>, rowIdx: nat, m: TransformationMatrix,
                      records0: seq<Value>, skipped0: seq<SkippedRow>, ghost acc0: seq<(nat, Resolution)>)
    returns (records: seq<Value>, skipped: seq<SkippedRow>)
    requires records0 == RecordsOf(acc0) && SkipsReported(skipped0, acc0)
    ensures var acc := acc0 + PairResolutions(rowIdx, pairs, m);
      records == RecordsOf(acc) && SkipsReported(skipped, acc)
  {
    records, skipped := records0, skipped0;
    ghost var acc := acc0;
    for j := 0 to |pairs|
      invariant acc == acc0 + PairResolutions(rowIdx, pairs[..j], m)
      invariant records == RecordsOf(acc) && SkipsReported(skipped, acc)
    {
      var outcome := TransformRowWithOverrides(pairs[j].0, m, rowIdx, pairs[j].1);
      ghost var x := (rowIdx, Resolve(pairs[j].0, m, pairs[j].1));
      PairResolutionsSnoc(rowIdx, pairs, j, m);
      FileOutcome(acc, x, outcome, records, skipped);
      acc := acc + [x];
      match outcome {
        case Ok(Some(record)) =>
          records := records + [record];
        case Ok(None) =>
        case Err(skip) =>
          skipped := skipped + [skip];
      }
    }
    assert pairs[..|pairs|] == pairs;
  }

  /**
   * `execute`: every pair of every row, in order; emitted records go to
   * `records`, skipped pairs to `skipped`, dropped pairs nowhere, and no
   * error is ever recorded.
   */
  method Execute(rows: seq<Value>, m: TransformationMatrix) returns (result: TransformResult)
    ensures result.IsOk()
    ensures result.records == RecordsOf(Resolutions(rows, m))
    ensures SkipsReported(result.skipped, Resolutions(rows, m))
  {
    var records: seq<Value> := [];
    var skipped: seq<SkippedRow> := [];
    for i := 0 to |rows|
      invariant records == RecordsOf(Resolutions(rows[..i], m))
      invariant SkipsReported(skipped, Resolutions(rows[..i], m))
    {
      var pairs := ExpandRow(rows[i], m);
      records, skipped := ResolvePairs(pairs, i, m, records, skipped, Resolutions(rows[..i], m));
      assert rows[..i + 1][..i] == rows[..i];
    }
    assert rows[..|rows|] == rows;
    result := TransformResult(records, [], skipped);
  }

  /** Every record `execute` produces is a non-empty object. */
  lemma {:induction false} RecordsAreNonEmptyObjects(res: seq<(nat, Resolution)>)
    requires forall e :: e in res && e.1.Emitted? ==> e.1.record != map[]
    ensures forall v :: v in RecordsOf(res) ==> v.Obj? && v.fields != map[]
    decreases |res|
  {
    if res != [] {
      RecordsAreNonEmptyObjects(res[..|res| - 1]);
    }
  }

  /** Records, skipped rows and dropped pairs together account for every pair. */
  lemma {:induction false} EveryPairAccounted(res: seq<(nat, Resolution)>)
    ensures |RecordsOf(res)| + |SkipsOf(res)| + CountDropped(res) == |res|
    decreases |res|
  {
    if res != [] {
      EveryPairAccounted(res[..|res| - 1]);
    }
  }

  function CountDropped(res: seq<(nat, Resolution)>): nat
    decreases |res|
  {
    if res == [] then 0 else CountDropped(res[..|res| - 1]) + (if res[|res| - 1].1.Dropped? then 1 else 0)
  }

  /** Every row produces at least one pair, so a table of n rows gives at least n resolutions. */
  lemma {:induction false} AtLeastOneResolutionPerRow(rows: seq<Value>, m: TransformationMatrix)
    ensures |Resolutions(rows, m)| >= |rows|
    decreases |rows|
  {
    if rows != [] {
      AtLeastOneResolutionPerRow(rows[..|rows| - 1], m);
    }
  }
}
