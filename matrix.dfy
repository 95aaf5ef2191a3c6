/**
 * The transformation matrix: for every target field of a flat record, the
 * rule (`FieldTransform`) that computes it from a CSV row, plus an optional
 * rule for expanding one row into several records.
 */
module Matrix {
  import opened Wrappers
  import opened Json
  import opened Operations
  import Text

  datatype SourceFormat = SourceFormat(delimiter: Option<char>, encoding: Option<string>, headerRows: nat)

  /** The separator between combined roles when the matrix names none. */
  const DefaultRoleSeparator: string := "+"

  /** The separator between concatenated columns when the matrix names none. */
  const DefaultConcatSeparator: string := " "

  /** The matrix format version written by `TransformationMatrix::new`. */
  const DefaultVersion: string := "1.0"

  /** One rule of a `MultipleColumns` expansion. */
  datatype ColumnVariant = ColumnVariant(conditionColumn: Option<string>, overrides: map<string, FieldTransform>)

  datatype ExpandConfig =
      /** One record per role of a combined role column such as "C+A". */
    | SplitRole(source: string, separator: string, mapping: map<string, string>)
      /** One record per variant whose condition column is filled. */
    | MultipleColumns(variants: seq<ColumnVariant>)

  /**
   * How one target field is computed: a single source column, else a list of
   * columns to concatenate, else a constant; then an ordered chain of
   * operations, a default and a required flag.
   */
  datatype FieldTransform = FieldTransform(
    source: Option<string>,
    sources: Option<seq<string>>,
    concatSeparator: string,
    constant: Option<Value>,
    operations: seq<Operation>,
    defaultValue: Option<Value>,
    required: bool)
  {
    /** No operations, no default, not required: the state every constructor starts in. */
    predicate Plain() {
      operations == [] && defaultValue.None? && !required
    }

    /** `with_operation`: the chain gains `op` at its end; nothing else changes. */
    function WithOperation(op: Operation): (r: FieldTransform)
      ensures |r.operations| == |operations| + 1 && r.operations[|operations|] == op
      ensures r.operations[..|operations|] == operations
      ensures r.(operations := operations) == this
    {
      this.(operations := operations + [op])
    }

    /** `with_default`: only the default changes. */
    function WithDefault(d: Value): (r: FieldTransform)
      ensures r.defaultValue == Some(d)
      ensures r.(defaultValue := defaultValue) == this
    {
      this.(defaultValue := Some(d))
    }

    /** `required`: only the required flag changes. */
    function Required(): (r: FieldTransform)
      ensures r.required
      ensures r.(required := required) == this
    {
      this.(required := true)
    }

    /** `get_sources`: the single source column, then the concatenated ones. */
    function GetSources(): (r: seq<string>)
      ensures forall c :: c in r <==> source == Some(c) || (sources.Some? && c in sources.value)
      ensures source.Some? ==> |r| > 0 && r[0] == source.value
      ensures sources.Some? ==> |r| >= |sources.value| && r[|r| - |sources.value|..] == sources.value
      ensures |r| == (if source.Some? then 1 else 0) + (if sources.Some? then |sources.value| else 0)
    {
      (if source.Some? then [source.value] else []) + (if sources.Some? then sources.value else [])
    }
  }

  datatype TransformationMatrix = TransformationMatrix(
    version: string,
    description: string,
    sourceFormat: Option<SourceFormat>,
    transforms: map<string, FieldTransform>,
    expand: Option<ExpandConfig>)

  /** `TransformationMatrix::new`: an empty matrix of the current version. */
  function NewMatrix(): (m: TransformationMatrix)
    ensures m.version == DefaultVersion && m.description == []
    ensures m.sourceFormat.None? && m.transforms == map[] && m.expand.None?
  {
    TransformationMatrix(DefaultVersion, "", None, map[], None)
  }

  /** `FieldTransform::from_source`. */
  function FromSource(source: string): (t: FieldTransform)
    ensures t.source == Some(source) && t.sources.None? && t.constant.None?
    ensures t.Plain() && t.concatSeparator == DefaultConcatSeparator
    ensures t.GetSources() == [source]
  {
    FieldTransform(Some(source), None, DefaultConcatSeparator, None, [], None, false)
  }

  /** `FieldTransform::from_sources`. */
  function FromSources(sources: seq<string>, separator: string): (t: FieldTransform)
    ensures t.source.None? && t.sources == Some(sources) && t.constant.None?
    ensures t.Plain() && t.concatSeparator == separator
    ensures t.GetSources() == sources
  {
    FieldTransform(None, Some(sources), separator, None, [], None, false)
  }

  /** `FieldTransform::from_constant`. */
  function FromConstant(value: Value): (t: FieldTransform)
    ensures t.source.None? && t.sources.None? && t.constant == Some(value)
    ensures t.Plain() && t.concatSeparator == DefaultConcatSeparator
    ensures t.GetSources() == []
  {
    FieldTransform(None, None, DefaultConcatSeparator, Some(value), [], None, false)
  }

  // ---------------------------------------------------------------------------
  // Referenced columns
  // ---------------------------------------------------------------------------

  /** Column `c` is read by one of the transforms of `transforms`. */
  ghost predicate ReadBy(transforms: map<string, FieldTransform>, c: string) {
    exists k :: k in transforms && c in transforms[k].GetSources()
  }

  /** Column `c` is read by the expansion rule. */
  ghost predicate ReadByExpand(expand: Option<ExpandConfig>, c: string) {
    match expand
    case None => false
    case Some(SplitRole(source, _, _)) => c == source
    case Some(MultipleColumns(variants)) =>
      exists i :: 0 <= i < |variants| &&
        (variants[i].conditionColumn == Some(c) || ReadBy(variants[i].overrides, c))
  }

  /** Column `c` is one the matrix reads. */
  ghost predicate Referenced(m: TransformationMatrix, c: string) {
    ReadBy(m.transforms, c) || ReadByExpand(m.expand, c)
  }

  /** Append the sources of every transform of `transforms`, in some order. */
  method AppendSources(columns: seq<string>, transforms: map<string, FieldTransform>) returns (r: seq<string>)
    ensures forall c :: c in r <==> c in columns || ReadBy(transforms, c)
  {
    r := columns;
    var todo := transforms.Keys;
    ghost var done: set<string> := {};
    while todo != {}
      invariant todo + done == transforms.Keys && todo !! done
      invariant forall c :: c in r <==> c in columns || exists k :: k in done && c in transforms[k].GetSources()
      decreases todo
    {
      var k :| k in todo;
      r := r + transforms[k].GetSources();
      todo := todo - {k};
      done := done + {k};
    }
  }

  /** `columns.sort(); columns.dedup()`: the distinct columns in ascending order. */
  method SortDedup(columns: seq<string>) returns (r: seq<string>)
    ensures Text.StrictlySorted(r)
    ensures forall c :: c in r <==> c in columns
  {
    r := [];
    for i := 0 to |columns|
      invariant Text.StrictlySorted(r)
      invariant forall c :: c in r <==> c in columns[..i]
    {
      r := Text.InsertSorted(r, columns[i]);
      assert columns[..i + 1] == columns[..i] + [columns[i]];
    }
    assert columns[..|columns|] == columns;
  }

  /**
   * `source_columns`: every column any transform, the split-role rule, a
   * variant's condition or a variant's override reads, each once, sorted.
   */
  method SourceColumns(m: TransformationMatrix) returns (r: seq<string>)
    ensures Text.StrictlySorted(r)
    ensures forall c :: c in r <==> Referenced(m, c)
  {
    var columns := AppendSources([], m.transforms);
    match m.expand {
      case None =>
      case Some(SplitRole(source, _, _)) =>
        columns := columns + [source];
      case Some(MultipleColumns(variants)) =>
        ghost var before := columns;
        for i := 0 to |variants|
          invariant forall c :: c in columns <==> (c in before ||
            exists j :: 0 <= j < i && (variants[j].conditionColumn == Some(c) || ReadBy(variants[j].overrides, c)))
        {
          if variants[i].conditionColumn.Some? {
            columns := columns + [variants[i].conditionColumn.value];
          }
          columns := AppendSources(columns, variants[i].overrides);
        }
    }
    r := SortDedup(columns);
  }

  /** `target_fields`: the target fields of the matrix, each once, in some order. */
  method TargetFields(m: TransformationMatrix) returns (r: seq<string>)
    ensures |r| == |m.transforms|
    ensures forall k :: k in r <==> k in m.transforms
    ensures forall i, j :: 0 <= i < j < |r| ==> r[i] != r[j]
  {
    r := [];
    var todo := m.transforms.Keys;
    while todo != {}
      invariant todo <= m.transforms.Keys
      invariant forall k :: k in r <==> k in m.transforms.Keys - todo
      invariant |r| + |todo| == |m.transforms.Keys|
      invariant forall i, j :: 0 <= i < j < |r| ==> r[i] != r[j]
      decreases todo
    {
      var k :| k in todo;
      assert |todo - {k}| == |todo| - 1;
      assert k !in r;
      assert forall i :: 0 <= i < |r| ==> r[i] in r && r[i] != k;
      r := r + [k];
      todo := todo - {k};
    }
    assert |m.transforms.Keys| == |m.transforms|;
  }

  /** The columns of `columns` that no header equals, in their order. */
  function MissingColumns(columns: seq<string>, headers: seq<string>): (r: seq<string>)
    ensures forall c :: c in r <==> c in columns && c !in headers
    ensures Text.StrictlySorted(columns) ==> Text.StrictlySorted(r)
    decreases |columns|
  {
    if columns == [] then []
    else
      var rest := MissingColumns(columns[1..], headers);
      if columns[0] in headers then rest
      else
        assert Text.StrictlySorted(columns) ==> forall c :: c in rest ==> Text.Less(columns[0], c) by {
          if Text.StrictlySorted(columns) {
            forall c | c in rest ensures Text.Less(columns[0], c) {
              var j :| 0 <= j < |columns[1..]| && columns[1..][j] == c;
              assert columns[j + 1] == c;
            }
          }
        }
        [columns[0]] + rest
  }

  /**
   * `validate_headers`: Ok exactly when every referenced column is a header
   * (compared case-sensitively), else the sorted list of exactly the
   * referenced columns that are not.
   */
  method ValidateHeaders(m: TransformationMatrix, headers: seq<string>) returns (r: Result<Unit, seq<string>>)
    ensures r.Ok? <==> forall c :: Referenced(m, c) ==> c in headers
    ensures r.Err? ==> r.error != [] && Text.StrictlySorted(r.error)
    ensures r.Err? ==> forall c :: c in r.error <==> Referenced(m, c) && c !in headers
  {
    var columns := SourceColumns(m);
    var missing := MissingColumns(columns, headers);
    if missing == [] {
      forall c | Referenced(m, c) ensures c in headers {
        assert c in columns;
      }
      r := Ok(Unit);
    } else {
      assert missing[0] in missing;
      r := Err(missing);
    }
  }

  // ---------------------------------------------------------------------------
  // Properties
  // ---------------------------------------------------------------------------

  /** A matrix that reads no column validates against any header list. */
  lemma EmptyMatrixReadsNothing(c: string)
    ensures !Referenced(NewMatrix(), c)
  {
  }

  /** A split-role rule's column is referenced even if no transform reads it. */
  lemma SplitRoleSourceReferenced(m: TransformationMatrix)
    requires m.expand.Some? && m.expand.value.SplitRole?
    ensures Referenced(m, m.expand.value.source)
  {
  }
}
