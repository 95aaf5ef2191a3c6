/**
 * The transformation pipeline: validation of the flat records, one trial of
 * a matrix, the choice of matrix (an explicit one, else the cached
 * templates in rank order, else a generated one that is then cached), and
 * the whole run from parsed CSV to flat and grouped records.
 *
 * The record validator, the reading of an explicit matrix file and the
 * matrix generator are parameters; the registry is one in-memory object.
 */
module Pipeline {
  import opened Wrappers
  import opened Json
  import opened Matrix
  import opened Executor
  import Registry
  import Grouper
  import Parser
  import Ai

  /** What a run may be asked to do differently. */
  datatype TransformOptions = TransformOptions(
    matrixPath: Option<string>,
    previewRows: nat,
    skipValidation: bool,
    noCache: bool,
    noSave: bool)

  /** `TransformOptions::default`. */
  function DefaultOptions(): (o: TransformOptions)
    ensures o.previewRows == 10 && o.matrixPath.None?
    ensures !o.skipValidation && !o.noCache && !o.noSave
  {
    TransformOptions(None, 10, false, false, false)
  }

  datatype PipelineError =
    | CsvError(csv: Parser.CsvError)
    | AiError(ai: Ai.AiError)
    | MatrixError(message: string)
    | ValidationError(message: string)
    | IoError(message: string)

  /** The flat-record validator: nothing, or the schema violations found. */
  type Validator = Value -> Result<Unit, seq<string>>

  /** At most this many invalid records are listed with their messages. */
  const MaxListed: nat := 10

  function Min(a: nat, b: nat): nat {
    if a <= b then a else b
  }

  // ---------------------------------------------------------------------------
  // validate_records
  // ---------------------------------------------------------------------------

  /** Valid and invalid counts, and the first invalid records with their messages. */
  datatype Report = Report(valid: nat, invalid: nat, errors: seq<(nat, seq<string>)>)

  /** Every invalid record, as (index, messages), in record order. */
  function Failures(records: seq<Value>, validate: Validator): (r: seq<(nat, seq<string>)>)
    ensures |r| <= |records|
    ensures forall k :: 0 <= k < |r| ==> r[k].0 < |records| && validate(records[r[k].0]) == Err(r[k].1)
    ensures forall k, l :: 0 <= k < l < |r| ==> r[k].0 < r[l].0
    decreases |records|
  {
    if records == [] then []
    else
      var n := |records| - 1;
      var init := Failures(records[..n], validate);
      assert forall k :: 0 <= k < |init| ==> records[..n][init[k].0] == records[init[k].0];
      match validate(records[n])
      case Ok(_) => init
      case Err(messages) => init + [(n, messages)]
  }

  /** Every invalid record is among the failures. */
  lemma {:induction false} FailuresComplete(records: seq<Value>, validate: Validator, i: nat)
    requires i < |records| && validate(records[i]).Err?
    ensures exists k :: 0 <= k < |Failures(records, validate)| && Failures(records, validate)[k].0 == i
    decreases |records|
  {
    var n := |records| - 1;
    if i < n {
      assert records[..n][i] == records[i];
      FailuresComplete(records[..n], validate, i);
      var k :| 0 <= k < |Failures(records[..n], validate)| && Failures(records[..n], validate)[k].0 == i;
      assert Failures(records, validate)[k] == Failures(records[..n], validate)[k];
    } else {
      assert Failures(records, validate)[|Failures(records, validate)| - 1].0 == i;
    }
  }

  /** What `validate_records` reports: the counts and the first `MaxListed` failures. */
  function Validation(records: seq<Value>, validate: Validator): Report {
    var failures := Failures(records, validate);
    Report(|records| - |failures|, |failures|, failures[..Min(|failures|, MaxListed)])
  }

  /**
   * Valid plus invalid is the number of records; at most min(invalid, 10)
   * failures are listed, by increasing index within bounds, each with the
   * validator's messages for that record; they are the first failures.
   */
  lemma ValidationFacts(records: seq<Value>, validate: Validator)
    ensures var r := Validation(records, validate);
      && r.valid + r.invalid == |records|
      && |r.errors| == Min(r.invalid, MaxListed)
      && (forall k :: 0 <= k < |r.errors| ==>
            r.errors[k].0 < |records| && validate(records[r.errors[k].0]) == Err(r.errors[k].1))
      && (forall k, l :: 0 <= k < l < |r.errors| ==> r.errors[k].0 < r.errors[l].0)
      && r.errors == Failures(records, validate)[..|r.errors|]
  {
  }

  /** Every record is valid exactly when nothing is reported invalid. */
  lemma AllValidIff(records: seq<Value>, validate: Validator)
    ensures Validation(records, validate).invalid == 0 <==> forall i :: 0 <= i < |records| ==> validate(records[i]).Ok?
  {
    if Validation(records, validate).invalid == 0 {
      forall i | 0 <= i < |records| ensures validate(records[i]).Ok? {
        if validate(records[i]).Err? {
          FailuresComplete(records, validate, i);
        }
      }
    } else {
      var f := Failures(records, validate);
      assert validate(records[f[0].0]).Err?;
    }
  }

  /** `validate_records`: one pass counting valid and invalid records and listing the first failures. */
  method ValidateRecords(records: seq<Value>, validate: Validator) returns (r: Report)
    ensures r == Validation(records, validate)
  {
    var valid := 0;
    var invalid := 0;
    var errors: seq<(nat, seq<string>)> := [];
    for i := 0 to |records|
      invariant valid + invalid == i
      invariant invalid == |Failures(records[..i], validate)|
      invariant errors == Failures(records[..i], validate)[..Min(invalid, MaxListed)]
    {
      assert records[..i + 1][..i] == records[..i];
      match validate(records[i]) {
        case Ok(_) =>
          valid := valid + 1;
        case Err(messages) =>
          invalid := invalid + 1;
          if |errors| < MaxListed {
            errors := errors + [(i, messages)];
          }
      }
    }
    assert records[..|records|] == records;
    r := Report(valid, invalid, errors);
  }

  /** The report of a trial: everything valid when validation is skipped. */
  function Verdict(records: seq<Value>, skipValidation: bool, validate: Validator): Report {
    if skipValidation then Report(|records|, 0, []) else Validation(records, validate)
  }

  // ---------------------------------------------------------------------------
  // try_matrix
  // ---------------------------------------------------------------------------

  /** A matrix tried on the records: the matrix, its template id, the execution and the report. */
  datatype Trial = Trial(matrix: TransformationMatrix, templateId: Option<string>, result: TransformResult, report: Report)

  /** A trial with a template id names a stored entry holding the matrix it tried. */
  ghost predicate UsesStored(t: Trial, ms: map<string, Registry.StoredMatrix>) {
    t.templateId.Some? ==> t.templateId.value in ms && ms[t.templateId.value].matrix == t.matrix
  }

  /** `t` is the trial of `m` under template id `id` on `rows`. */
  ghost predicate Tried(t: Trial, rows: seq<Value>, m: TransformationMatrix, id: Option<string>,
                        skipValidation: bool, validate: Validator) {
    && t.matrix == m && t.templateId == id
    && t.result.IsOk()
    && t.result.records == RecordsOf(Resolutions(rows, m))
    && SkipsReported(t.result.skipped, Resolutions(rows, m))
    && t.report == Verdict(t.result.records, skipValidation, validate)
  }

  /** The trial of `m` yields at least one valid record. */
  ghost predicate Works(rows: seq<Value>, m: TransformationMatrix, options: TransformOptions, validate: Validator) {
    Verdict(RecordsOf(Resolutions(rows, m)), options.skipValidation, validate).valid > 0
  }

  /**
   * `try_matrix`: execute the matrix on every row, then validate the
   * records unless validation is skipped, in which case all count as valid.
   */
  method TryMatrix(rows: seq<Value>, m: TransformationMatrix, id: Option<string>,
                   options: TransformOptions, validate: Validator) returns (t: Trial)
    ensures Tried(t, rows, m, id, options.skipValidation, validate)
  {
    var result := Execute(rows, m);
    var report: Report;
    if options.skipValidation {
      report := Report(|result.records|, 0, []);
    } else {
      report := ValidateRecords(result.records, validate);
    }
    t := Trial(m, id, result, report);
  }

  /** With validation skipped every record is valid and none is listed. */
  lemma SkippedValidationAllValid(records: seq<Value>, validate: Validator)
    ensures Verdict(records, true, validate) == Report(|records|, 0, [])
    ensures Verdict(records, false, validate).valid <= |records|
  {
    ValidationFacts(records, validate);
  }

  // ---------------------------------------------------------------------------
  // get_matrix_with_fallback
  // ---------------------------------------------------------------------------

  /** The registry after trying `tried` in order, one recorded use each, a success when the trial works. */
  ghost function AfterTrials(ms: map<string, Registry.StoredMatrix>, tried: seq<Registry.Candidate>, rows: seq<Value>,
                             options: TransformOptions, validate: Validator, now: string): map<string, Registry.StoredMatrix>
    decreases |tried|
  {
    if tried == [] then ms
    else
      var last := tried[|tried| - 1];
      Registry.StatsUpdated(AfterTrials(ms, tried[..|tried| - 1], rows, options, validate, now),
        last.0.id, Works(rows, last.0.matrix, options, validate), now)
  }

  /** Recorded uses add and remove no entry and change no stored matrix. */
  lemma {:induction false} AfterTrialsKeepsMatrices(ms: map<string, Registry.StoredMatrix>, tried: seq<Registry.Candidate>,
                                                    rows: seq<Value>, options: TransformOptions, validate: Validator, now: string)
    ensures AfterTrials(ms, tried, rows, options, validate, now).Keys == ms.Keys
    ensures forall k :: k in ms ==>
      AfterTrials(ms, tried, rows, options, validate, now)[k].matrix == ms[k].matrix
      && AfterTrials(ms, tried, rows, options, validate, now)[k].id == ms[k].id
    decreases |tried|
  {
    if tried != [] {
      AfterTrialsKeepsMatrices(ms, tried[..|tried| - 1], rows, options, validate, now);
    }
  }

  /** The preview given to the generator: the first min(preview rows, record count) records. */
  function Preview(rows: seq<Value>, previewRows: nat): (r: seq<Value>)
    ensures |r| == Min(previewRows, |rows|)
    ensures forall i :: 0 <= i < |r| ==> r[i] == rows[i]
  {
    rows[..Min(previewRows, |rows|)]
  }

  /** The name a generated matrix is saved under: the source file's stem, else "auto-generated". */
  function SaveName(fileStem: Option<string>): string {
    fileStem.GetOr("auto-generated")
  }

  /** The generator: from the preview and all records, a matrix or a failure. */
  type Generator = (seq<Value>, seq<Value>) -> Result<TransformationMatrix, Ai.AiError>

  /**
   * The outcome of the generator fallback, from registry `before` to
   * registry `after`: a generator failure is returned and changes nothing;
   * otherwise the generated matrix is saved unless saving is disabled or
   * fails, its trial is returned whether it works or not, and only a saved
   * matrix gets one recorded use.
   */
  ghost predicate GeneratedOutcome(r: Result<Trial, PipelineError>,
                                   before: map<string, Registry.StoredMatrix>, after: map<string, Registry.StoredMatrix>,
                                   rows: seq<Value>, headers: seq<string>, options: TransformOptions,
                                   fileStem: Option<string>, validate: Validator, generate: Generator,
                                   ioFailure: Option<string>, now: string, millis: int) {
    var g := generate(Preview(rows, options.previewRows), rows);
    && (g.Err? ==> r == Err(AiError(g.error)) && after == before)
    && (g.Ok? ==>
          var saved := !options.noSave && ioFailure.None?;
          var id := Registry.GenerateId(SaveName(fileStem), millis);
          && r.Ok?
          && Tried(r.value, rows, g.value, if saved then Some(id) else None, options.skipValidation, validate)
          && (saved ==> after == Registry.StatsUpdated(
                before[id := Registry.StoredMatrix(id, SaveName(fileStem), g.value, headers, now, None, 1.0, 0)],
                id, Works(rows, g.value, options, validate), now))
          && (!saved ==> after == before))
  }

  /** The generator fallback of `get_matrix_with_fallback`. */
  method Generate(registry: Registry.MatrixRegistry, rows: seq<Value>, headers: seq<string>, options: TransformOptions,
                  fileStem: Option<string>, validate: Validator, generate: Generator,
                  ioFailure: Option<string>, now: string, millis: int) returns (r: Result<Trial, PipelineError>)
    requires registry.Valid()
    modifies registry
    ensures registry.Valid()
    ensures GeneratedOutcome(r, old(registry.matrices), registry.matrices, rows, headers, options,
                             fileStem, validate, generate, ioFailure, now, millis)
    ensures r.Ok? ==> UsesStored(r.value, registry.matrices)
  {
    var preview := Preview(rows, options.previewRows);
    var generated := generate(preview, rows);
    if generated.Err? {
      return Err(AiError(generated.error));
    }
    var matrix := generated.value;
    var id: Option<string> := None;
    if !options.noSave {
      var saved := registry.Save(matrix, SaveName(fileStem), headers, ioFailure, now, millis);
      id := if saved.Ok? then Some(saved.value) else None;
    }
    var trial := TryMatrix(rows, matrix, id, options, validate);
    if id.Some? {
      registry.UpdateStats(id.value, trial.report.valid > 0, now);
    }
    r := Ok(trial);
  }

  /** How the matrix of a run was chosen. */
  datatype Route =
    | Explicit
    | Cached(ranked: seq<Registry.Candidate>, index: nat)
    | Generated(ranked: seq<Registry.Candidate>)

  /**
   * The cached-template loop: the compatible templates in rank order, each
   * tried once and recorded as used (a success when its trial works),
   * stopping at the first that works.
   */
  method TryCached(registry: Registry.MatrixRegistry, rows: seq<Value>, headers: seq<string>,
                   options: TransformOptions, validate: Validator, now: string)
      returns (hit: Option<Trial>, ghost ranked: seq<Registry.Candidate>, ghost i: nat)
    requires registry.Valid()
    modifies registry
    ensures registry.Valid()
    ensures Registry.Ranked(ranked, old(registry.matrices), headers)
    ensures i <= |ranked|
    ensures forall k :: 0 <= k < i ==> !Works(rows, ranked[k].0.matrix, options, validate)
    ensures hit.Some? ==> (
      && i < |ranked| && Works(rows, ranked[i].0.matrix, options, validate)
      && Tried(hit.value, rows, ranked[i].0.matrix, Some(ranked[i].0.id), options.skipValidation, validate)
      && UsesStored(hit.value, registry.matrices)
      && registry.matrices == AfterTrials(old(registry.matrices), ranked[..i + 1], rows, options, validate, now))
    ensures hit.None? ==> (
      && i == |ranked|
      && registry.matrices == AfterTrials(old(registry.matrices), ranked, rows, options, validate, now))
  {
    var compatible := registry.FindCompatible(headers);
    ranked := compatible;
    hit, i := TryInOrder(registry, compatible, rows, options, validate, now);
    if hit.Some? {
      HitUsesStored(old(registry.matrices), compatible, i, hit.value, rows, options, validate, now, headers);
    }
  }

  /**
   * The loop of `try_cached_matrices`: the templates tried one after the
   * other, each use recorded, until one works.
   */
  method TryInOrder(registry: Registry.MatrixRegistry, compatible: seq<Registry.Candidate>, rows: seq<Value>,
                    options: TransformOptions, validate: Validator, now: string)
      returns (hit: Option<Trial>, i: nat)
    requires registry.Valid()
    modifies registry
    ensures registry.Valid()
    ensures i <= |compatible|
    ensures forall k :: 0 <= k < i ==> !Works(rows, compatible[k].0.matrix, options, validate)
    ensures hit.Some? ==> (
      && i < |compatible| && Works(rows, compatible[i].0.matrix, options, validate)
      && Tried(hit.value, rows, compatible[i].0.matrix, Some(compatible[i].0.id), options.skipValidation, validate)
      && registry.matrices == AfterTrials(old(registry.matrices), compatible[..i + 1], rows, options, validate, now))
    ensures hit.None? ==> (
      && i == |compatible|
      && registry.matrices == AfterTrials(old(registry.matrices), compatible, rows, options, validate, now))
  {
    ghost var before := registry.matrices;
    hit := None;
    var j := 0;
    while j < |compatible|
      invariant 0 <= j <= |compatible|
      invariant registry.Valid()
      invariant forall k :: 0 <= k < j ==> !Works(rows, compatible[k].0.matrix, options, validate)
      invariant registry.matrices == AfterTrials(before, compatible[..j], rows, options, validate, now)
    {
      var trial, success := TryTemplate(registry, rows, compatible[j], options, validate, now);
      AfterTrialsStep(before, compatible, j, rows, options, validate, now);
      if success {
        hit, i := Some(trial), j;
        return;
      }
      forall k | 0 <= k < j + 1 ensures !Works(rows, compatible[k].0.matrix, options, validate) {
        if k == j {
          assert !success;
        }
      }
      j := j + 1;
    }
    assert compatible[..j] == compatible;
    i := j;
  }

  /** One template tried on the records, its use recorded with the trial's success. */
  method TryTemplate(registry: Registry.MatrixRegistry, rows: seq<Value>, c: Registry.Candidate,
                     options: TransformOptions, validate: Validator, now: string)
      returns (trial: Trial, success: bool)
    requires registry.Valid()
    modifies registry
    ensures registry.Valid()
    ensures Tried(trial, rows, c.0.matrix, Some(c.0.id), options.skipValidation, validate)
    ensures success == Works(rows, c.0.matrix, options, validate)
    ensures registry.matrices == Registry.StatsUpdated(old(registry.matrices), c.0.id, success, now)
  {
    trial := TryMatrix(rows, c.0.matrix, Some(c.0.id), options, validate);
    success := trial.report.valid > 0;
    registry.UpdateStats(c.0.id, success, now);
  }

  /** The trial of a ranked template names a stored entry that still holds its matrix after the recorded uses. */
  lemma HitUsesStored(ms: map<string, Registry.StoredMatrix>, ranked: seq<Registry.Candidate>, j: nat, t: Trial,
                      rows: seq<Value>, options: TransformOptions, validate: Validator, now: string, headers: seq<string>)
    requires Registry.Ranked(ranked, ms, headers)
    requires j < |ranked|
    requires t.templateId == Some(ranked[j].0.id) && t.matrix == ranked[j].0.matrix
    ensures UsesStored(t, AfterTrials(ms, ranked[..j + 1], rows, options, validate, now))
  {
    AfterTrialsKeepsMatrices(ms, ranked[..j + 1], rows, options, validate, now);
    assert ranked[j].0.id in ms && ms[ranked[j].0.id] == ranked[j].0;
  }

  /** Trying the `j`-th template extends the recorded uses by that one. */
  lemma AfterTrialsStep(ms: map<string, Registry.StoredMatrix>, tried: seq<Registry.Candidate>, j: nat,
                        rows: seq<Value>, options: TransformOptions, validate: Validator, now: string)
    requires j < |tried|
    ensures AfterTrials(ms, tried[..j + 1], rows, options, validate, now)
         == Registry.StatsUpdated(AfterTrials(ms, tried[..j], rows, options, validate, now),
                                  tried[j].0.id, Works(rows, tried[j].0.matrix, options, validate), now)
  {
    assert tried[..j + 1][..j] == tried[..j];
  }

  /**
   * The outcome of `get_matrix_with_fallback` from registry `before` to
   * registry `after`. An explicit matrix is the only one tried, without
   * template id, and neither the cache nor the generator is used. Otherwise,
   * unless caching is off, the compatible templates are tried in rank order
   * and the first that works is returned; when caching is off or none works,
   * the generator fallback decides. Whatever the route, an answer is the
   * trial of the matrix it names, and a template id in it names a stored
   * entry holding that matrix.
   */
  ghost predicate FallbackOutcome(r: Result<Trial, PipelineError>, route: Route,
                                  before: map<string, Registry.StoredMatrix>, after: map<string, Registry.StoredMatrix>,
                                  rows: seq<Value>, headers: seq<string>, options: TransformOptions,
                                  fileStem: Option<string>, validate: Validator,
                                  explicit: Result<TransformationMatrix, PipelineError>, generate: Generator,
                                  ioFailure: Option<string>, now: string, millis: int) {
    && (options.matrixPath.Some? <==> route.Explicit?)
    && (route.Explicit? ==> (
         && after == before
         && (explicit.Err? ==> r == Err(explicit.error))
         && (explicit.Ok? ==> r.Ok? && Tried(r.value, rows, explicit.value, None, options.skipValidation, validate))))
    && (route.Cached? ==> (
         && !options.noCache
         && Registry.Ranked(route.ranked, before, headers)
         && route.index < |route.ranked|
         && (forall k :: 0 <= k < route.index ==> !Works(rows, route.ranked[k].0.matrix, options, validate))
         && Works(rows, route.ranked[route.index].0.matrix, options, validate)
         && r.Ok? && r.value.matrix == route.ranked[route.index].0.matrix
         && r.value.templateId == Some(route.ranked[route.index].0.id)
         && after == AfterTrials(before, route.ranked[..route.index + 1], rows, options, validate, now)))
    && (route.Generated? ==> (
         && (options.noCache ==> route.ranked == [])
         && (!options.noCache ==> Registry.Ranked(route.ranked, before, headers))
         && (forall k :: 0 <= k < |route.ranked| ==> !Works(rows, route.ranked[k].0.matrix, options, validate))
         && GeneratedOutcome(r, AfterTrials(before, route.ranked, rows, options, validate, now),
                             after, rows, headers, options, fileStem, validate, generate, ioFailure, now, millis)))
    && (r.Ok? ==> Tried(r.value, rows, r.value.matrix, r.value.templateId, options.skipValidation, validate))
    && (r.Ok? ==> UsesStored(r.value, after))
  }

  /** `get_matrix_with_fallback`, as `FallbackOutcome` states it. */
  method GetMatrixWithFallback(registry: Registry.MatrixRegistry, rows: seq<Value>, headers: seq<string>,
                               options: TransformOptions, fileStem: Option<string>, validate: Validator,
                               explicit: Result<TransformationMatrix, PipelineError>, generate: Generator,
                               ioFailure: Option<string>, now: string, millis: int)
      returns (r: Result<Trial, PipelineError>, ghost route: Route)
    requires registry.Valid()
    modifies registry
    ensures registry.Valid()
    ensures FallbackOutcome(r, route, old(registry.matrices), registry.matrices, rows, headers, options,
                            fileStem, validate, explicit, generate, ioFailure, now, millis)
  {
    if options.matrixPath.Some? {
      route := Explicit;
      if explicit.Err? {
        return Err(explicit.error), route;
      }
      var trial := TryMatrix(rows, explicit.value, None, options, validate);
      return Ok(trial), route;
    }
    r, route := Fallback(registry, rows, headers, options, fileStem, validate, explicit, generate, ioFailure, now, millis);
  }

  /** Without an explicit matrix: the cached templates, then the generator. */
  method Fallback(registry: Registry.MatrixRegistry, rows: seq<Value>, headers: seq<string>,
                  options: TransformOptions, fileStem: Option<string>, validate: Validator,
                  explicit: Result<TransformationMatrix, PipelineError>, generate: Generator,
                  ioFailure: Option<string>, now: string, millis: int)
      returns (r: Result<Trial, PipelineError>, ghost route: Route)
    requires registry.Valid() && options.matrixPath.None?
    modifies registry
    ensures registry.Valid()
    ensures FallbackOutcome(r, route, old(registry.matrices), registry.matrices, rows, headers, options,
                            fileStem, validate, explicit, generate, ioFailure, now, millis)
  {
    if options.noCache {
      r, route := GenerateFallback(registry, rows, headers, options, fileStem, validate, explicit, generate,
                                   ioFailure, now, millis, registry.matrices, []);
      return;
    }
    var hit;
    ghost var ranked, i;
    hit, ranked, i := TryCached(registry, rows, headers, options, validate, now);
    if hit.Some? {
      CachedOutcome(hit.value, ranked, i, ranked[..i + 1], old(registry.matrices), registry.matrices, rows, headers, options,
                    fileStem, validate, explicit, generate, ioFailure, now, millis);
      return Ok(hit.value), Cached(ranked, i);
    }
    r, route := GenerateFallback(registry, rows, headers, options, fileStem, validate, explicit, generate,
                                 ioFailure, now, millis, old(registry.matrices), ranked);
  }

  /** A template that works, the `i`-th of `ranked`, ends the fallback on the `Cached` route. */
  lemma CachedOutcome(t: Trial, ranked: seq<Registry.Candidate>, i: nat, tried: seq<Registry.Candidate>,
                      before: map<string, Registry.StoredMatrix>, after: map<string, Registry.StoredMatrix>,
                      rows: seq<Value>, headers: seq<string>, options: TransformOptions,
                      fileStem: Option<string>, validate: Validator,
                      explicit: Result<TransformationMatrix, PipelineError>, generate: Generator,
                      ioFailure: Option<string>, now: string, millis: int)
    requires options.matrixPath.None? && !options.noCache
    requires Registry.Ranked(ranked, before, headers) && i < |ranked|
    requires forall k :: 0 <= k < i ==> !Works(rows, ranked[k].0.matrix, options, validate)
    requires Works(rows, ranked[i].0.matrix, options, validate)
    requires Tried(t, rows, ranked[i].0.matrix, Some(ranked[i].0.id), options.skipValidation, validate)
    requires UsesStored(t, after)
    requires tried == ranked[..i + 1]
    requires after == AfterTrials(before, tried, rows, options, validate, now)
    ensures FallbackOutcome(Ok(t), Cached(ranked, i), before, after, rows, headers, options,
                            fileStem, validate, explicit, generate, ioFailure, now, millis)
  {
  }

  /** The generator fallback once the templates `ranked` have all been tried without success. */
  method GenerateFallback(registry: Registry.MatrixRegistry, rows: seq<Value>, headers: seq<string>,
                          options: TransformOptions, fileStem: Option<string>, validate: Validator,
                          explicit: Result<TransformationMatrix, PipelineError>, generate: Generator,
                          ioFailure: Option<string>, now: string, millis: int,
                          ghost before: map<string, Registry.StoredMatrix>, ghost ranked: seq<Registry.Candidate>)
      returns (r: Result<Trial, PipelineError>, ghost route: Route)
    requires registry.Valid() && options.matrixPath.None?
    requires options.noCache ==> ranked == []
    requires !options.noCache ==> Registry.Ranked(ranked, before, headers)
    requires forall k :: 0 <= k < |ranked| ==> !Works(rows, ranked[k].0.matrix, options, validate)
    requires registry.matrices == AfterTrials(before, ranked, rows, options, validate, now)
    modifies registry
    ensures registry.Valid()
    ensures route == Generated(ranked)
    ensures FallbackOutcome(r, route, before, registry.matrices, rows, headers, options,
                            fileStem, validate, explicit, generate, ioFailure, now, millis)
  {
    route := Generated(ranked);
    r := Generate(registry, rows, headers, options, fileStem, validate, generate, ioFailure, now, millis);
  }

  // ---------------------------------------------------------------------------
  // transform_parsed and transform_with_matrix
  // ---------------------------------------------------------------------------

  /** Where the records came from. */
  datatype CsvInfo = CsvInfo(encoding: string, delimiter: char, headers: seq<string>, rowCount: nat)

  /** A run's answer. */
  datatype PipelineResult = PipelineResult(
    flat: seq<Value>,
    grouped: seq<Value>,
    validCount: nat,
    invalidCount: nat,
    validationErrors: seq<(nat, seq<string>)>,
    matrix: TransformationMatrix,
    templateId: Option<string>,
    csvInfo: CsvInfo)

  /** A run's answer carries trial `t`: its matrix, template id, records and report. */
  ghost predicate TrialResult(p: PipelineResult, t: Trial) {
    && p.matrix == t.matrix
    && p.templateId == t.templateId
    && p.flat == t.result.records
    && Report(p.validCount, p.invalidCount, p.validationErrors) == t.report
  }

  /** `grouped` holds one work per ISWC of `flat`, each once. */
  ghost predicate GroupsOf(grouped: seq<Value>, flat: seq<Value>) {
    && |grouped| == |Grouper.Iswcs(flat)|
    && (forall k :: k in Grouper.Iswcs(flat) ==> Grouper.WorkOf(flat, k) in grouped)
    && (forall w :: w in grouped ==> exists k :: k in Grouper.Iswcs(flat) && w == Grouper.WorkOf(flat, k))
  }

  /**
   * `transform_parsed`: an empty table is refused before any matrix is
   * chosen; otherwise `chosen` is the outcome of `get_matrix_with_fallback`
   * along `route`, its error is the run's error, and its trial gives the
   * records, their grouping by ISWC, the report and the CSV facts.
   */
  method TransformParsed(registry: Registry.MatrixRegistry, parsed: Parser.ParseResult, options: TransformOptions,
                         fileStem: Option<string>, validate: Validator,
                         explicit: Result<TransformationMatrix, PipelineError>, generate: Generator,
                         ioFailure: Option<string>, now: string, millis: int)
      returns (r: Result<PipelineResult, PipelineError>, ghost chosen: Result<Trial, PipelineError>, ghost route: Route)
    requires registry.Valid()
    modifies registry
    ensures registry.Valid()
    ensures parsed.records == [] ==> r == Err(MatrixError("CSV file is empty")) && registry.matrices == old(registry.matrices)
    ensures parsed.records != [] ==>
      FallbackOutcome(chosen, route, old(registry.matrices), registry.matrices, parsed.records, parsed.headers,
                      options, fileStem, validate, explicit, generate, ioFailure, now, millis)
    ensures parsed.records != [] ==> (chosen.Err? <==> r.Err?) && (chosen.Err? ==> r.error == chosen.error)
    ensures parsed.records != [] && r.Ok? ==> TrialResult(r.value, chosen.value)
    ensures r.Ok? ==> r.value.csvInfo == CsvInfo(parsed.encoding, parsed.delimiter, parsed.headers, |parsed.records|)
    ensures r.Ok? ==> (
      && r.value.flat == RecordsOf(Resolutions(parsed.records, r.value.matrix))
      && GroupsOf(r.value.grouped, r.value.flat)
      && Report(r.value.validCount, r.value.invalidCount, r.value.validationErrors)
         == Verdict(r.value.flat, options.skipValidation, validate))
    ensures r.Ok? && r.value.templateId.Some? ==> (
      && r.value.templateId.value in registry.matrices
      && registry.matrices[r.value.templateId.value].matrix == r.value.matrix)
    ensures r.Ok? && options.matrixPath.Some? ==> r.value.templateId.None? && explicit == Ok(r.value.matrix)
  {
    var info := CsvInfo(parsed.encoding, parsed.delimiter, parsed.headers, |parsed.records|);
    if |parsed.records| == 0 {
      return Err(MatrixError("CSV file is empty")), Err(MatrixError("CSV file is empty")), Explicit;
    }
    var outcome;
    outcome, route := GetMatrixWithFallback(registry, parsed.records, parsed.headers, options, fileStem, validate,
                                            explicit, generate, ioFailure, now, millis);
    chosen := outcome;
    if outcome.Err? {
      return Err(outcome.error), chosen, route;
    }
    var trial := outcome.value;
    var grouped := Grouper.FlatToGrouped(trial.result.records);
    r := Ok(PipelineResult(trial.result.records, grouped, trial.report.valid, trial.report.invalid,
                           trial.report.errors, trial.matrix, trial.templateId, info));
  }

  /** `transform_records`: records already in hand, read as UTF-8 with ','. */
  method TransformRecords(registry: Registry.MatrixRegistry, records: seq<Value>, headers: seq<string>,
                          options: TransformOptions, validate: Validator,
                          explicit: Result<TransformationMatrix, PipelineError>, generate: Generator,
                          ioFailure: Option<string>, now: string, millis: int)
      returns (r: Result<PipelineResult, PipelineError>, ghost chosen: Result<Trial, PipelineError>, ghost route: Route)
    requires registry.Valid()
    modifies registry
    ensures registry.Valid()
    ensures records == [] ==> r == Err(MatrixError("CSV file is empty")) && registry.matrices == old(registry.matrices)
    ensures records != [] ==>
      FallbackOutcome(chosen, route, old(registry.matrices), registry.matrices, records, headers,
                      options, None, validate, explicit, generate, ioFailure, now, millis)
    ensures records != [] ==> (chosen.Err? <==> r.Err?) && (chosen.Err? ==> r.error == chosen.error)
    ensures records != [] && r.Ok? ==> TrialResult(r.value, chosen.value)
    ensures r.Ok? ==> r.value.csvInfo == CsvInfo("utf-8", ',', headers, |records|)
    ensures r.Ok? ==> (
      && r.value.flat == RecordsOf(Resolutions(records, r.value.matrix))
      && GroupsOf(r.value.grouped, r.value.flat)
      && Report(r.value.validCount, r.value.invalidCount, r.value.validationErrors)
         == Verdict(r.value.flat, options.skipValidation, validate))
    ensures r.Ok? && r.value.templateId.Some? ==> (
      && r.value.templateId.value in registry.matrices
      && registry.matrices[r.value.templateId.value].matrix == r.value.matrix)
    ensures r.Ok? && options.matrixPath.Some? ==> r.value.templateId.None? && explicit == Ok(r.value.matrix)
  {
    r, chosen, route := TransformParsed(registry, Parser.ParseResult(records, "utf-8", ',', headers), options, None, validate,
                         explicit, generate, ioFailure, now, millis);
  }

  /** The answer of `transform_with_matrix`. */
  datatype TransformWithMatrixResult = TransformWithMatrixResult(
    flat: seq<Value>,
    grouped: seq<Value>,
    validCount: nat,
    invalidCount: nat,
    validationErrors: seq<(nat, seq<string>)>,
    skipped: nat,
    errors: nat)

  /**
   * `transform_with_matrix`: one matrix, no cache and no generator; the
   * records, their grouping, the report (everything valid when not
   * validating), the number of skipped pairs and no errors.
   */
  method TransformWithMatrix(records: seq<Value>, m: TransformationMatrix, validateRecords: bool, validate: Validator)
      returns (r: TransformWithMatrixResult)
    ensures r.flat == RecordsOf(Resolutions(records, m))
    ensures GroupsOf(r.grouped, r.flat)
    ensures Report(r.validCount, r.invalidCount, r.validationErrors) == Verdict(r.flat, !validateRecords, validate)
    ensures r.skipped == |SkipsOf(Resolutions(records, m))|
    ensures r.errors == 0
  {
    var result := Execute(records, m);
    var report: Report;
    if validateRecords {
      report := ValidateRecords(result.records, validate);
    } else {
      report := Report(|result.records|, 0, []);
    }
    var grouped := Grouper.FlatToGrouped(result.records);
    r := TransformWithMatrixResult(result.records, grouped, report.valid, report.invalid, report.errors,
                                   |result.skipped|, |result.errors|);
  }

  // ---------------------------------------------------------------------------
  // format_delimiter
  // ---------------------------------------------------------------------------

  /** `format_delimiter`: the display form of a delimiter. */
  function FormatDelimiter(d: char): (r: string)
    ensures d in Parser.Separators <==> r != "?"
    ensures d == '\t' <==> r == "TAB"
  {
    match d
    case ';' => ";"
    case ',' => ","
    case '\t' => "TAB"
    case '|' => "|"
    case _ => "?"
  }

  /** Each detectable delimiter has its own display form. */
  lemma FormatDelimiterDistinguishes(d: char, e: char)
    ensures d in Parser.Separators && e in Parser.Separators && d != e ==> FormatDelimiter(d) != FormatDelimiter(e)
  {
  }
}
