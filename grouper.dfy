/**
 * The grouper: folds flat records (one per creator) into one work per ISWC.
 * The first record of an ISWC seeds the work's scalar fields; every record
 * of that ISWC may add one creator.
 */
module Grouper {
  import opened Wrappers
  import opened Json

  /** The ISWC of a flat record, when it has a string one. */
  function IswcOf(row: Value): Option<string> {
    StrField(row, "iswc")
  }

  // ---------------------------------------------------------------------------
  // Creators
  // ---------------------------------------------------------------------------

  /** The creator identifier in the SDK's tagged form. */
  function CreatorId(ipi: Option<int>, isni: Option<string>): (r: Option<Value>)
    ensures r.None? <==> ipi.None? && isni.None?
    ensures r.Some? ==> r.value.Obj? && "type" in r.value.fields && "value" in r.value.fields
    ensures ipi.Some? && isni.Some? ==> (r.value.fields["type"] == Str("Both")
      && r.value.fields["value"] == Obj(map["ipi" := Num(ipi.value), "isni" := Str(isni.value)]))
    ensures ipi.Some? && isni.None? ==> r.value.fields["type"] == Str("Ipi") && r.value.fields["value"] == Num(ipi.value)
    ensures ipi.None? && isni.Some? ==> r.value.fields["type"] == Str("Isni") && r.value.fields["value"] == Str(isni.value)
  {
    match (ipi, isni)
    case (Some(i), Some(s)) => Some(Obj(map["type" := Str("Both"), "value" := Obj(map["ipi" := Num(i), "isni" := Str(s)])]))
    case (Some(i), None) => Some(Obj(map["type" := Str("Ipi"), "value" := Num(i)]))
    case (None, Some(s)) => Some(Obj(map["type" := Str("Isni"), "value" := Str(s)]))
    case (None, None) => None
  }

  /**
   * The creator entry a record contributes: present exactly when the record
   * has a string role and an integer IPI or a string ISNI.
   */
  function CreatorEntry(row: Value): (r: Option<Value>)
    ensures r.Some? <==> (StrField(row, "creatorRole").Some?
      && (AsI64(Get(row, "creatorIpi")).Some? || StrField(row, "creatorIsni").Some?))
    ensures r.Some? ==> r.value == Obj(map[
      "id" := CreatorId(AsI64(Get(row, "creatorIpi")), StrField(row, "creatorIsni")).value,
      "role" := Str(StrField(row, "creatorRole").value)])
  {
    var ipi := AsI64(Get(row, "creatorIpi"));
    var isni := StrField(row, "creatorIsni");
    match StrField(row, "creatorRole")
    case None => None
    case Some(role) =>
      match CreatorId(ipi, isni)
      case None => None
      case Some(id) => Some(Obj(map["id" := id, "role" := Str(role)]))
  }

  // ---------------------------------------------------------------------------
  // The work header and `build`
  // ---------------------------------------------------------------------------

  /** The scalar fields a work takes from its seeding record. */
  datatype Header = Header(
    iswc: string,
    title: string,
    creationYear: Option<int>,
    instrumental: Option<bool>,
    language: Option<string>,
    bpm: Option<int>,
    key: Option<string>,
    workType: Option<string>,
    opus: Option<string>,
    catalogNumber: Option<string>,
    numberOfVoices: Option<int>)
  {
    predicate HasClassicalInfo() {
      opus.Some? || catalogNumber.Some? || numberOfVoices.Some?
    }
  }

  /** What `WorkBuilder::new` reads from a record: text fields as strings, numbers as 64-bit integers. */
  function HeaderOf(row: Value): Header {
    Header(
      StrField(row, "iswc").GetOr(""),
      StrField(row, "title").GetOr(""),
      AsI64(Get(row, "creationYear")),
      AsBool(Get(row, "instrumental")),
      StrField(row, "language"),
      AsI64(Get(row, "bpm")),
      StrField(row, "key"),
      StrField(row, "workType"),
      StrField(row, "opus"),
      StrField(row, "catalogNumber"),
      AsI64(Get(row, "numberOfVoices")))
  }

  /** The `classicalInfo` object: whichever of the three classical fields are present, with their values. */
  function ClassicalInfo(h: Header): (r: map<string, Value>)
    ensures "opus" in r <==> h.opus.Some?
    ensures "catalogNumber" in r <==> h.catalogNumber.Some?
    ensures "numberOfVoices" in r <==> h.numberOfVoices.Some?
    ensures r == map[] <==> !h.HasClassicalInfo()
    ensures h.opus.Some? ==> r["opus"] == Str(h.opus.value)
    ensures h.catalogNumber.Some? ==> r["catalogNumber"] == Str(h.catalogNumber.value)
    ensures h.numberOfVoices.Some? ==> r["numberOfVoices"] == Num(h.numberOfVoices.value)
    ensures r.Keys <= {"opus", "catalogNumber", "numberOfVoices"}
  {
    var c: map<string, Value> := map[];
    var c := if h.opus.Some? then c["opus" := Str(h.opus.value)] else c;
    var c := if h.catalogNumber.Some? then c["catalogNumber" := Str(h.catalogNumber.value)] else c;
    var c := if h.numberOfVoices.Some? then c["numberOfVoices" := Num(h.numberOfVoices.value)] else c;
    c
  }

  /**
   * The work `build` produces: each optional field that is present,
   * `classicalInfo` when one of its fields is, and the four fields every work
   * has (the keys are distinct, so the order of insertion does not matter).
   */
  function BuildWork(h: Header, creators: seq<Value>): (r: Value)
    ensures r.Obj?
    ensures "iswc" in r.fields && r.fields["iswc"] == Str(h.iswc)
    ensures "title" in r.fields && r.fields["title"] == Str(h.title)
    ensures "creators" in r.fields && r.fields["creators"] == Arr(creators)
    ensures "participants" in r.fields && r.fields["participants"] == Arr([])
    ensures r.fields.Keys <= {"iswc", "title", "creators", "participants", "creationYear", "instrumental",
                              "language", "bpm", "key", "workType", "classicalInfo"}
  {
    var obj: map<string, Value> := map[];
    var obj := if h.creationYear.Some? then obj["creationYear" := Num(h.creationYear.value)] else obj;
    var obj := if h.instrumental.Some? then obj["instrumental" := Bool(h.instrumental.value)] else obj;
    var obj := if h.language.Some? then obj["language" := Str(h.language.value)] else obj;
    var obj := if h.bpm.Some? then obj["bpm" := Num(h.bpm.value)] else obj;
    var obj := if h.key.Some? then obj["key" := Str(h.key.value)] else obj;
    var obj := if h.workType.Some? then obj["workType" := Obj(map["type" := Str(h.workType.value)])] else obj;
    var obj := if h.HasClassicalInfo() then obj["classicalInfo" := Obj(ClassicalInfo(h))] else obj;
    var obj := obj["iswc" := Str(h.iswc)]["title" := Str(h.title)];
    var obj := obj["creators" := Arr(creators)]["participants" := Arr([])];
    Obj(obj)
  }

  /** The keys of a work that share a length still differ. */
  lemma WorkKeysDistinct()
    ensures "creationYear" != "instrumental" && "creationYear" != "participants" && "instrumental" != "participants"
    ensures "language" != "workType" && "language" != "creators" && "workType" != "creators"
    ensures "bpm" != "key"
  {
    assert "creationYear"[0] != "instrumental"[0] && "creationYear"[0] != "participants"[0];
    assert "instrumental"[0] != "participants"[0];
    assert "language"[0] != "workType"[0] && "language"[0] != "creators"[0] && "workType"[0] != "creators"[0];
    assert "bpm"[0] != "key"[0];
  }

  /** An optional field appears exactly when the header has it. */
  lemma BuildWorkOptionalFields(h: Header, creators: seq<Value>)
    ensures "creationYear" in BuildWork(h, creators).fields <==> h.creationYear.Some?
    ensures "instrumental" in BuildWork(h, creators).fields <==> h.instrumental.Some?
  {
    WorkKeysDistinct();
  }

  /** A present `creationYear` holds the header's year as a JSON number. */
  lemma BuildWorkCreationYear(h: Header, creators: seq<Value>)
    ensures h.creationYear.Some? ==> BuildWork(h, creators).fields["creationYear"] == Num(h.creationYear.value)
  {
    WorkKeysDistinct();
  }

  /** A present `instrumental` holds the header's flag as a JSON boolean. */
  lemma BuildWorkInstrumental(h: Header, creators: seq<Value>)
    ensures h.instrumental.Some? ==> BuildWork(h, creators).fields["instrumental"] == Bool(h.instrumental.value)
  {
    WorkKeysDistinct();
  }

  /**
   * `language` and `bpm` are present exactly when given; a present `language`
   * holds the header's text, a present `bpm` its number.
   */
  lemma BuildWorkLanguageBpm(h: Header, creators: seq<Value>)
    ensures "language" in BuildWork(h, creators).fields <==> h.language.Some?
    ensures "bpm" in BuildWork(h, creators).fields <==> h.bpm.Some?
    ensures h.language.Some? ==> BuildWork(h, creators).fields["language"] == Str(h.language.value)
    ensures h.bpm.Some? ==> BuildWork(h, creators).fields["bpm"] == Num(h.bpm.value)
  {
    WorkKeysDistinct();
  }

  /**
   * The remaining optional fields appear exactly when the header has them;
   * `workType` is wrapped as `{"type": v}`.
   */
  lemma BuildWorkOtherOptionalFields(h: Header, creators: seq<Value>)
    ensures "key" in BuildWork(h, creators).fields <==> h.key.Some?
    ensures "workType" in BuildWork(h, creators).fields <==> h.workType.Some?
    ensures "classicalInfo" in BuildWork(h, creators).fields <==> h.HasClassicalInfo()
    ensures h.key.Some? ==> BuildWork(h, creators).fields["key"] == Str(h.key.value)
    ensures h.workType.Some? ==> BuildWork(h, creators).fields["workType"] == Obj(map["type" := Str(h.workType.value)])
    ensures h.HasClassicalInfo() ==> BuildWork(h, creators).fields["classicalInfo"] == Obj(ClassicalInfo(h))
  {
    WorkKeysDistinct();
  }

  /** No field of a work is null. */
  lemma BuildWorkHasNoNull(h: Header, creators: seq<Value>)
    ensures forall k :: k in BuildWork(h, creators).fields ==> BuildWork(h, creators).fields[k] != Null
  {
    WorkKeysDistinct();
  }

  /** Accumulates the creators of one work. */
  class WorkBuilder {
    const iswc: string
    const title: string
    const creationYear: Option<int>
    const instrumental: Option<bool>
    const language: Option<string>
    const bpm: Option<int>
    const key: Option<string>
    const workType: Option<string>
    const opus: Option<string>
    const catalogNumber: Option<string>
    const numberOfVoices: Option<int>
    var creators: seq<Value>

    /** The scalar fields, packed. */
    function Fields(): Header {
      Header(iswc, title, creationYear, instrumental, language, bpm, key, workType, opus, catalogNumber, numberOfVoices)
    }

    /** `WorkBuilder::new`: the scalar fields come from `row`; no creator yet. */
    constructor(row: Value)
      ensures Fields() == HeaderOf(row) && creators == []
    {
      iswc := StrField(row, "iswc").GetOr("");
      title := StrField(row, "title").GetOr("");
      creationYear := AsI64(Get(row, "creationYear"));
      instrumental := AsBool(Get(row, "instrumental"));
      language := StrField(row, "language");
      bpm := AsI64(Get(row, "bpm"));
      key := StrField(row, "key");
      workType := StrField(row, "workType");
      opus := StrField(row, "opus");
      catalogNumber := StrField(row, "catalogNumber");
      numberOfVoices := AsI64(Get(row, "numberOfVoices"));
      creators := [];
    }

    /** `add_creator`: one entry appended when the record names a role and an identifier, else nothing. */
    method AddCreator(row: Value)
      modifies this
      ensures creators == old(creators) + (if CreatorEntry(row).Some? then [CreatorEntry(row).value] else [])
    {
      var ipi := AsI64(Get(row, "creatorIpi"));
      var isni := StrField(row, "creatorIsni");
      var role := StrField(row, "creatorRole");
      if role.Some? {
        var id := CreatorId(ipi, isni);
        if id.None? {
          return;
        }
        creators := creators + [Obj(map["id" := id.value, "role" := Str(role.value)])];
      }
    }

    /** `build`: fills the output object field by field. */
    method Build() returns (r: Value)
      ensures r == BuildWork(Fields(), creators)
    {
      var h := Fields();
      var obj: map<string, Value> := map[];
      obj := if h.creationYear.Some? then obj["creationYear" := Num(h.creationYear.value)] else obj;
      obj := if h.instrumental.Some? then obj["instrumental" := Bool(h.instrumental.value)] else obj;
      obj := if h.language.Some? then obj["language" := Str(h.language.value)] else obj;
      obj := if h.bpm.Some? then obj["bpm" := Num(h.bpm.value)] else obj;
      obj := if h.key.Some? then obj["key" := Str(h.key.value)] else obj;
      obj := if h.workType.Some? then obj["workType" := Obj(map["type" := Str(h.workType.value)])] else obj;
      var classical: map<string, Value> := map[];
      classical := if h.opus.Some? then classical["opus" := Str(h.opus.value)] else classical;
      classical := if h.catalogNumber.Some? then classical["catalogNumber" := Str(h.catalogNumber.value)] else classical;
      classical := if h.numberOfVoices.Some? then classical["numberOfVoices" := Num(h.numberOfVoices.value)] else classical;
      obj := if h.opus.Some? || h.catalogNumber.Some? || h.numberOfVoices.Some? then obj["classicalInfo" := Obj(classical)] else obj;
      obj := obj["iswc" := Str(h.iswc)];
      obj := obj["title" := Str(h.title)];
      obj := obj["creators" := Arr(creators)];
      obj := obj["participants" := Arr([])];
      r := Obj(obj);
    }
  }

  // ---------------------------------------------------------------------------
  // `flat_to_grouped`
  // ---------------------------------------------------------------------------

  /** The ISWCs of the accepted records. */
  function Iswcs(rows: seq<Value>): set<string>
    decreases |rows|
  {
    if rows == [] then {}
    else
      var last := rows[|rows| - 1];
      Iswcs(rows[..|rows| - 1]) + (if IswcOf(last).Some? then {IswcOf(last).value} else {})
  }

  /** The first record with ISWC `k`: the one that seeds its work. */
  function Seed(rows: seq<Value>, k: string): (r: Option<Value>)
    ensures r.Some? <==> k in Iswcs(rows)
    ensures r.Some? ==> IswcOf(r.value) == Some(k)
    decreases |rows|
  {
    if rows == [] then None
    else
      var last := rows[|rows| - 1];
      var s := Seed(rows[..|rows| - 1], k);
      if s.Some? then s
      else if IswcOf(last) == Some(k) then Some(last)
      else None
  }

  /** An ISWC is grouped exactly when some record carries it as a string. */
  lemma {:induction false} IswcsAreRecordIswcs(rows: seq<Value>, k: string)
    ensures k in Iswcs(rows) <==> exists i :: 0 <= i < |rows| && IswcOf(rows[i]) == Some(k)
    decreases |rows|
  {
    if rows != [] {
      var init := rows[..|rows| - 1];
      IswcsAreRecordIswcs(init, k);
      assert forall i :: 0 <= i < |init| ==> init[i] == rows[i];
    }
  }

  /** An ISWC no record carries has no creators. */
  lemma {:induction false} CreatorsOfUnseen(rows: seq<Value>, k: string)
    requires k !in Iswcs(rows)
    ensures CreatorsOf(rows, k) == []
    decreases |rows|
  {
    if rows != [] {
      CreatorsOfUnseen(rows[..|rows| - 1], k);
    }
  }

  /** The seed is the earliest record with the ISWC. */
  lemma {:induction false} SeedIsFirst(rows: seq<Value>, k: string)
    requires k in Iswcs(rows)
    ensures exists i :: (0 <= i < |rows| && rows[i] == Seed(rows, k).value
      && forall j :: 0 <= j < i ==> IswcOf(rows[j]) != Some(k))
    decreases |rows|
  {
    var init := rows[..|rows| - 1];
    assert forall i :: 0 <= i < |init| ==> init[i] == rows[i];
    if Seed(init, k).Some? {
      SeedIsFirst(init, k);
      var i :| 0 <= i < |init| && init[i] == Seed(init, k).value
        && forall j :: 0 <= j < i ==> IswcOf(init[j]) != Some(k);
      assert rows[i] == Seed(rows, k).value;
    } else {
      IswcsAreRecordIswcs(init, k);
      assert rows[|rows| - 1] == Seed(rows, k).value;
    }
  }

  /** The creators of ISWC `k`: each of its records' entries, in record order. */
  function CreatorsOf(rows: seq<Value>, k: string): seq<Value>
    decreases |rows|
  {
    if rows == [] then []
    else
      var last := rows[|rows| - 1];
      CreatorsOf(rows[..|rows| - 1], k)
        + (if IswcOf(last) == Some(k) then EntriesOf(last) else [])
  }

  /** The number of records with ISWC `k`. */
  function RowsWith(rows: seq<Value>, k: string): nat
    decreases |rows|
  {
    if rows == [] then 0
    else RowsWith(rows[..|rows| - 1], k) + (if IswcOf(rows[|rows| - 1]) == Some(k) then 1 else 0)
  }

  /** The work grouped under ISWC `k`. */
  function WorkOf(rows: seq<Value>, k: string): Value
    requires k in Iswcs(rows)
  {
    BuildWork(HeaderOf(Seed(rows, k).value), CreatorsOf(rows, k))
  }

  /** The creator entries one record adds: none or one. */
  function EntriesOf(row: Value): (r: seq<Value>)
    ensures |r| <= 1
    ensures r == [] <==> CreatorEntry(row).None?
  {
    if CreatorEntry(row).Some? then [CreatorEntry(row).value] else []
  }

  /** The state of the grouping map: per ISWC, the seeded scalar fields and the creators so far. */
  type Groups = map<string, (Header, seq<Value>)>

  /** One record folded into the grouping map: a new entry seeded by the record, then its creator. */
  function Absorbed(g: Groups, row: Value): Groups {
    match IswcOf(row)
    case None => g
    case Some(k) =>
      var (h, c) := if k in g then g[k] else (HeaderOf(row), []);
      g[k := (h, c + EntriesOf(row))]
  }

  /** The grouping map after folding all of `rows`. */
  function Grouped(rows: seq<Value>): Groups
    decreases |rows|
  {
    if rows == [] then map[] else Absorbed(Grouped(rows[..|rows| - 1]), rows[|rows| - 1])
  }

  /**
   * The fold groups exactly the ISWCs of the records, seeds each from its
   * first record and collects every creator of that ISWC.
   */
  lemma {:induction false} GroupedIsFirstWins(rows: seq<Value>, k: string)
    ensures k in Grouped(rows) <==> k in Iswcs(rows)
    ensures k in Grouped(rows) ==> Grouped(rows)[k] == (HeaderOf(Seed(rows, k).value), CreatorsOf(rows, k))
    decreases |rows|
  {
    if rows != [] {
      var init := rows[..|rows| - 1];
      var last := rows[|rows| - 1];
      GroupedIsFirstWins(init, k);
      assert Grouped(rows) == Absorbed(Grouped(init), last);
      if IswcOf(last) == Some(k) {
        if k !in Iswcs(init) {
          CreatorsOfUnseen(init, k);
          assert Seed(rows, k) == Some(last);
        }
        assert Grouped(rows)[k].1 == CreatorsOf(init, k) + EntriesOf(last);
      } else if k in Grouped(init) {
        assert Grouped(rows)[k] == Grouped(init)[k];
        assert Seed(rows, k) == Seed(init, k);
        assert CreatorsOf(rows, k) == CreatorsOf(init, k);
      }
    }
  }

  /** A builder per grouped ISWC, holding that entry of the grouping map. */
  ghost predicate Tracks(builders: map<string, WorkBuilder>, g: Groups)
    reads builders.Values
  {
    builders.Keys == g.Keys &&
    forall k :: k in builders ==> builders[k].Fields() == g[k].0 && builders[k].creators == g[k].1
  }

  /** The builders of `builders` are pairwise distinct objects. */
  predicate Distinct(builders: map<string, WorkBuilder>) {
    forall k, k' :: k in builders && k' in builders && k != k' ==> builders[k] != builders[k']
  }

  /** One step of the grouping loop: `entry(iswc).or_insert_with(new)` then `add_creator`. */
  method Absorb(builders: map<string, WorkBuilder>, ghost g: Groups, row: Value)
      returns (next: map<string, WorkBuilder>)
    requires Tracks(builders, g) && Distinct(builders)
    modifies builders.Values
    ensures Tracks(next, Absorbed(g, row)) && Distinct(next)
    ensures forall k :: k in next ==> (k in builders && next[k] == builders[k]) || fresh(next[k])
  {
    next := builders;
    var iswc := IswcOf(row);
    if iswc.Some? {
      var k := iswc.value;
      ghost var seeded := g;
      if k !in next {
        var b := new WorkBuilder(row);
        next := next[k := b];
        seeded := g[k := (HeaderOf(row), [])];
      }
      assert Absorbed(g, row) == seeded[k := (seeded[k].0, seeded[k].1 + EntriesOf(row))];
      AddTo(next, seeded, k, row);
    }
  }

  /** `add_creator` on the builder of `k`: its entry of the grouping map gains the record's creator. */
  method AddTo(builders: map<string, WorkBuilder>, ghost g: Groups, k: string, row: Value)
    requires Tracks(builders, g) && Distinct(builders) && k in builders
    modifies builders[k]
    ensures Tracks(builders, g[k := (g[k].0, g[k].1 + EntriesOf(row))])
  {
    builders[k].AddCreator(row);
  }

  /** The grouping loop of `flat_to_grouped`: one fresh builder per ISWC. */
  method GroupRows(rows: seq<Value>) returns (builders: map<string, WorkBuilder>)
    ensures Tracks(builders, Grouped(rows))
  {
    builders := map[];
    for i := 0 to |rows|
      invariant Tracks(builders, Grouped(rows[..i])) && Distinct(builders)
      invariant forall k :: k in builders ==> fresh(builders[k])
    {
      assert rows[..i + 1][..i] == rows[..i];
      builders := Absorb(builders, Grouped(rows[..i]), rows[i]);
    }
    assert rows[..|rows|] == rows;
  }

  /** The output loop of `flat_to_grouped`: every builder built once, in some order. */
  method BuildAll(builders: map<string, WorkBuilder>) returns (works: seq<Value>, ghost keys: seq<string>)
    ensures |works| == |keys|
    ensures forall k :: k in keys <==> k in builders
    ensures forall i :: 0 <= i < |keys| ==>
      keys[i] in builders && works[i] == BuildWork(builders[keys[i]].Fields(), builders[keys[i]].creators)
    ensures forall i, j :: 0 <= i < j < |keys| ==> keys[i] != keys[j]
  {
    works := [];
    keys := [];
    var todo := builders.Keys;
    while todo != {}
      invariant todo <= builders.Keys
      invariant |works| == |keys|
      invariant forall k :: k in keys <==> k in builders.Keys - todo
      invariant forall i :: 0 <= i < |keys| ==>
        keys[i] in builders && works[i] == BuildWork(builders[keys[i]].Fields(), builders[keys[i]].creators)
      invariant forall i, j :: 0 <= i < j < |keys| ==> keys[i] != keys[j]
      decreases todo
    {
      var k :| k in todo;
      assert k !in keys;
      var w := builders[k].Build();
      works := works + [w];
      keys := keys + [k];
      todo := todo - {k};
    }
  }

  /** `flat_to_grouped`: one work per ISWC of the accepted records, in some order. */
  method FlatToGrouped(rows: seq<Value>) returns (works: seq<Value>)
    ensures |works| == |Iswcs(rows)|
    ensures forall k :: k in Iswcs(rows) ==> WorkOf(rows, k) in works
    ensures forall w :: w in works ==> exists k :: k in Iswcs(rows) && w == WorkOf(rows, k)
    ensures forall i, j :: 0 <= i < j < |works| ==> works[i] != works[j]
  {
    var builders := GroupRows(rows);
    ghost var keys;
    works, keys := BuildAll(builders);
    forall k ensures k in keys <==> k in Iswcs(rows) {
      GroupedIsFirstWins(rows, k);
    }
    forall i | 0 <= i < |keys| ensures keys[i] in Iswcs(rows) && works[i] == WorkOf(rows, keys[i]) {
      GroupedIsFirstWins(rows, keys[i]);
    }
    WorksCoverIswcs(rows, keys, works);
  }

  /** Works built one per ISWC, each once, are exactly the grouped works. */
  lemma WorksCoverIswcs(rows: seq<Value>, keys: seq<string>, works: seq<Value>)
    requires |works| == |keys|
    requires forall k :: k in keys <==> k in Iswcs(rows)
    requires forall i :: 0 <= i < |keys| ==> keys[i] in Iswcs(rows) && works[i] == WorkOf(rows, keys[i])
    requires forall i, j :: 0 <= i < j < |keys| ==> keys[i] != keys[j]
    ensures |works| == |Iswcs(rows)|
    ensures forall k :: k in Iswcs(rows) ==> WorkOf(rows, k) in works
    ensures forall w :: w in works ==> exists k :: k in Iswcs(rows) && w == WorkOf(rows, k)
    ensures forall i, j :: 0 <= i < j < |works| ==> works[i] != works[j]
  {
    DistinctKeysCount(keys, Iswcs(rows));
    WorksOfAllIswcs(rows, keys, works);
    WorksDistinct(rows, keys, works);
  }

  /** Every work is the work of some ISWC, and every ISWC's work is among them. */
  lemma WorksOfAllIswcs(rows: seq<Value>, keys: seq<string>, works: seq<Value>)
    requires |works| == |keys|
    requires forall k :: k in keys <==> k in Iswcs(rows)
    requires forall i :: 0 <= i < |keys| ==> keys[i] in Iswcs(rows) && works[i] == WorkOf(rows, keys[i])
    ensures forall k :: k in Iswcs(rows) ==> WorkOf(rows, k) in works
    ensures forall w :: w in works ==> exists k :: k in Iswcs(rows) && w == WorkOf(rows, k)
  {
    forall k | k in Iswcs(rows) ensures WorkOf(rows, k) in works {
      var i :| 0 <= i < |keys| && keys[i] == k;
      assert works[i] == WorkOf(rows, k);
    }
    forall w | w in works ensures exists k :: k in Iswcs(rows) && w == WorkOf(rows, k) {
      var i :| 0 <= i < |works| && works[i] == w;
      assert keys[i] in Iswcs(rows) && w == WorkOf(rows, keys[i]);
    }
  }

  /** Works of distinct ISWCs differ: each names its own ISWC. */
  lemma WorksDistinct(rows: seq<Value>, keys: seq<string>, works: seq<Value>)
    requires |works| == |keys|
    requires forall i :: 0 <= i < |keys| ==> keys[i] in Iswcs(rows) && works[i] == WorkOf(rows, keys[i])
    requires forall i, j :: 0 <= i < j < |keys| ==> keys[i] != keys[j]
    ensures forall i, j :: 0 <= i < j < |works| ==> works[i] != works[j]
  {
    forall i, j | 0 <= i < j < |works| ensures works[i] != works[j] {
      WorkOfNamesIswc(rows, keys[i]);
      WorkOfNamesIswc(rows, keys[j]);
    }
  }

  /** A duplicate-free sequence over exactly the elements of `s` has `|s|` elements. */
  lemma {:induction false} DistinctKeysCount(keys: seq<string>, s: set<string>)
    requires forall k :: k in keys <==> k in s
    requires forall i, j :: 0 <= i < j < |keys| ==> keys[i] != keys[j]
    ensures |keys| == |s|
    decreases |keys|
  {
    if keys != [] {
      var last := keys[|keys| - 1];
      var init := keys[..|keys| - 1];
      forall k ensures k in init <==> k in s - {last} {
        if k in init {
          var i :| 0 <= i < |init| && init[i] == k;
          assert keys[i] == k;
        }
      }
      DistinctKeysCount(init, s - {last});
    }
  }

  /** A work's "iswc" field is the ISWC it was grouped under. */
  lemma WorkOfNamesIswc(rows: seq<Value>, k: string)
    requires k in Iswcs(rows)
    ensures WorkOf(rows, k).fields["iswc"] == Str(k)
  {
    var seed := Seed(rows, k).value;
    assert StrField(seed, "iswc") == Some(k);
  }

  // ---------------------------------------------------------------------------
  // Properties
  // ---------------------------------------------------------------------------

  /** A record without a string ISWC changes nothing. */
  lemma IgnoredRecord(rows: seq<Value>, row: Value, k: string)
    requires IswcOf(row).None?
    ensures Iswcs(rows + [row]) == Iswcs(rows)
    ensures Seed(rows + [row], k) == Seed(rows, k)
    ensures CreatorsOf(rows + [row], k) == CreatorsOf(rows, k)
  {
    assert (rows + [row])[..|rows|] == rows;
  }

  /** First wins: records after the seed never change a work's scalar fields. */
  lemma {:induction false} FirstWins(rows: seq<Value>, later: seq<Value>, k: string)
    requires k in Iswcs(rows)
    ensures Seed(rows + later, k) == Seed(rows, k)
    decreases |later|
  {
    if later == [] {
      assert rows + later == rows;
    } else {
      var init := later[..|later| - 1];
      FirstWins(rows, init, k);
      assert (rows + later)[..|rows + later| - 1] == rows + init;
    }
  }

  /** A work has at most as many creators as there are records with its ISWC. */
  lemma {:induction false} CreatorsBounded(rows: seq<Value>, k: string)
    ensures |CreatorsOf(rows, k)| <= RowsWith(rows, k)
    decreases |rows|
  {
    if rows != [] {
      CreatorsBounded(rows[..|rows| - 1], k);
    }
  }

  /** Creators accumulate in record order: grouping more records only appends. */
  lemma {:induction false} CreatorsAppend(rows: seq<Value>, later: seq<Value>, k: string)
    ensures CreatorsOf(rows + later, k) == CreatorsOf(rows, k) + CreatorsOf(later, k)
    decreases |later|
  {
    if later == [] {
      assert rows + later == rows;
    } else {
      var init := later[..|later| - 1];
      CreatorsAppend(rows, init, k);
      assert (rows + later)[..|rows + later| - 1] == rows + init;
      assert (rows + later)[|rows + later| - 1] == later[|later| - 1];
    }
  }
}
