/** `exportAbolishedMunicipality`: the two loads and the join chained over
    `Result`, and the run that dispatches one serialisation per output. */
module Export {
  import opened Results
  import opened Text
  import opened CatastaleIndex
  import opened AbolishedJoin

  /** A request to serialise one output record (`serializeMunicipalityToJson`). */
  datatype Dispatch = SerializeToJson(record: SerializableMunicipality)

  /** The data files the exporter reads. */
  datatype DataFile = MunicipalitiesCatastali | AbolishedMunicipalities

  /** What a run did: the files it read, in order, the serialisations it
      dispatched, and the error it reported, if any. */
  datatype Run = Run(filesRead: seq<DataFile>, dispatched: seq<Dispatch>, reported: Option<Error>)

  /** The `map` to `serializeMunicipalityToJson`: one request per record, in order. */
  function DispatchAll(ms: seq<SerializableMunicipality>): (ds: seq<Dispatch>) {
    seq(|ms|, i requires 0 <= i < |ms| => SerializeToJson(ms[i]))
  }

  /** The `chain`/`map` expression of `exportAbolishedMunicipality`, given what
      the CSV parser made of the cadastral file (`csv`) and what the decoder
      made of the abolished-municipalities file (`decoded`). */
  function Pipeline(csv: Result<seq<Row>>, decoded: Result<seq<AbolishedMunicipality>>)
    : (r: Result<seq<Dispatch>>)
    ensures LoadedIndex(csv).Err? ==> r == Err(LoadedIndex(csv).error)
    ensures LoadedIndex(csv).Ok? && decoded.Err? ==> r == Err(decoded.error)
    ensures r.Ok? <==> LoadedIndex(csv).Ok? && decoded.Ok?
    ensures r.Ok? ==>
              var out := JoinAndTransform(LoadedIndex(csv).value, decoded.value);
              && |r.value| == |out|
              && forall i :: 0 <= i < |out| ==> r.value[i].record == out[i]
  {
    LoadedIndex(csv)
      .Chain(index => LoadAbolishedMunicipalities(index, decoded))
      .Map(DispatchAll)
  }

  /** One run of the exporter. A failure of either load is reported and
      nothing is dispatched; otherwise every joined output is dispatched once,
      in order. `filesRead` is the record of which loads ran; that the
      abolished file really plays no part after a failed index load is
      `IndexFailureIgnoresAbolished`. */
  function ExportAbolishedMunicipality(csv: Result<seq<Row>>, decoded: Result<seq<AbolishedMunicipality>>)
    : (run: Run)
    ensures run.filesRead == if LoadedIndex(csv).Ok? then [MunicipalitiesCatastali, AbolishedMunicipalities]
                             else [MunicipalitiesCatastali]
    ensures run.reported.Some? <==> (LoadedIndex(csv).Err? || decoded.Err?)
    ensures run.reported.Some? ==> run.dispatched == []
    ensures LoadedIndex(csv).Err? ==> run.reported == Some(LoadedIndex(csv).error)
    ensures LoadedIndex(csv).Ok? && decoded.Err? ==> run.reported == Some(decoded.error)
    ensures run.reported.None? ==>
              run.dispatched == DispatchAll(JoinAndTransform(LoadedIndex(csv).value, decoded.value))
  {
    var filesRead := [MunicipalitiesCatastali] + (if LoadedIndex(csv).Ok? then [AbolishedMunicipalities] else []);
    match Pipeline(csv, decoded)
    case Err(e) => Run(filesRead, [], Some(e))
    case Ok(dispatches) => Run(filesRead, dispatches, None)
  }

  /** After a failed index load the run does not depend on the abolished file
      at all: it is neither read nor joined. */
  lemma IndexFailureIgnoresAbolished(
    csv: Result<seq<Row>>, d1: Result<seq<AbolishedMunicipality>>, d2: Result<seq<AbolishedMunicipality>>)
    requires LoadedIndex(csv).Err?
    ensures ExportAbolishedMunicipality(csv, d1) == ExportAbolishedMunicipality(csv, d2)
    ensures ExportAbolishedMunicipality(csv, d1).filesRead == [MunicipalitiesCatastali]
  {
  }

  /** A cadastral row without a name field aborts the whole run: the row is
      not skipped, and rows after it are not loaded. */
  lemma ShortRowAbortsRun(rows: seq<Row>, i: nat, decoded: Result<seq<AbolishedMunicipality>>)
    requires i < |rows| && !HasName(rows[i])
    ensures ExportAbolishedMunicipality(Ok(rows), decoded).dispatched == []
    ensures ExportAbolishedMunicipality(Ok(rows), decoded).reported.Some?
    ensures ExportAbolishedMunicipality(Ok(rows), decoded).filesRead == [MunicipalitiesCatastali]
  {
  }

  /** Every code a successful run attaches is the code field of the last
      cadastral row with the output's lower-cased name. */
  lemma DispatchedCodeFromLastRow(rows: seq<Row>, items: seq<AbolishedMunicipality>, k: nat)
    requires WellFormed(rows)
    requires k < |ExportAbolishedMunicipality(Ok(rows), Ok(items)).dispatched|
    ensures var s := ExportAbolishedMunicipality(Ok(rows), Ok(items)).dispatched[k].record;
            exists j :: && 0 <= j < |rows| && IsLastWithKey(rows, j)
                        && Key(rows[j]) == Lower(s.municipality.denominazione)
                        && s.codiceCatastale == rows[j][0]
  {
    var index := IndexFromRows(rows).value;
    var out := JoinAndTransform(index, items);
    var s := out[k];
    assert s in out;
    EntryFromLastRow(rows, Lower(s.municipality.denominazione));
  }

  /** Codes are attached as they are: outputs have non-empty codes when every
      cadastral row has a non-empty code field. */
  lemma NonEmptyCodesPropagate(rows: seq<Row>, items: seq<AbolishedMunicipality>)
    requires WellFormed(rows)
    requires forall i :: 0 <= i < |rows| ==> rows[i][0] != ""
    ensures forall d :: d in ExportAbolishedMunicipality(Ok(rows), Ok(items)).dispatched ==>
              d.record.codiceCatastale != ""
  {
    var dispatched := ExportAbolishedMunicipality(Ok(rows), Ok(items)).dispatched;
    forall d | d in dispatched ensures d.record.codiceCatastale != "" {
      var k :| 0 <= k < |dispatched| && dispatched[k] == d;
      DispatchedCodeFromLastRow(rows, items, k);
    }
  }

  /** An empty code field is attached unchanged: nothing guarantees a
      non-empty `codiceCatastale`. */
  lemma EmptyCodeIsAttached(name: string, provincia: string)
    ensures var run := ExportAbolishedMunicipality(Ok([["", name]]), Ok([AbolishedMunicipality(name, provincia)]));
            run.dispatched == [SerializeToJson(ToSerializableMunicipality(AbolishedMunicipality(name, provincia), ""))]
  {
  }

  /** A matched record yields one output with the row's code, the name as
      written in the record and empty province and region codes; a record
      without a cadastral row yields nothing and the run still succeeds. */
  lemma ExampleTownScenario()
    ensures var town := AbolishedMunicipality("Example Town", "EX");
            var unknown := AbolishedMunicipality("Unknown Town", "ZZ");
            var run := ExportAbolishedMunicipality(Ok([["A123", "Example Town"]]), Ok([town, unknown]));
            && run.reported == None
            && run.dispatched == [SerializeToJson(SerializableMunicipality(
                 "A123", Municipality("", "", "Example Town", "Example Town", "", "EX")))]
  {
    var town := AbolishedMunicipality("Example Town", "EX");
    var unknown := AbolishedMunicipality("Unknown Town", "ZZ");
    var index := map[Lower("Example Town") := "A123"];
    SingleRowLookup("A123", "Example Town");
    assert Lower("Unknown Town")[0] == 'u' && Lower("Example Town")[0] == 'e';
    assert !HasCatastale(index, unknown);
    JoinAppend(index, [town], [unknown]);
    assert [town] + [unknown] == [town, unknown];
    JoinSingle(index, town);
    JoinSingle(index, unknown);
  }
}
