# Abolished municipalities export — Dafny model

This project models the exporter of abolished municipalities in
`src/municipality/abolished_municipality.ts`. The exporter joins two reference
datasets and emits one output record per abolished municipality that has a
cadastral code:

- **Cadastral index** (`CatastaleIndex`): the rows of the cadastral CSV file
  become a table from the lower-cased municipality name (field 1) to the
  cadastral code (field 0). The source builds it with a `reduce` that calls
  `map.set` once per row. The model has two parts: the imperative method
  `LoadMunicipalityToCatastale`, with a loop that updates a `map` variable,
  and the function `IndexFromRows` that specifies it. If a row has no name
  field, `row[1].toLowerCase()` throws and the loader returns a failure. The
  model returns `Err(MissingNameField(i))`, where `i` is the first such row.
- **Join and transform** (`AbolishedJoin`): the abolished records are
  filtered to those whose lower-cased `comune` is a key of the index. Each
  surviving record is mapped to a `SerializableMunicipality`. The output
  carries the looked-up code, the name twice (casing unchanged), the province
  abbreviation, and empty province, region and region-name codes.
- **Orchestration** (`Export`): the two loads and the join are chained over
  `Result`, which stands for the source's `Either`. A failure of either load
  stops the chain. The cadastral failure is checked first, and the abolished
  file is then never read. The run reports the error and dispatches no
  serialisation. On success it dispatches one serialisation per output record.
- `Results` holds `Error`, `Option` and `Result` (`Chain` is `chain`, `Map` is
  `map`). `Text` holds the case folding `Lower`.

Two behaviours of the exporter are worth stating plainly:

- A cadastral row with fewer than two fields is not skipped. Its `row[1]` is
  `undefined`, reading its name throws, and the `catch` turns the whole load
  into a failure (`ShortRowAbortsRun`). Only rows that the CSV parser itself
  rejects are skipped, and the parser is outside this model.
- Nothing guarantees a non-empty `codiceCatastale`. An empty code field is
  stored and attached unchanged (`EmptyCodeIsAttached`). Outputs have
  non-empty codes only when the rows do (`NonEmptyCodesPropagate`).

## Model

| member | source | states |
|---|---|---|
| CatastaleIndex.IndexFromRows | src/municipality/abolished_municipality.ts:46-52 | the build succeeds exactly when every row has a name field; otherwise it fails at a row without one, and every row before that row has a name |
| CatastaleIndex.LoadMunicipalityToCatastale | src/municipality/abolished_municipality.ts:29-54 | the loop that sets one entry per row returns the index `IndexFromRows` specifies, or passes on a failed read or parse |
| CatastaleIndex.LoadFailsOnShortRow | src/municipality/abolished_municipality.ts:46-53 | one row without a name field makes the load fail, no later than that row; the row is not skipped |
| CatastaleIndex.IndexKeys | src/municipality/abolished_municipality.ts:46-49 | the keys of the index are exactly the lower-cased names of the rows |
| CatastaleIndex.LastWriteWins | src/municipality/abolished_municipality.ts:46-49 | the code stored under a key is the code of the last row with that key |
| CatastaleIndex.EntryFromLastRow | src/municipality/abolished_municipality.ts:46-49 | every entry of the index comes from the last row carrying its key |
| CatastaleIndex.EarlierDuplicateIgnored | src/municipality/abolished_municipality.ts:46-49 | dropping a row whose key a later row repeats leaves the index unchanged |
| CatastaleIndex.SingleRowLookup | src/municipality/abolished_municipality.ts:46-49 | a single row `(code, name)` gives the table mapping the lower-cased name to the code |
| AbolishedJoin.ToSerializableMunicipality | src/municipality/abolished_municipality.ts:56-71 | the output has the name twice, the province abbreviation and the given code, with the province, region and region-name codes empty; the record and the code can be read back from it |
| AbolishedJoin.ToSerializableOfOrigin | src/municipality/abolished_municipality.ts:60-70 | every output of that shape is the transformation of the record and code read back from it |
| AbolishedJoin.FilterMatched | src/municipality/abolished_municipality.ts:97 | a record survives the filter exactly when its lower-cased name is in the index; the filter is never longer than its input, and it is as long exactly when every record matches |
| AbolishedJoin.JoinAndTransform | src/municipality/abolished_municipality.ts:96-104 | every output comes from an input record whose name is in the index and carries that name's code; every matched record has its output; the lookup is defined for every filtered record |
| AbolishedJoin.LoadAbolishedMunicipalities | src/municipality/abolished_municipality.ts:77-111 | a failed read, parse or decode becomes a failure carrying the same error; otherwise the result is the join of the decoded records |
| AbolishedJoin.FilterAppend | src/municipality/abolished_municipality.ts:97 | filtering a concatenation concatenates the filtered parts (a stable filter) |
| AbolishedJoin.JoinAppend | src/municipality/abolished_municipality.ts:96-104 | the join of a concatenation concatenates the joins of the parts, so no output depends on neighbouring records |
| AbolishedJoin.JoinSingle | src/municipality/abolished_municipality.ts:96-104 | one record yields its output if its name is in the index and nothing otherwise |
| AbolishedJoin.FilterPreservesOrder | src/municipality/abolished_municipality.ts:97 | two matched records keep their relative order through the filter |
| AbolishedJoin.JoinPreservesOrder | src/municipality/abolished_municipality.ts:96-104 | the outputs of two matched records keep the records' relative order |
| AbolishedJoin.JoinLength | src/municipality/abolished_municipality.ts:96-104 | the output is as long as the input exactly when every record matches, and empty exactly when none does |
| Export.Pipeline | src/municipality/abolished_municipality.ts:123-131 | a failed index load is the result whatever the abolished load gives; a failed abolished load is the result after a good index load; otherwise there is one dispatch per joined output, in order |
| Export.ExportAbolishedMunicipality | src/municipality/abolished_municipality.ts:118-145 | the abolished file is read only after a good index load; on any load failure the error is reported and nothing is dispatched; otherwise exactly the joined outputs are dispatched for serialisation, each once and in order |
| Export.IndexFailureIgnoresAbolished | src/municipality/abolished_municipality.ts:123-126 | after a failed index load the run is the same whatever the abolished file holds, and only the cadastral file was read |
| Export.ShortRowAbortsRun | src/municipality/abolished_municipality.ts:46-53 | a cadastral row without a name field aborts the run: an error is reported, nothing is dispatched and the abolished file is not read |
| Export.DispatchedCodeFromLastRow | src/municipality/abolished_municipality.ts:97-102 | each dispatched code is the code field of the last cadastral row whose lower-cased name is the output's lower-cased name |
| Export.NonEmptyCodesPropagate | src/municipality/abolished_municipality.ts:97-102 | when every cadastral row has a non-empty code, every dispatched output has a non-empty code |
| Export.EmptyCodeIsAttached | src/municipality/abolished_municipality.ts:46-49 | an empty code field is stored and attached unchanged |
| Export.ExampleTownScenario | src/municipality/abolished_municipality.ts:118-140 | row `A123,Example Town` with records Example Town/EX and Unknown Town/ZZ: the run succeeds with exactly one output, `A123` with the name Example Town, province EX and empty codes |

## Left out

- File reads (`fs.readFileSync`) and the configured file paths are I/O. Each loader receives the outcome of its read as a `Result`.
- The CSV parser `parseCsvPromise` and its options (comma delimiter, trimming, skipping empty and malformed lines) are an external collaborator. Its output is the given `Result<seq<Row>>`.
- `JSON.parse` and the `AbolishedMunicipalityArray` decoder are an external library. Their outcome is the given `Result<seq<AbolishedMunicipality>>`. The schema of `src/types/AbolishedMunicipality` is not part of this model, so a record has only `comune` and `provincia`, the two fields the exporter reads.
- `serializeMunicipalityToJson` and `Promise.all` are external persistence and asynchronous fan-out. A `Dispatch` records one call. Concurrency, completion and the failure of a write are not modelled.
- Logging (`console.log` progress lines, `chalk`, `logError`) is not modelled. The reported error stands for the `logError` call.
- Error text: the source wraps every failure as `new Error(String(e))`. The model keeps the kind of failure, not its message.
- Text.Lower: folds only ASCII letters, whereas JavaScript `toLowerCase` folds all of Unicode. No property here depends on which characters are folded.
- The `reduce` over the decoded `Either` ignores its accumulator and is modelled as a direct join of the decoded records.
