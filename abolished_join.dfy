/** The join of the abolished-municipality records with the cadastral index and
    their transformation into the serialisable output shape. */
module AbolishedJoin {
  import opened Results
  import opened Text
  import opened CatastaleIndex

  /** A decoded abolished-municipality record: its name and province. */
  datatype AbolishedMunicipality = AbolishedMunicipality(comune: string, provincia: string)

  datatype Municipality = Municipality(
    codiceProvincia: string,
    codiceRegione: string,
    denominazione: string,
    denominazioneInItaliano: string,
    denominazioneRegione: string,
    siglaProvincia: string)

  /** The output record handed to the serialiser. */
  datatype SerializableMunicipality =
    SerializableMunicipality(codiceCatastale: string, municipality: Municipality)

  /** The record's lower-cased name is a key of the index. */
  predicate HasCatastale(index: Index, a: AbolishedMunicipality) {
    Lower(a.comune) in index
  }

  /** The shape every output built from an abolished record has: the name
      given twice and the province, region and region-name codes left empty,
      as they are unknown for an abolished municipality. */
  predicate IsAbolishedShape(s: SerializableMunicipality) {
    && s.municipality.codiceProvincia == ""
    && s.municipality.codiceRegione == ""
    && s.municipality.denominazioneRegione == ""
    && s.municipality.denominazioneInItaliano == s.municipality.denominazione
  }

  /** The record and the code an output was built from, read back from it. */
  function Origin(s: SerializableMunicipality): (AbolishedMunicipality, string) {
    (AbolishedMunicipality(s.municipality.denominazione, s.municipality.siglaProvincia),
     s.codiceCatastale)
  }

  /** `fromAbolishedMunicipalityToSerializableMunicipality`. */
  function ToSerializableMunicipality(a: AbolishedMunicipality, codiceCatastale: string)
    : (s: SerializableMunicipality)
    ensures IsAbolishedShape(s)
    ensures Origin(s) == (a, codiceCatastale)
  {
    SerializableMunicipality(
      codiceCatastale,
      Municipality(
        codiceProvincia := "",
        codiceRegione := "",
        denominazione := a.comune,
        denominazioneInItaliano := a.comune,
        denominazioneRegione := "",
        siglaProvincia := a.provincia))
  }

  /** Every output of abolished shape is the image of the record and code it
      carries, so the transformation loses nothing it is given. */
  lemma ToSerializableOfOrigin(s: SerializableMunicipality)
    requires IsAbolishedShape(s)
    ensures ToSerializableMunicipality(Origin(s).0, Origin(s).1) == s
  {
  }

  /** The output for a record that has a cadastral code. */
  function Transform(index: Index, a: AbolishedMunicipality): SerializableMunicipality
    requires HasCatastale(index, a)
  {
    ToSerializableMunicipality(a, index[Lower(a.comune)])
  }

  /** The `filter` step: the records whose lower-cased name is in the index,
      in their original order. */
  function FilterMatched(index: Index, items: seq<AbolishedMunicipality>)
    : (r: seq<AbolishedMunicipality>)
    ensures |r| <= |items|
    ensures forall a :: a in r <==> a in items && HasCatastale(index, a)
    ensures |r| == |items| <==> forall i :: 0 <= i < |items| ==> HasCatastale(index, items[i])
  {
    if items == [] then []
    else
      var rest := FilterMatched(index, items[1..]);
      assert forall i :: 1 <= i < |items| ==> items[i] == items[1..][i - 1];
      if HasCatastale(index, items[0]) then [items[0]] + rest else rest
  }

  /** The `filter` followed by the `map` of `loadAbolishedMunicipalities`: every
      record with a code becomes an output carrying that code, every other
      record is dropped. */
  function JoinAndTransform(index: Index, items: seq<AbolishedMunicipality>)
    : (r: seq<SerializableMunicipality>)
    ensures |r| <= |items|
    ensures forall s :: s in r ==>
              && IsAbolishedShape(s)
              && Origin(s).0 in items
              && HasCatastale(index, Origin(s).0)
              && s.codiceCatastale == index[Lower(s.municipality.denominazione)]
    ensures forall a :: a in items && HasCatastale(index, a) ==> Transform(index, a) in r
  {
    var matched := FilterMatched(index, items);
    var r := seq(|matched|, i requires 0 <= i < |matched| => Transform(index, matched[i]));
    assert forall a :: a in matched ==> Transform(index, a) in r by {
      forall a | a in matched ensures Transform(index, a) in r {
        var i :| 0 <= i < |matched| && matched[i] == a;
        assert r[i] == Transform(index, a);
      }
    }
    r
  }

  /** What `loadAbolishedMunicipalities` returns for the decoder's outcome
      `decoded`: a failed read, parse or decode is passed on as a failure,
      otherwise the records are joined with the index. */
  function LoadAbolishedMunicipalities(index: Index, decoded: Result<seq<AbolishedMunicipality>>)
    : (r: Result<seq<SerializableMunicipality>>)
    ensures r.Ok? <==> decoded.Ok?
    ensures decoded.Err? ==> r.error == decoded.error
    ensures decoded.Ok? ==> r.value == JoinAndTransform(index, decoded.value)
  {
    match decoded
    case Err(e) => Err(e)
    case Ok(items) => Ok(JoinAndTransform(index, items))
  }

  /** The filter is stable: filtering a concatenation filters each part. */
  lemma {:induction false} FilterAppend(index: Index, a: seq<AbolishedMunicipality>, b: seq<AbolishedMunicipality>)
    ensures FilterMatched(index, a + b) == FilterMatched(index, a) + FilterMatched(index, b)
  {
    if a != [] {
      assert (a + b)[1..] == a[1..] + b;
      FilterAppend(index, a[1..], b);
    } else {
      assert a + b == b;
    }
  }

  /** The join distributes over concatenation: no record's output depends on
      its neighbours, and the outputs keep the order of their records. */
  lemma JoinAppend(index: Index, a: seq<AbolishedMunicipality>, b: seq<AbolishedMunicipality>)
    ensures JoinAndTransform(index, a + b) == JoinAndTransform(index, a) + JoinAndTransform(index, b)
  {
    FilterAppend(index, a, b);
  }

  /** The join of one record: its output if it has a code, nothing otherwise. */
  lemma JoinSingle(index: Index, a: AbolishedMunicipality)
    ensures JoinAndTransform(index, [a]) == if HasCatastale(index, a) then [Transform(index, a)] else []
  {
  }

  /** The filter keeps two matched records in their relative order. */
  lemma FilterPreservesOrder(index: Index, items: seq<AbolishedMunicipality>, i: nat, j: nat)
    requires i < j < |items|
    requires HasCatastale(index, items[i]) && HasCatastale(index, items[j])
    ensures exists p, q :: && 0 <= p < q < |FilterMatched(index, items)|
                           && FilterMatched(index, items)[p] == items[i]
                           && FilterMatched(index, items)[q] == items[j]
  {
    var front, back := items[..j], items[j..];
    assert items == front + back;
    FilterAppend(index, front, back);
    assert back[1..] == items[j + 1..];
    var head := FilterMatched(index, front);
    assert FilterMatched(index, back) == [items[j]] + FilterMatched(index, items[j + 1..]);
    assert front[i] == items[i];
    var p :| 0 <= p < |head| && head[p] == items[i];
    assert FilterMatched(index, items)[p] == items[i];
    assert FilterMatched(index, items)[|head|] == items[j];
  }

  /** Two matched records keep their relative order in the output. */
  lemma JoinPreservesOrder(index: Index, items: seq<AbolishedMunicipality>, i: nat, j: nat)
    requires i < j < |items|
    requires HasCatastale(index, items[i]) && HasCatastale(index, items[j])
    ensures exists p, q :: && 0 <= p < q < |JoinAndTransform(index, items)|
                           && JoinAndTransform(index, items)[p] == Transform(index, items[i])
                           && JoinAndTransform(index, items)[q] == Transform(index, items[j])
  {
    FilterPreservesOrder(index, items, i, j);
    var matched := FilterMatched(index, items);
    var p, q :| 0 <= p < q < |matched| && matched[p] == items[i] && matched[q] == items[j];
    var out := JoinAndTransform(index, items);
    assert out[p] == Transform(index, items[i]);
    assert out[q] == Transform(index, items[j]);
  }

  /** No record is lost: the output is as long as the input exactly when every
      record has a code, and empty exactly when none has. */
  lemma JoinLength(index: Index, items: seq<AbolishedMunicipality>)
    ensures (|JoinAndTransform(index, items)| == |items|)
              <==> (forall i :: 0 <= i < |items| ==> HasCatastale(index, items[i]))
    ensures (JoinAndTransform(index, items) == [])
              <==> (forall i :: 0 <= i < |items| ==> !HasCatastale(index, items[i]))
  {
    var out := JoinAndTransform(index, items);
    if out == [] {
      forall i | 0 <= i < |items| ensures !HasCatastale(index, items[i]) {
        assert items[i] in items;
      }
    } else {
      var a := Origin(out[0]).0;
      assert out[0] in out;
      var i :| 0 <= i < |items| && items[i] == a;
    }
  }
}
