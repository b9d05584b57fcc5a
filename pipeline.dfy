/**
 * The aggregation pipeline of `get_dinosaur_by_id` as functions over the
 * collections: `$match` on `_id`, `$lookup` on a local field against the
 * foreign `_id`, `$unwind` with `preserveNullAndEmptyArrays`, and the
 * correlated fossil sub-pipeline with its own lookups and the bone gathering.
 */
module Pipeline {
  import opened Wrappers
  import opened ObjectIds
  import opened Documents

  /** `r` keeps some of the elements of `s`, in the order `s` has them. */
  ghost predicate SubsequenceOf<T>(r: seq<T>, s: seq<T>)
    decreases |s|
  {
    r == [] || (s != [] && ((r[0] == s[0] && SubsequenceOf(r[1..], s[1..])) || SubsequenceOf(r, s[1..])))
  }

  /** The documents of `from` whose `_id` is `x`, in store order. */
  function MatchId<B>(from: seq<Doc<B>>, x: ObjectId): (r: seq<Doc<B>>)
    ensures forall i :: 0 <= i < |r| ==> r[i] in from && r[i].id == x
    ensures forall j :: 0 <= j < |from| && from[j].id == x ==> from[j] in r
    ensures SubsequenceOf(r, from)
  {
    if from == [] then []
    else if from[0].id == x then [from[0]] + MatchId(from[1..], x)
    else MatchId(from[1..], x)
  }

  /** The first document of `from` whose `_id` is `x`. */
  function FindById<B>(from: seq<Doc<B>>, x: ObjectId): (r: Option<Doc<B>>)
    ensures r.Some? <==> exists j :: 0 <= j < |from| && from[j].id == x
    ensures r.Some? ==> r.value in from && r.value.id == x
  {
    if from == [] then None
    else if from[0].id == x then Some(from[0])
    else FindById(from[1..], x)
  }

  /**
   * The array a `$lookup` with `foreignField: "_id"` stores: the documents
   * whose `_id` equals the local field. An absent or null local field
   * matches only documents without an `_id`, and there are none.
   */
  function Lookup<B>(from: seq<Doc<B>>, local: Field<ObjectId>): seq<Doc<B>> {
    match local
    case Val(x) => MatchId(from, x)
    case _ => []
  }

  /** The single document a local reference designates, if any. */
  function Find<B>(from: seq<Doc<B>>, local: Field<ObjectId>): Option<Doc<B>> {
    match local
    case Val(x) => FindById(from, x)
    case _ => None
  }

  function Somes<B>(ds: seq<Doc<B>>): (r: seq<Option<Doc<B>>>)
    ensures |r| == |ds| && forall i :: 0 <= i < |ds| ==> r[i] == Some(ds[i])
  {
    if ds == [] then [] else [Some(ds[0])] + Somes(ds[1..])
  }

  /**
   * `$unwind` with `preserveNullAndEmptyArrays`: one output row per array
   * element, or a single row without the field (`None`) when the array is empty.
   */
  function Unwind<B>(matches: seq<Doc<B>>): seq<Option<Doc<B>>> {
    if matches == [] then [None] else Somes(matches)
  }

  /** One copy of `row` per unwound value, each with that value stored into it. */
  function Spread<R, B>(row: R, unwound: seq<Option<Doc<B>>>, into: (R, Option<Doc<B>>) -> R): seq<R> {
    if unwound == [] then [] else [into(row, unwound[0])] + Spread(row, unwound[1..], into)
  }

  /** A `$lookup` of `localField` against `from`'s `_id` followed by its `$unwind`. */
  function LookupUnwind<R, B>(rows: seq<R>, from: seq<Doc<B>>, localField: R -> Field<ObjectId>,
                              into: (R, Option<Doc<B>>) -> R): seq<R>
  {
    if rows == [] then []
    else Spread(rows[0], Unwind(Lookup(from, localField(rows[0]))), into)
         + LookupUnwind(rows[1..], from, localField, into)
  }

  /** One hydrated fossil, as the sub-pipeline builds it. */
  datatype FossilRow = FossilRow(
    fossil: Doc<Fossil>,
    loc: Option<Doc<Location>>,
    desc: Option<Doc<Discoverer>>,
    mus: Option<Doc<Museum>>,
    listaOssosRaw: seq<Doc<Bone>>)

  /** One output document of the outer pipeline. */
  datatype DinoRow = DinoRow(
    dino: Doc<Dinosaur>,
    dietaInfo: Option<Doc<Diet>>,
    periodoInfo: Option<Doc<Period>>,
    listaFosseis: seq<FossilRow>)

  function DietRef(r: DinoRow): Field<ObjectId> { r.dino.body.idDieta }
  function WithDiet(r: DinoRow, d: Option<Doc<Diet>>): DinoRow { r.(dietaInfo := d) }
  function PeriodRef(r: DinoRow): Field<ObjectId> { r.dino.body.idPeriodo }
  function WithPeriod(r: DinoRow, p: Option<Doc<Period>>): DinoRow { r.(periodoInfo := p) }
  function LocRef(r: FossilRow): Field<ObjectId> { r.fossil.body.idLocalizacaoDescoberta }
  function WithLoc(r: FossilRow, l: Option<Doc<Location>>): FossilRow { r.(loc := l) }
  function DescRef(r: FossilRow): Field<ObjectId> { r.fossil.body.idDescobridor }
  function WithDesc(r: FossilRow, d: Option<Doc<Discoverer>>): FossilRow { r.(desc := d) }
  function MusRef(r: FossilRow): Field<ObjectId> { r.fossil.body.idMuseu }
  function WithMus(r: FossilRow, m: Option<Doc<Museum>>): FossilRow { r.(mus := m) }

  /** The sub-pipeline's `$match`: fossils whose `id_dinossauro` equals the dinosaur's `_id`. */
  function FossilsOf(fosseis: seq<Doc<Fossil>>, dinoId: ObjectId): (r: seq<Doc<Fossil>>)
    ensures forall f :: f in r <==> f in fosseis && f.body.idDinossauro == Val(dinoId)
    ensures SubsequenceOf(r, fosseis)
  {
    if fosseis == [] then []
    else if fosseis[0].body.idDinossauro == Val(dinoId) then [fosseis[0]] + FossilsOf(fosseis[1..], dinoId)
    else FossilsOf(fosseis[1..], dinoId)
  }

  /** The bone `$lookup`: bones whose `id_fossil` equals the fossil's `_id`. */
  function BonesOf(ossos: seq<Doc<Bone>>, fossilId: ObjectId): (r: seq<Doc<Bone>>)
    ensures forall b :: b in r <==> b in ossos && b.body.idFossil == Val(fossilId)
    ensures SubsequenceOf(r, ossos)
  {
    if ossos == [] then []
    else if ossos[0].body.idFossil == Val(fossilId) then [ossos[0]] + BonesOf(ossos[1..], fossilId)
    else BonesOf(ossos[1..], fossilId)
  }

  /** The `lista_fosseis` array: the correlated sub-pipeline for one dinosaur. */
  function FossilSubPipeline(store: Store, dinoId: ObjectId): seq<FossilRow> {
    var matched := FossilsOf(store.fosseis, dinoId);
    var rows0 := seq(|matched|, i requires 0 <= i < |matched| => FossilRow(matched[i], None, None, None, []));
    var rows1 := LookupUnwind(rows0, store.localizacoes, LocRef, WithLoc);
    var rows2 := LookupUnwind(rows1, store.descobridores, DescRef, WithDesc);
    var rows3 := LookupUnwind(rows2, store.museus, MusRef, WithMus);
    seq(|rows3|, i requires 0 <= i < |rows3| =>
      rows3[i].(listaOssosRaw := BonesOf(store.ossos, rows3[i].fossil.id)))
  }

  /** `db.dinossauros.aggregate(pipeline)` for the identifier `oid`. */
  function Aggregate(store: Store, oid: ObjectId): seq<DinoRow> {
    var matched := MatchId(store.dinossauros, oid);
    var rows0 := seq(|matched|, i requires 0 <= i < |matched| => DinoRow(matched[i], None, None, []));
    var rows1 := LookupUnwind(rows0, store.tiposAlimentacao, DietRef, WithDiet);
    var rows2 := LookupUnwind(rows1, store.periodosGeologicos, PeriodRef, WithPeriod);
    seq(|rows2|, i requires 0 <= i < |rows2| =>
      rows2[i].(listaFosseis := FossilSubPipeline(store, rows2[i].dino.id)))
  }

  /** Reference definition of one hydrated fossil: each link resolved directly by `_id`. */
  function JoinFossil(store: Store, f: Doc<Fossil>): FossilRow {
    FossilRow(f,
      Find(store.localizacoes, f.body.idLocalizacaoDescoberta),
      Find(store.descobridores, f.body.idDescobridor),
      Find(store.museus, f.body.idMuseu),
      BonesOf(store.ossos, f.id))
  }

  /**
   * Reference definition of the hydrated dinosaur: diet and period resolved
   * directly by `_id`, and one directly joined fossil per fossil of `d`.
   */
  function JoinDino(store: Store, d: Doc<Dinosaur>): DinoRow {
    var fs := FossilsOf(store.fosseis, d.id);
    DinoRow(d,
      Find(store.tiposAlimentacao, d.body.idDieta),
      Find(store.periodosGeologicos, d.body.idPeriodo),
      seq(|fs|, i requires 0 <= i < |fs| => JoinFossil(store, fs[i])))
  }

  // ---------------------------------------------------------------------
  // With unique `_id`s every lookup finds at most one document.

  lemma {:induction false} MatchIdUnique<B>(from: seq<Doc<B>>, x: ObjectId)
    requires UniqueIds(from)
    ensures MatchId(from, x) == match FindById(from, x) case None => [] case Some(d) => [d]
  {
    if from != [] {
      assert UniqueIds(from[1..]) by {
        forall i, j | 0 <= i < j < |from[1..]| ensures from[1..][i].id != from[1..][j].id {
          assert from[1..][i] == from[i + 1] && from[1..][j] == from[j + 1];
        }
      }
      MatchIdUnique(from[1..], x);
      if from[0].id == x {
        assert FindById(from[1..], x).None? by {
          forall j | 0 <= j < |from[1..]| ensures from[1..][j].id != x {
            assert from[1..][j] == from[j + 1];
          }
        }
      }
    }
  }

  /** A lookup followed by its unwind yields exactly one value: the match, or `None`. */
  lemma UnwindLookupUnique<B>(from: seq<Doc<B>>, local: Field<ObjectId>)
    requires UniqueIds(from)
    ensures Unwind(Lookup(from, local)) == [Find(from, local)]
  {
    if local.Val? {
      MatchIdUnique(from, local.value);
    }
  }

  lemma SpreadOne<R, B>(row: R, v: Option<Doc<B>>, into: (R, Option<Doc<B>>) -> R)
    ensures Spread(row, [v], into) == [into(row, v)]
  {
    assert [v][1..] == [];
  }

  /** Under unique ids a lookup-and-unwind stage maps every row to exactly one row. */
  lemma {:induction false} LookupUnwindUnique<R, B>(rows: seq<R>, from: seq<Doc<B>>,
      localField: R -> Field<ObjectId>, into: (R, Option<Doc<B>>) -> R)
    requires UniqueIds(from)
    ensures |LookupUnwind(rows, from, localField, into)| == |rows|
    ensures forall i :: 0 <= i < |rows| ==>
      LookupUnwind(rows, from, localField, into)[i] == into(rows[i], Find(from, localField(rows[i])))
  {
    if rows != [] {
      var v := Find(from, localField(rows[0]));
      UnwindLookupUnique(from, localField(rows[0]));
      SpreadOne(rows[0], v, into);
      LookupUnwindUnique(rows[1..], from, localField, into);
      var rest := LookupUnwind(rows[1..], from, localField, into);
      var out := LookupUnwind(rows, from, localField, into);
      assert out == [into(rows[0], v)] + rest;
      forall i | 1 <= i < |rows| ensures out[i] == into(rows[i], Find(from, localField(rows[i]))) {
        assert out[i] == rest[i - 1];
        assert rows[1..][i - 1] == rows[i];
      }
    }
  }

  /**
   * Whatever the ids, `$unwind` with `preserveNullAndEmptyArrays` never drops
   * a row: every input row reaches the output, carrying its first unwound value.
   */
  lemma {:induction false} LookupUnwindKeepsRows<R, B>(rows: seq<R>, from: seq<Doc<B>>,
      localField: R -> Field<ObjectId>, into: (R, Option<Doc<B>>) -> R)
    ensures |LookupUnwind(rows, from, localField, into)| >= |rows|
    ensures forall i :: 0 <= i < |rows| ==>
      into(rows[i], Unwind(Lookup(from, localField(rows[i])))[0]) in LookupUnwind(rows, from, localField, into)
  {
    if rows != [] {
      LookupUnwindKeepsRows(rows[1..], from, localField, into);
      var u := Unwind(Lookup(from, localField(rows[0])));
      var rest := LookupUnwind(rows[1..], from, localField, into);
      var out := LookupUnwind(rows, from, localField, into);
      assert out == Spread(rows[0], u, into) + rest;
      assert |Spread(rows[0], u, into)| >= 1;
      assert out[0] == into(rows[0], u[0]);
      forall i | 1 <= i < |rows|
        ensures into(rows[i], Unwind(Lookup(from, localField(rows[i])))[0]) in out
      {
        assert rows[1..][i - 1] == rows[i];
      }
    }
  }

  /**
   * The fossil sub-pipeline yields one row per fossil of the dinosaur, in
   * store order, each joined with its location, discoverer, museum and bones.
   */
  lemma FossilSubPipelineRows(store: Store, dinoId: ObjectId)
    requires ValidStore(store)
    ensures var fs := FossilsOf(store.fosseis, dinoId);
      && |FossilSubPipeline(store, dinoId)| == |fs|
      && forall i :: 0 <= i < |fs| ==> FossilSubPipeline(store, dinoId)[i] == JoinFossil(store, fs[i])
  {
    var matched := FossilsOf(store.fosseis, dinoId);
    var rows0 := seq(|matched|, i requires 0 <= i < |matched| => FossilRow(matched[i], None, None, None, []));
    var rows1 := LookupUnwind(rows0, store.localizacoes, LocRef, WithLoc);
    var rows2 := LookupUnwind(rows1, store.descobridores, DescRef, WithDesc);
    var rows3 := LookupUnwind(rows2, store.museus, MusRef, WithMus);
    LookupUnwindUnique(rows0, store.localizacoes, LocRef, WithLoc);
    LookupUnwindUnique(rows1, store.descobridores, DescRef, WithDesc);
    LookupUnwindUnique(rows2, store.museus, MusRef, WithMus);
    forall i | 0 <= i < |matched|
      ensures rows3[i].(listaOssosRaw := BonesOf(store.ossos, rows3[i].fossil.id)) == JoinFossil(store, matched[i])
    {
      assert rows1[i].fossil == matched[i];
      assert rows2[i].fossil == matched[i];
    }
  }

  /**
   * With unique ids the pipeline returns no document when no dinosaur has
   * `_id` `oid`, and otherwise exactly one: that dinosaur, left-joined with
   * its diet and period and carrying its fossil list.
   */
  lemma AggregateRows(store: Store, oid: ObjectId)
    requires ValidStore(store)
    ensures Aggregate(store, oid) == match FindById(store.dinossauros, oid)
      case None => []
      case Some(d) => [JoinDino(store, d)]
  {
    var matched := MatchId(store.dinossauros, oid);
    MatchIdUnique(store.dinossauros, oid);
    var rows0 := seq(|matched|, i requires 0 <= i < |matched| => DinoRow(matched[i], None, None, []));
    var rows1 := LookupUnwind(rows0, store.tiposAlimentacao, DietRef, WithDiet);
    LookupUnwindUnique(rows0, store.tiposAlimentacao, DietRef, WithDiet);
    LookupUnwindUnique(rows1, store.periodosGeologicos, PeriodRef, WithPeriod);
    if matched != [] {
      var d := matched[0];
      FossilSubPipelineRows(store, d.id);
      assert FossilSubPipeline(store, d.id) == JoinDino(store, d).listaFosseis;
    }
  }

  /** Whatever the ids, the pipeline finds something exactly when some dinosaur has `_id` `oid`. */
  lemma AggregateNonEmpty(store: Store, oid: ObjectId)
    ensures Aggregate(store, oid) != [] <==> exists j :: 0 <= j < |store.dinossauros| && store.dinossauros[j].id == oid
  {
    var matched := MatchId(store.dinossauros, oid);
    var rows0 := seq(|matched|, i requires 0 <= i < |matched| => DinoRow(matched[i], None, None, []));
    var rows1 := LookupUnwind(rows0, store.tiposAlimentacao, DietRef, WithDiet);
    LookupUnwindKeepsRows(rows0, store.tiposAlimentacao, DietRef, WithDiet);
    LookupUnwindKeepsRows(rows1, store.periodosGeologicos, PeriodRef, WithPeriod);
    if matched == [] {
      assert rows0 == [];
      assert rows1 == [];
    } else {
      assert matched[0] in store.dinossauros;
    }
  }
}
