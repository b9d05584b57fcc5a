/**
 * `get_dinosaur_by_id`: the handle and identifier guards, one aggregation
 * round trip, and the shaping of its first result. The two side effects the
 * function can have, showing an error and querying the store, are returned
 * as a trace.
 */
module Hydration {
  import opened Wrappers
  import opened ObjectIds
  import opened Documents
  import opened Pipeline
  import opened Shaping

  const InvalidIdMessage := "ID de Dinossauro inválido."

  datatype Effect = ErrorShown(message: string) | Aggregated(oid: ObjectId)

  /** The returned record (`None` for Python's `None`) and the effects, in order. */
  datatype Reply = Reply(record: Option<DinosaurRecord>, effects: seq<Effect>)

  /** The answer the store gives for `oid` can be shaped without an exception. */
  predicate Answerable(store: Store, oid: ObjectId) {
    var rows := Aggregate(store, oid);
    rows != [] ==> Shapeable(rows[0])
  }

  /**
   * The schema the shaping relies on, for every document of the store: no
   * weight stored as null, four-digit years, and a `nome_parte` key on every bone.
   */
  predicate Conforming(store: Store) {
    && (forall i :: 0 <= i < |store.dinossauros| ==> WeightConvertible(store.dinossauros[i].body.pesoMedioKg))
    && (forall i :: 0 <= i < |store.fosseis| ==> DateWritable(store.fosseis[i].body.dataDescoberta))
    && (forall i :: 0 <= i < |store.ossos| ==> !store.ossos[i].body.nomeParte.Missing?)
  }

  /** In a conforming store, every dinosaur's directly joined document can be shaped. */
  lemma ConformingShapeable(store: Store, d: Doc<Dinosaur>)
    requires Conforming(store) && d in store.dinossauros
    ensures Shapeable(JoinDino(store, d))
  {
    var row := JoinDino(store, d);
    var fs := FossilsOf(store.fosseis, d.id);
    forall i | 0 <= i < |row.listaFosseis| ensures FossilShapeable(row.listaFosseis[i]) {
      assert fs[i] in store.fosseis;
      var bones := BonesOf(store.ossos, fs[i].id);
      forall k | 0 <= k < |bones| ensures !bones[k].body.nomeParte.Missing? {
        assert bones[k] in store.ossos;
      }
    }
  }

  /**
   * With unique ids, the answer for dinosaur `d` can be shaped exactly when
   * `d` joined directly with its diet, period and fossils can.
   */
  lemma AnswerableJoined(store: Store, oid: ObjectId, d: Doc<Dinosaur>)
    requires ValidStore(store) && d in store.dinossauros && d.id == oid
    ensures FindById(store.dinossauros, oid) == Some(d)
    ensures Answerable(store, oid) <==> Shapeable(JoinDino(store, d))
  {
    AggregateRows(store, oid);
    var k :| 0 <= k < |store.dinossauros| && store.dinossauros[k] == d;
    var f := FindById(store.dinossauros, oid);
    var m :| 0 <= m < |store.dinossauros| && store.dinossauros[m] == f.value;
    assert m == k;
  }

  /** In a conforming store with unique ids, every answer can be shaped. */
  lemma ConformingAnswerable(store: Store, oid: ObjectId)
    requires ValidStore(store) && Conforming(store)
    ensures Answerable(store, oid)
  {
    AggregateRows(store, oid);
    var found := FindById(store.dinossauros, oid);
    if found.Some? {
      ConformingShapeable(store, found.value);
    }
  }

  /** The record built from the first result of the aggregation, if there is one. */
  function Hydrate(store: Store, oid: ObjectId): Option<DinosaurRecord>
    requires Answerable(store, oid)
  {
    var rows := Aggregate(store, oid);
    if rows == [] then None else Some(Shape(rows[0]))
  }

  /**
   * No handle: `None` and nothing else happens. An identifier that is not an
   * ObjectId: `None`, the error is shown, and the store is not queried. A
   * well-formed identifier: one aggregation, and the record hydrated from it.
   */
  method GetDinosaurById(db: Option<Store>, dinoIdStr: string) returns (reply: Reply)
    requires db.Some? && Parse(dinoIdStr).Some? ==> Answerable(db.value, Parse(dinoIdStr).value)
    ensures db.None? ==> reply == Reply(None, [])
    ensures db.Some? && Parse(dinoIdStr).None? ==> reply == Reply(None, [ErrorShown(InvalidIdMessage)])
    ensures db.Some? && Parse(dinoIdStr).Some? ==>
      reply == Reply(Hydrate(db.value, Parse(dinoIdStr).value), [Aggregated(Parse(dinoIdStr).value)])
  {
    if db.None? {
      return Reply(None, []);
    }
    var parsed := Parse(dinoIdStr);
    if parsed.None? {
      return Reply(None, [ErrorShown(InvalidIdMessage)]);
    }
    var oid := parsed.value;
    var resultado := Aggregate(db.value, oid);
    if resultado == [] {
      return Reply(None, [Aggregated(oid)]);
    }
    var rec := ShapeDinosaur(resultado[0]);
    return Reply(Some(rec), [Aggregated(oid)]);
  }

  /**
   * A record comes back exactly when some dinosaur has `_id` `oid`, whether
   * or not its diet, period or fossils are found (the lookups are left joins).
   */
  lemma HydrateFoundIff(store: Store, oid: ObjectId)
    requires Answerable(store, oid)
    ensures Hydrate(store, oid).Some? <==>
      exists j :: 0 <= j < |store.dinossauros| && store.dinossauros[j].id == oid
  {
    AggregateNonEmpty(store, oid);
  }

  /**
   * With unique ids, the record for dinosaur `d` is the shaping of `d`
   * joined directly with its diet, its period and its fossils; its `id` is
   * the string form of `d`'s `_id`.
   */
  lemma HydrateRecord(store: Store, oid: ObjectId, d: Doc<Dinosaur>)
    requires ValidStore(store) && d in store.dinossauros && d.id == oid
    requires Shapeable(JoinDino(store, d))
    ensures Answerable(store, oid)
    ensures Hydrate(store, oid) == Some(Shape(JoinDino(store, d)))
    ensures Hydrate(store, oid).value.id == Str(oid)
  {
    AnswerableJoined(store, oid, d);
    AggregateRows(store, oid);
  }

  /**
   * The fossil list of the directly joined dinosaur: one shaped fossil per
   * fossil document of `d`, in store order.
   */
  lemma JoinedFossils(store: Store, d: Doc<Dinosaur>)
    requires Shapeable(JoinDino(store, d))
    ensures var fs := FossilsOf(store.fosseis, d.id);
      && (forall i :: 0 <= i < |fs| ==> FossilShapeable(JoinFossil(store, fs[i])))
      && |Shape(JoinDino(store, d)).fossil| == |fs|
      && (forall i :: 0 <= i < |fs| ==> Shape(JoinDino(store, d)).fossil[i] == ShapeFossil(JoinFossil(store, fs[i])))
  {
    var fs := FossilsOf(store.fosseis, d.id);
    forall i | 0 <= i < |fs| ensures FossilShapeable(JoinFossil(store, fs[i])) {
      assert JoinDino(store, d).listaFosseis[i] == JoinFossil(store, fs[i]);
    }
  }

  /**
   * With unique ids, the record's fossil list has exactly one entry per
   * fossil document whose `id_dinossauro` is the dinosaur's `_id`, in store
   * order; each entry lists the part names of exactly that fossil's bones,
   * in store order; with no such fossil the list is empty.
   */
  lemma HydrateFossils(store: Store, oid: ObjectId, d: Doc<Dinosaur>)
    requires ValidStore(store) && d in store.dinossauros && d.id == oid
    requires Shapeable(JoinDino(store, d))
    ensures Answerable(store, oid) && Hydrate(store, oid).Some?
    ensures var fs := FossilsOf(store.fosseis, oid);
      && (forall i :: 0 <= i < |fs| ==> FossilShapeable(JoinFossil(store, fs[i])))
      && |Hydrate(store, oid).value.fossil| == |fs|
      && (forall i :: 0 <= i < |fs| ==> Hydrate(store, oid).value.fossil[i] == ShapeFossil(JoinFossil(store, fs[i])))
    ensures forall i :: 0 <= i < |FossilsOf(store.fosseis, oid)| ==>
      |Hydrate(store, oid).value.fossil[i].ossos| == |BonesOf(store.ossos, FossilsOf(store.fosseis, oid)[i].id)|
    ensures (forall k :: 0 <= k < |store.fosseis| ==> store.fosseis[k].body.idDinossauro != Val(oid)) ==>
      Hydrate(store, oid).value.fossil == []
  {
    HydrateRecord(store, oid, d);
    JoinedFossils(store, d);
    var rec := Shape(JoinDino(store, d));
    assert Hydrate(store, oid).value == rec;
    var fs := FossilsOf(store.fosseis, oid);
    forall i | 0 <= i < |fs| ensures |rec.fossil[i].ossos| == |BonesOf(store.ossos, fs[i].id)| {
      assert JoinFossil(store, fs[i]).listaOssosRaw == BonesOf(store.ossos, fs[i].id);
    }
    if fs != [] {
      assert fs[0] in store.fosseis;
      var k :| 0 <= k < |store.fosseis| && store.fosseis[k] == fs[0];
      assert store.fosseis[k].body.idDinossauro == Val(oid);
    }
  }

  /**
   * The record's `id` is the identifier the caller supplied, lower-cased;
   * an identifier taken from the name index (already lower-case) comes back unchanged.
   */
  lemma HydrateIdRoundTrip(store: Store, dinoIdStr: string, j: nat)
    requires ValidStore(store) && Parse(dinoIdStr).Some?
    requires j < |store.dinossauros| && store.dinossauros[j].id == Parse(dinoIdStr).value
    requires Shapeable(JoinDino(store, store.dinossauros[j]))
    ensures Answerable(store, Parse(dinoIdStr).value) && Hydrate(store, Parse(dinoIdStr).value).Some?
    ensures Hydrate(store, Parse(dinoIdStr).value).value.id == LowerHexAll(dinoIdStr)
    ensures (forall i :: 0 <= i < |dinoIdStr| ==> !('A' <= dinoIdStr[i] <= 'F')) ==>
      Hydrate(store, Parse(dinoIdStr).value).value.id == dinoIdStr
  {
    var oid := Parse(dinoIdStr).value;
    HydrateRecord(store, oid, store.dinossauros[j]);
    StrParse(dinoIdStr, oid);
    LowerHexAllKeepsLower(dinoIdStr);
  }
}
