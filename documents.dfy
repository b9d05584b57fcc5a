/**
 * The eight collections the dashboard reads, as in-memory sequences of
 * documents in the store's natural order. Every optional key of a document
 * is a `Field`: absent, present with value null, or present with a value;
 * `dict.get(key, default)` treats the first two differently.
 */
module Documents {
  import opened ObjectIds
  import opened Dates

  datatype Field<T> = Missing | Null | Val(value: T)

  /** A document of a collection: its `_id` and the rest of its keys. */
  datatype Doc<B> = Doc(id: ObjectId, body: B)

  /** `dinossauros` */
  datatype Dinosaur = Dinosaur(
    nomePopular: Field<string>,
    nomeCientifico: Field<string>,
    significadoNome: Field<string>,
    alturaMediaM: Field<real>,
    comprimentoMedioM: Field<real>,
    pesoMedioKg: Field<real>,
    imagem: Field<string>,
    idDieta: Field<ObjectId>,
    idPeriodo: Field<ObjectId>)

  /** `tipos_alimentacao` */
  datatype Diet = Diet(nomeDieta: Field<string>)

  /** `periodos_geologicos` */
  datatype Period = Period(
    nomePeriodo: Field<string>,
    maInicio: Field<real>,
    maFim: Field<real>,
    clima: Field<string>)

  /** `fosseis` */
  datatype Fossil = Fossil(
    codigo: Field<string>,
    dataDescoberta: Field<Date>,
    idDinossauro: Field<ObjectId>,
    idLocalizacaoDescoberta: Field<ObjectId>,
    idDescobridor: Field<ObjectId>,
    idMuseu: Field<ObjectId>)

  /** `localizacoes` */
  datatype Location = Location(cidade: Field<string>, estado: Field<string>, pais: Field<string>)

  /** `descobridores` */
  datatype Discoverer = Discoverer(nomeDescobridor: Field<string>)

  /** `museus` */
  datatype Museum = Museum(nomeMuseu: Field<string>, cidadeMuseu: Field<string>, paisMuseu: Field<string>)

  /** `ossos` */
  datatype Bone = Bone(idFossil: Field<ObjectId>, nomeParte: Field<string>)

  /** The database behind a connected handle. */
  datatype Store = Store(
    dinossauros: seq<Doc<Dinosaur>>,
    tiposAlimentacao: seq<Doc<Diet>>,
    periodosGeologicos: seq<Doc<Period>>,
    fosseis: seq<Doc<Fossil>>,
    localizacoes: seq<Doc<Location>>,
    descobridores: seq<Doc<Discoverer>>,
    museus: seq<Doc<Museum>>,
    ossos: seq<Doc<Bone>>)

  /** The store keeps `_id` unique within a collection. */
  predicate UniqueIds<B>(coll: seq<Doc<B>>) {
    forall i, j :: 0 <= i < j < |coll| ==> coll[i].id != coll[j].id
  }

  predicate ValidStore(s: Store) {
    && UniqueIds(s.dinossauros)
    && UniqueIds(s.tiposAlimentacao)
    && UniqueIds(s.periodosGeologicos)
    && UniqueIds(s.fosseis)
    && UniqueIds(s.localizacoes)
    && UniqueIds(s.descobridores)
    && UniqueIds(s.museus)
    && UniqueIds(s.ossos)
  }
}
