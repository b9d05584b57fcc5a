/**
 * The mapping of the joined document onto the flat record the dashboard
 * renders: `.get` defaults, the weight coercion, the date rendering and the
 * reduction of each bone to its part name.
 */
module Shaping {
  import opened Wrappers
  import opened ObjectIds
  import opened Dates
  import opened Documents
  import opened Pipeline

  /** The marker for a missing linked name. */
  const Unknown := "Desconhecido"
  /** The marker for a missing discovery date. */
  const NotAvailable := "N/A"

  datatype Place = Place(cidade: Option<string>, estado: Option<string>, pais: Option<string>)

  datatype MuseumInfo = MuseumInfo(nome: Option<string>, cidade: Option<string>, pais: Option<string>)

  datatype FossilRecord = FossilRecord(
    codigo: Option<string>,
    dataDescoberta: string,
    nomeDescobridor: Option<string>,
    localDescoberta: Place,
    museu: MuseumInfo,
    ossos: seq<Option<string>>)

  datatype DinosaurRecord = DinosaurRecord(
    id: string,
    nomePopular: Option<string>,
    nomeCientifico: Option<string>,
    significadoNome: Option<string>,
    alturaMediaM: Option<real>,
    comprimentoMedioM: Option<real>,
    pesoMedioKg: real,
    imagem: Option<string>,
    nomeDieta: Option<string>,
    nomePeriodo: Option<string>,
    maInicio: Option<real>,
    maFim: Option<real>,
    clima: Option<string>,
    fossil: seq<FossilRecord>)

  /** `doc.get(key)`: absent and null both give `None`. */
  function Get<T>(f: Field<T>): Option<T> {
    match f
    case Val(v) => Some(v)
    case _ => None
  }

  /** `doc.get(key, default)`: only an absent key gives the default; a null gives `None`. */
  function GetDefault(f: Field<string>, default: string): Option<string> {
    match f
    case Missing => Some(default)
    case Null => None
    case Val(v) => Some(v)
  }

  /** `o` is what `.get(key)` reads from `f`: the stored value, or `None` when the key is absent or null. */
  predicate Reads<T(==)>(o: Option<T>, f: Field<T>) {
    && (f.Val? <==> o.Some?)
    && (f.Val? ==> o.value == f.value)
  }

  /** `data.get(link, {})`: the linked document, or the empty document `empty`. */
  function BodyOr<B>(linked: Option<Doc<B>>, empty: B): B {
    match linked
    case Some(d) => d.body
    case None => empty
  }

  const NoDiet := Diet(Missing)
  const NoPeriod := Period(Missing, Missing, Missing, Missing)
  const NoLocation := Location(Missing, Missing, Missing)
  const NoDiscoverer := Discoverer(Missing)
  const NoMuseum := Museum(Missing, Missing, Missing)

  /** What `float` needs: a weight that is absent or present with a number. */
  predicate WeightConvertible(f: Field<real>) {
    !f.Null?
  }

  /** `float(data.get("peso_medio_kg", 0))` */
  function Weight(f: Field<real>): real
    requires WeightConvertible(f)
  {
    match f
    case Val(w) => w
    case _ => 0.0
  }

  /** What `strftime` needs here: a date, if present, whose year has four digits. */
  predicate DateWritable(f: Field<Date>) {
    f.Val? ==> Formattable(f.value)
  }

  /** The discovery date as `YYYY-MM-DD`, or `N/A` when it is absent or null. */
  function DateText(f: Field<Date>): (s: string)
    requires DateWritable(f)
    ensures f.Val? ==> ParseDate(s) == Some(f.value)
    ensures !f.Val? ==> s == NotAvailable
  {
    match f
    case Val(d) => FormatDateRoundTrip(d); FormatDate(d)
    case _ => NotAvailable
  }

  /** What the shaping of one fossil needs: a writable date and a `nome_parte` key on every bone. */
  predicate FossilShapeable(f: FossilRow) {
    && DateWritable(f.fossil.body.dataDescoberta)
    && forall k :: 0 <= k < |f.listaOssosRaw| ==> !f.listaOssosRaw[k].body.nomeParte.Missing?
  }

  predicate Shapeable(row: DinoRow) {
    && WeightConvertible(row.dino.body.pesoMedioKg)
    && forall i :: 0 <= i < |row.listaFosseis| ==> FossilShapeable(row.listaFosseis[i])
  }

  /** `o["nome_parte"]` */
  function PartName(b: Doc<Bone>): Option<string>
    requires !b.body.nomeParte.Missing?
  {
    Get(b.body.nomeParte)
  }

  /**
   * The `fossil_dict` built for one element of `lista_fosseis`. The
   * discoverer name falls back to `Desconhecido` when the discoverer or its
   * name key is missing, and is `None` when the name is stored as null;
   * every location and museum field is the stored value or `None`; a missing
   * date becomes `N/A`; a present date is written so
   * that it reads back as the same day; the bone list has one part name per
   * bone document, in order.
   */
  function ShapeFossil(f: FossilRow): (r: FossilRecord)
    requires FossilShapeable(f)
    ensures Reads(r.codigo, f.fossil.body.codigo)
    ensures f.desc.None? ==> r.nomeDescobridor == Some(Unknown)
    ensures f.desc.Some? ==> match f.desc.value.body.nomeDescobridor
      case Missing => r.nomeDescobridor == Some(Unknown)
      case Null => r.nomeDescobridor == None
      case Val(n) => r.nomeDescobridor == Some(n)
    ensures f.loc.None? ==> r.localDescoberta == Place(None, None, None)
    ensures f.loc.Some? ==>
      && Reads(r.localDescoberta.cidade, f.loc.value.body.cidade)
      && Reads(r.localDescoberta.estado, f.loc.value.body.estado)
      && Reads(r.localDescoberta.pais, f.loc.value.body.pais)
    ensures f.mus.None? ==> r.museu == MuseumInfo(None, None, None)
    ensures f.mus.Some? ==>
      && Reads(r.museu.nome, f.mus.value.body.nomeMuseu)
      && Reads(r.museu.cidade, f.mus.value.body.cidadeMuseu)
      && Reads(r.museu.pais, f.mus.value.body.paisMuseu)
    ensures !f.fossil.body.dataDescoberta.Val? ==> r.dataDescoberta == NotAvailable
    ensures f.fossil.body.dataDescoberta.Val? ==> ParseDate(r.dataDescoberta) == Some(f.fossil.body.dataDescoberta.value)
    ensures |r.ossos| == |f.listaOssosRaw|
    ensures forall k :: 0 <= k < |f.listaOssosRaw| ==> Reads(r.ossos[k], f.listaOssosRaw[k].body.nomeParte)
  {
    var body := f.fossil.body;
    var loc := BodyOr(f.loc, NoLocation);
    var desc := BodyOr(f.desc, NoDiscoverer);
    var mus := BodyOr(f.mus, NoMuseum);
    var bones := f.listaOssosRaw;
    FossilRecord(
      Get(body.codigo),
      DateText(body.dataDescoberta),
      GetDefault(desc.nomeDescobridor, Unknown),
      Place(Get(loc.cidade), Get(loc.estado), Get(loc.pais)),
      MuseumInfo(Get(mus.nomeMuseu), Get(mus.cidadeMuseu), Get(mus.paisMuseu)),
      seq(|bones|, k requires 0 <= k < |bones| => PartName(bones[k])))
  }

  /**
   * The `dinosaur_dict` literal, with its fossil list still empty. Its `id`
   * is the string form of the dinosaur's `_id`; the plain fields are read
   * with `.get`; the diet and period names
   * fall back to `Desconhecido` when the linked document or its name key is
   * missing, and to `None` when the name is stored as null; the other period
   * fields are the stored values or `None`; a missing weight becomes exactly zero and a
   * present one is kept.
   */
  function Header(row: DinoRow): (r: DinosaurRecord)
    requires WeightConvertible(row.dino.body.pesoMedioKg)
    ensures r.id == Str(row.dino.id) && r.fossil == []
    ensures var d := row.dino.body;
      && Reads(r.nomePopular, d.nomePopular)
      && Reads(r.nomeCientifico, d.nomeCientifico)
      && Reads(r.significadoNome, d.significadoNome)
      && Reads(r.alturaMediaM, d.alturaMediaM)
      && Reads(r.comprimentoMedioM, d.comprimentoMedioM)
      && Reads(r.imagem, d.imagem)
    ensures row.dino.body.pesoMedioKg.Missing? ==> r.pesoMedioKg == 0.0
    ensures row.dino.body.pesoMedioKg.Val? ==> r.pesoMedioKg == row.dino.body.pesoMedioKg.value
    ensures row.dietaInfo.None? ==> r.nomeDieta == Some(Unknown)
    ensures row.dietaInfo.Some? ==> match row.dietaInfo.value.body.nomeDieta
      case Missing => r.nomeDieta == Some(Unknown)
      case Null => r.nomeDieta == None
      case Val(n) => r.nomeDieta == Some(n)
    ensures row.periodoInfo.None? ==>
      r.nomePeriodo == Some(Unknown) && r.maInicio == None && r.maFim == None && r.clima == None
    ensures row.periodoInfo.Some? ==> match row.periodoInfo.value.body.nomePeriodo
      case Missing => r.nomePeriodo == Some(Unknown)
      case Null => r.nomePeriodo == None
      case Val(n) => r.nomePeriodo == Some(n)
    ensures row.periodoInfo.Some? ==>
      && Reads(r.maInicio, row.periodoInfo.value.body.maInicio)
      && Reads(r.maFim, row.periodoInfo.value.body.maFim)
      && Reads(r.clima, row.periodoInfo.value.body.clima)
  {
    var d := row.dino.body;
    var diet := BodyOr(row.dietaInfo, NoDiet);
    var period := BodyOr(row.periodoInfo, NoPeriod);
    DinosaurRecord(
      Str(row.dino.id),
      Get(d.nomePopular), Get(d.nomeCientifico), Get(d.significadoNome),
      Get(d.alturaMediaM), Get(d.comprimentoMedioM),
      Weight(d.pesoMedioKg),
      Get(d.imagem),
      GetDefault(diet.nomeDieta, Unknown),
      GetDefault(period.nomePeriodo, Unknown),
      Get(period.maInicio), Get(period.maFim), Get(period.clima),
      [])
  }

  /** The whole record: the header plus one shaped fossil per joined fossil, in order. */
  function Shape(row: DinoRow): DinosaurRecord
    requires Shapeable(row)
  {
    var fs := row.listaFosseis;
    Header(row).(fossil := seq(|fs|, i requires 0 <= i < |fs| => ShapeFossil(fs[i])))
  }

  /** Builds the record and appends the fossils one by one, as the source's loop does. */
  method ShapeDinosaur(row: DinoRow) returns (rec: DinosaurRecord)
    requires Shapeable(row)
    ensures rec == Shape(row)
  {
    var fs := row.listaFosseis;
    rec := Header(row);
    var i := 0;
    while i < |fs|
      invariant 0 <= i <= |fs|
      invariant rec == Header(row).(fossil := rec.fossil)
      invariant |rec.fossil| == i
      invariant forall k :: 0 <= k < i ==> rec.fossil[k] == ShapeFossil(fs[k])
    {
      var fossilDict := ShapeFossil(fs[i]);
      rec := rec.(fossil := rec.fossil + [fossilDict]);
      i := i + 1;
    }
    assert rec.fossil == Shape(row).fossil;
  }
}
