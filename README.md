# Dinossauros: the data path of the dashboard, in Dafny

This project models the data side of `dinossauro.py`, a Streamlit dashboard
over a MongoDB database of dinosaurs. It covers three parts:

- **Name index** (`get_dinosaur_names`): one `{id_dinossauro, nome_popular}` entry per
  dinosaur document, in the store's name order. A missing name becomes `Desconhecido`.
  Without a database handle the list is empty.
- **Entity hydration** (`get_dinosaur_by_id`): the handle and ObjectId guards, then the
  aggregation pipeline. The pipeline does a `$match` on `_id`, then `$lookup` + `$unwind`
  with `preserveNullAndEmptyArrays` for the diet and the period. A correlated sub-pipeline
  gathers the fossils, each left-joined with its location, discoverer and museum and
  given its bones. The first result is then shaped into the flat record.
- **Selector data** (`create_dinosaur_selector`): the name-to-id dictionary (the last
  occurrence of a name wins) and `sorted` over its keys.

Modules, one per component:

- `Wrappers`: `Option`, for the places the code yields Python's `None`.
- `ObjectIds`: twelve-byte ids, `str(oid)` as lower-case hex, and `ObjectId(s)` parsing.
- `Dates`: `strftime('%Y-%m-%d')` and a reader for it.
- `Documents`: the eight collections. Every optional key is a `Field`: `Missing`, `Null`
  or `Val(v)`. This matters because `dict.get(k, default)` returns the default only
  for an absent key; a key stored as null gives `None`.
- `Pipeline`: the aggregation as functions over sequences in store order. A reference
  definition (`JoinDino`, `JoinFossil`) resolves each link directly by `_id` and takes the
  fossils and bones directly by their reference field, with no pipeline stage. Lemmas show
  that with unique `_id`s the staged pipeline equals that reference definition.
- `Shaping`: `dinosaur_dict` and `fossil_dict`. `ShapeDinosaur` is the appending loop.
- `Hydration`: `get_dinosaur_by_id`. Its side effects (showing an error, querying the store)
  are returned as a trace of `Effect`s.
- `NameIndex`: `get_dinosaur_names` with its loop. The store's sorted `find` is a parameter
  (`cursor`) constrained by `SortedFind`.
- `StringOrder`, `Selector`: Python's string order, the dictionary, and `sorted`.

Three behaviours of the code worth noting:

- Missing location and museum fields, and the period's `ma_inicio`, `ma_fim` and `clima`,
  become `None`, not an "unknown" marker. Only `nome_dieta`, `nome_periodo` and
  `nome_descobridor` default to `Desconhecido`.
- The name index is guaranteed to be in display-name order only when every dinosaur has a stored
  name. Otherwise the store sorts absent and null names first; their entries read `Desconhecido` or
  `None`, come before every stored name, and need not be in display order.
- An invalid identifier and a missing dinosaur both return `None`. Only the shown error
  differs (`Reply.effects`).

## Model

| member | source | states |
|---|---|---|
| `ObjectIds.ParseAccepts` | dinossauro.py:72-76 | `ObjectId(s)` succeeds exactly on strings of 24 hexadecimal digits; anything else is the invalid-identifier path |
| `ObjectIds.ParseStr` | dinossauro.py:64 | every id written out by `str` parses back to the same id |
| `ObjectIds.StrParse` | dinossauro.py:73 | a parsed id is written back by `str` as the supplied digits, lower-cased |
| `ObjectIds.StrInjective` | dinossauro.py:64 | distinct ids have distinct string forms |
| `Dates.FormatDate` | dinossauro.py:186 | a discovery date is written as ten characters `YYYY-MM-DD`: digits with dashes at positions 4 and 7 |
| `Dates.FormatDateRoundTrip` | dinossauro.py:186 | the written date reads back as the same year, month and day (zero-padded month and day, four-digit year) |
| `Pipeline.MatchId` | dinossauro.py:79 | `$match` on `_id` keeps exactly the documents with that id, in store order |
| `Pipeline.FindById` | dinossauro.py:82-88 | the single-document view of a lookup: something is found exactly when some document has the id |
| `Pipeline.UnwindLookupUnique` | dinossauro.py:81-89 | with unique ids, a lookup followed by a preserving unwind gives exactly one value: the match, or absent |
| `Pipeline.LookupUnwindUnique` | dinossauro.py:81-99 | with unique ids, every lookup-and-unwind stage maps each row to exactly one row holding the resolved link |
| `Pipeline.LookupUnwindKeepsRows` | dinossauro.py:89 | `preserveNullAndEmptyArrays` never drops a row, whatever the ids: every input row appears in the output with its first unwound value (`None` when nothing matched), so the output is never shorter |
| `Pipeline.FossilsOf` | dinossauro.py:104-106 | the correlated match keeps exactly the fossils whose `id_dinossauro` is the dinosaur's `_id`, in store order |
| `Pipeline.BonesOf` | dinossauro.py:138-145 | the bone lookup gathers exactly the bones whose `id_fossil` is the fossil's `_id`, in store order |
| `Pipeline.FossilSubPipelineRows` | dinossauro.py:101-149 | with unique ids, `lista_fosseis` has one row per fossil of the dinosaur, in order, each joined with its location, discoverer, museum and bones |
| `Pipeline.AggregateRows` | dinossauro.py:78-152 | with unique ids, the aggregation returns nothing when no dinosaur has the id, and otherwise exactly one document: that dinosaur left-joined with diet and period, plus its fossils |
| `Pipeline.AggregateNonEmpty` | dinossauro.py:79-99 | whatever the ids, the aggregation returns something exactly when a dinosaur has the id; missing diets or periods never drop it |
| `Shaping.DateText` | dinossauro.py:186 | a present date becomes its `YYYY-MM-DD` text (which reads back as that date); an absent or null date becomes `N/A` |
| `Shaping.ShapeFossil` | dinossauro.py:183-200 | `codigo` is the stored code or `None`; a missing discoverer or discoverer name key gives `Desconhecido`, a null name `None`, a stored name itself; each location and museum field is the stored value, or `None` when the linked document, its key or its value is missing; date text as above; `ossos` has one entry per bone in order, `Some(name)` exactly for stored names |
| `Shaping.Header` | dinossauro.py:161-179 | `id` is `str(_id)`; the plain fields are the stored values or `None`; for the diet and for the period alike, a missing document or name key gives `Desconhecido`, a null name `None`, a stored name itself; `ma_inicio`, `ma_fim` and `clima` are the stored values of a present period, else `None`; a missing weight becomes exactly 0 and a present one is kept; the fossil list starts empty |
| `Shaping.ShapeDinosaur` | dinossauro.py:178-203 | the loop appends one shaped fossil per joined fossil, in order, to the header record |
| `Hydration.GetDinosaurById` | dinossauro.py:69-157 | no handle: `None` with no effect; unparsable id: `None`, the error shown, no query; otherwise exactly one aggregation and the hydrated record or `None` |
| `Hydration.HydrateFoundIff` | dinossauro.py:152-157 | a well-formed id yields a record exactly when some dinosaur has that `_id` |
| `Hydration.AnswerableJoined` | dinossauro.py:152-157 | with unique ids, the aggregation's answer for a dinosaur can be shaped without an exception exactly when that dinosaur joined directly with its links can |
| `Hydration.ConformingShapeable` | dinossauro.py:166-201 | when every document carries a non-null weight, four-digit discovery years and a `nome_parte` on every bone, every dinosaur's joined document can be shaped |
| `Hydration.ConformingAnswerable` | dinossauro.py:166-201 | in such a store with unique ids, the shaping never raises, whatever id is asked for |
| `Hydration.HydrateRecord` | dinossauro.py:157-179 | with unique ids, whenever the answer can be shaped, the record is the shaping of the dinosaur joined directly with its diet, period and fossils; its `id` is `str` of that `_id` |
| `Hydration.JoinedFossils` | dinossauro.py:182-201 | the shaped fossil list of the directly joined dinosaur has one shaped fossil per fossil document of it, in store order |
| `Hydration.HydrateFossils` | dinossauro.py:182-201 | with unique ids, whenever the answer can be shaped, `fossil` has one entry per fossil document of the dinosaur, in store order, each with as many `ossos` as that fossil has bones; with no fossil it is `[]` |
| `Hydration.HydrateIdRoundTrip` | dinossauro.py:162 | the record's `id` is the supplied identifier lower-cased, so an id from the name index comes back unchanged |
| `NameIndex.GetDinosaurNames` | dinossauro.py:55-67 | given the store's sorted cursor: no handle gives `[]`; otherwise one entry per cursor document, in cursor order, with `str(_id)` and the name or `Desconhecido` |
| `NameIndex.PermutationKeepsUniqueIds` | dinossauro.py:59 | the sorted cursor, being a reordering of the collection, keeps ids unique |
| `NameIndex.NameIndexIdsDistinct` | dinossauro.py:59-66 | the index has one entry per dinosaur document, and distinct documents get distinct identifiers |
| `NameIndex.NameIndexSorted` | dinossauro.py:59-66 | when every dinosaur has a stored name, the entries are in ascending display-name order |
| `StringOrder.BelowTransitive` | dinossauro.py:218 | the string order `sorted` uses is transitive |
| `StringOrder.BelowTotal` | dinossauro.py:218 | any two distinct strings are ordered one way or the other |
| `Selector.DictKeys` | dinossauro.py:217 | the dictionary's keys are duplicate-free and are exactly the names in the index |
| `Selector.DinoDictKeys` | dinossauro.py:217 | the dictionary has a key for exactly the names that occur |
| `Selector.DinoDictLastWins` | dinossauro.py:217 | when names repeat, a name maps to the id of its last occurrence |
| `Selector.SortNames` | dinossauro.py:218 | `sorted` returns the same names, in ascending order |
| `Selector.SortDistinct` | dinossauro.py:218 | sorting the dictionary's (duplicate-free) keys gives the same names, each once, in strictly ascending order |
| `Selector.StrictlyAscendingUnique` | dinossauro.py:218 | two strictly ascending lists of the same names are equal, so the sorted list is determined |
| `Selector.SelectorOffers` | dinossauro.py:213-221 | the offered names are every name of the index once, strictly ascending, and selecting one yields the id of its last occurrence |
| `Selector.SelectorUnsortable` | dinossauro.py:217-218 | `sorted` raises exactly when a null name and a stored name are both in the index |

## Left out

- `init_connection` (dinossauro.py:25-49): reading `.env`, TLS setup, `MongoClient`, the ping and the
  `st.cache_resource` cache are I/O and configuration. The handle is modelled only as present (`Some(store)`) or absent.
- The MongoDB server and driver: only the `$match`, `$lookup` and `$unwind` semantics the pipeline literal asks
  for are modelled, over sequences in natural order. Driver exceptions during the round trip are not modelled.
- The store-side `.sort("nome_popular", 1)`: its result is the `cursor` parameter of `GetDinosaurNames`. The method
  requires, and the lemmas take as a hypothesis, that it is a reordering of the collection in BSON name order (`SortedFind`).
- The bson library is not part of this model: `ObjectId(s)` is modelled as accepting exactly 24 hexadecimal digits in
  either case. Other argument types and other tolerances of the library are not modelled. In particular, a
  24-character string is handed to `bytes.fromhex`, which skips ASCII whitespace between digit pairs. So a
  string such as `"0102030405060708090a0b  "` is not rejected there, whereas `Parse` rejects it.
- Reference fields holding something other than an ObjectId (a string, an array) are not modelled; the type of `Field<ObjectId>` excludes them.
- Values are typed: names and codes are strings, measures are `real`, dates are `(year, month, day)`. The time of day of
  a BSON date is dropped, because `%Y-%m-%d` ignores it.
- Shaping.Header: requires that `peso_medio_kg` is not stored as null, because `float(None)` raises in the source. The
  numeric detail of `float` (rounding of very large integers, parsing of numeric strings) is not modelled.
- Shaping.ShapeFossil: requires every present discovery date to have a four-digit year, because `%Y` padding of other
  years is platform-dependent. It also requires every joined bone to have a `nome_parte` key, because `o["nome_parte"]`
  raises `KeyError` otherwise.
- Hydration.GetDinosaurById: requires that the first aggregation result meets the two preconditions above; the
  source's exceptions in those cases are not modelled.
- `create_dinosaur_selector`'s sidebar widgets, the choice made in the select box (a parameter of `SelectedId`), `main`,
  `plot_peso_comparativo` and all rendering are UI.
- The geocoding loop (dinossauro.py:314-351): Nominatim network calls and printed exceptions are network I/O.
