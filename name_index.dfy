/**
 * `get_dinosaur_names`: the identifier and display name of every dinosaur,
 * in the order the store's sorted `find` returns them.
 */
module NameIndex {
  import opened Wrappers
  import opened ObjectIds
  import opened Documents
  import opened Shaping
  import opened StringOrder

  datatype NameEntry = NameEntry(idDinossauro: string, nomePopular: Option<string>)

  /** The entry appended for one document of the cursor. */
  function Entry(d: Doc<Dinosaur>): NameEntry {
    NameEntry(Str(d.id), GetDefault(d.body.nomePopular, Unknown))
  }

  /** BSON ascending order on `nome_popular`: absent and null keys first, then strings. */
  predicate NameKeyAtMost(a: Field<string>, b: Field<string>) {
    !a.Val? || (b.Val? && AtMost(a.value, b.value))
  }

  /** What the store's sorted `find` returns: every dinosaur once, in name order. */
  predicate SortedFind(coll: seq<Doc<Dinosaur>>, cursor: seq<Doc<Dinosaur>>) {
    && multiset(cursor) == multiset(coll)
    && forall i, j :: 0 <= i < j < |cursor| ==> NameKeyAtMost(cursor[i].body.nomePopular, cursor[j].body.nomePopular)
  }

  /**
   * Builds the list by appending one entry per document of `cursor`, the
   * documents the store returns for `find({}, ...).sort("nome_popular", 1)`
   * (every dinosaur once, in name order: `SortedFind`);
   * without a database handle the list is empty.
   */
  method GetDinosaurNames(db: Option<Store>, cursor: seq<Doc<Dinosaur>>) returns (listaDinos: seq<NameEntry>)
    requires db.Some? ==> SortedFind(db.value.dinossauros, cursor)
    ensures db.None? ==> listaDinos == []
    ensures db.Some? ==> |listaDinos| == |cursor|
    ensures db.Some? ==> forall i :: 0 <= i < |cursor| ==>
      && listaDinos[i].idDinossauro == Str(cursor[i].id)
      && listaDinos[i].nomePopular == GetDefault(cursor[i].body.nomePopular, Unknown)
  {
    if db.None? {
      return [];
    }
    listaDinos := [];
    var i := 0;
    while i < |cursor|
      invariant 0 <= i <= |cursor|
      invariant |listaDinos| == i
      invariant forall k :: 0 <= k < i ==> listaDinos[k] == Entry(cursor[k])
    {
      listaDinos := listaDinos + [Entry(cursor[i])];
      i := i + 1;
    }
  }

  lemma {:induction false} UniqueIdsAtMostOnce(coll: seq<Doc<Dinosaur>>, x: Doc<Dinosaur>)
    requires UniqueIds(coll)
    ensures multiset(coll)[x] <= 1
  {
    if coll != [] {
      assert coll == [coll[0]] + coll[1..];
      assert UniqueIds(coll[1..]) by {
        forall i, j | 0 <= i < j < |coll[1..]| ensures coll[1..][i].id != coll[1..][j].id {
          assert coll[1..][i] == coll[i + 1] && coll[1..][j] == coll[j + 1];
        }
      }
      UniqueIdsAtMostOnce(coll[1..], x);
      if coll[0] == x {
        assert x !in coll[1..] by {
          forall k | 0 <= k < |coll[1..]| ensures coll[1..][k] != x {
            assert coll[1..][k] == coll[k + 1];
          }
        }
      }
    }
  }

  lemma TwiceCountsTwice<T>(s: seq<T>, i: nat, j: nat)
    requires i < j < |s| && s[i] == s[j]
    ensures multiset(s)[s[i]] >= 2
  {
    assert s == s[..j] + s[j..];
    assert s[i] in s[..j];
    assert s[j] in s[j..];
  }

  /** A permutation of a collection with unique ids has unique ids. */
  lemma PermutationKeepsUniqueIds(coll: seq<Doc<Dinosaur>>, cursor: seq<Doc<Dinosaur>>)
    requires UniqueIds(coll) && multiset(cursor) == multiset(coll)
    ensures UniqueIds(cursor)
  {
    forall i, j | 0 <= i < j < |cursor| ensures cursor[i].id != cursor[j].id {
      if cursor[i] == cursor[j] {
        TwiceCountsTwice(cursor, i, j);
        UniqueIdsAtMostOnce(coll, cursor[i]);
      } else {
        assert cursor[i] in multiset(coll) && cursor[j] in multiset(coll);
        var p :| 0 <= p < |coll| && coll[p] == cursor[i];
        var q :| 0 <= q < |coll| && coll[q] == cursor[j];
        assert p != q;
      }
    }
  }

  /**
   * The index has one entry per dinosaur document, and distinct documents
   * get distinct identifiers.
   */
  lemma NameIndexIdsDistinct(coll: seq<Doc<Dinosaur>>, cursor: seq<Doc<Dinosaur>>)
    requires UniqueIds(coll) && SortedFind(coll, cursor)
    ensures |cursor| == |coll|
    ensures forall i, j :: 0 <= i < j < |cursor| ==> Entry(cursor[i]).idDinossauro != Entry(cursor[j]).idDinossauro
  {
    assert |multiset(cursor)| == |multiset(coll)|;
    PermutationKeepsUniqueIds(coll, cursor);
    forall i, j | 0 <= i < j < |cursor|
      ensures Entry(cursor[i]).idDinossauro != Entry(cursor[j]).idDinossauro
    {
      if Str(cursor[i].id) == Str(cursor[j].id) {
        StrInjective(cursor[i].id, cursor[j].id);
      }
    }
  }

  /** `a` has a display name that sorts no later than `b`'s. */
  predicate DisplayAtMost(a: NameEntry, b: NameEntry) {
    a.nomePopular.Some? && b.nomePopular.Some? && AtMost(a.nomePopular.value, b.nomePopular.value)
  }

  /**
   * When every dinosaur has a stored name, the index is in ascending order
   * of display name. (Absent and null names sort first in the store, so the
   * `Desconhecido` and `None` entries they produce come before every stored name.)
   */
  lemma NameIndexSorted(coll: seq<Doc<Dinosaur>>, cursor: seq<Doc<Dinosaur>>)
    requires SortedFind(coll, cursor)
    requires forall i :: 0 <= i < |cursor| ==> cursor[i].body.nomePopular.Val?
    ensures forall i, j :: 0 <= i < j < |cursor| ==> DisplayAtMost(Entry(cursor[i]), Entry(cursor[j]))
  {
    forall i, j | 0 <= i < j < |cursor|
      ensures DisplayAtMost(Entry(cursor[i]), Entry(cursor[j]))
    {
      assert NameKeyAtMost(cursor[i].body.nomePopular, cursor[j].body.nomePopular);
      assert Entry(cursor[i]).nomePopular == Some(cursor[i].body.nomePopular.value);
      assert Entry(cursor[j]).nomePopular == Some(cursor[j].body.nomePopular.value);
    }
  }
}
