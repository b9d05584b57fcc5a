/**
 * The data side of `create_dinosaur_selector`: the name-to-id dictionary
 * built from the name index, and the sorted list of names offered for
 * selection. Python's `sorted` raises `TypeError` as soon as it has to
 * compare `None` (a name stored as null) with anything.
 */
module Selector {
  import opened Wrappers
  import opened StringOrder
  import opened NameIndex

  type Name = Option<string>

  datatype Selection =
    | NoDinosaurs
    | Unsortable
    | Offered(dinoDict: map<Name, string>, sortedNames: seq<Name>)

  /** `{d["nome_popular"]: d["id_dinossauro"] for d in dinos}`: a later entry overwrites an earlier one. */
  function DinoDict(dinos: seq<NameEntry>): map<Name, string> {
    if dinos == [] then map[]
    else DinoDict(dinos[..|dinos| - 1])[dinos[|dinos| - 1].nomePopular := dinos[|dinos| - 1].idDinossauro]
  }

  /** The dictionary's keys in their insertion order: each name at its first occurrence. */
  function DictKeys(dinos: seq<NameEntry>): (keys: seq<Name>)
    ensures forall i, j :: 0 <= i < j < |keys| ==> keys[i] != keys[j]
    ensures forall n :: n in keys <==> exists i :: 0 <= i < |dinos| && dinos[i].nomePopular == n
  {
    if dinos == [] then []
    else
      var ks := DictKeys(dinos[..|dinos| - 1]);
      var n := dinos[|dinos| - 1].nomePopular;
      assert forall i :: 0 <= i < |dinos| - 1 ==> dinos[..|dinos| - 1][i] == dinos[i];
      if n in ks then ks else ks + [n]
  }

  /** Whether `sorted` can order these names: it compares only when there are two or more. */
  predicate Comparable(names: seq<Name>) {
    |names| <= 1 || forall i :: 0 <= i < |names| ==> names[i].Some?
  }

  predicate Ascending(names: seq<Name>) {
    forall i, j :: 0 <= i < j < |names| ==>
      names[i].Some? && names[j].Some? && AtMost(names[i].value, names[j].value)
  }

  predicate StrictlyAscending(names: seq<Name>) {
    forall i, j :: 0 <= i < j < |names| ==>
      names[i].Some? && names[j].Some? && Below(names[i].value, names[j].value)
  }

  predicate AllNamed(names: seq<Name>) {
    forall i :: 0 <= i < |names| ==> names[i].Some?
  }

  /** A name no later than the head of an ascending list is no later than any of its names. */
  lemma AtMostHeadAtMostAll(x: string, s: seq<Name>)
    requires s != [] && AllNamed(s) && Ascending(s) && AtMost(x, s[0].value)
    ensures forall j :: 0 <= j < |s| ==> AtMost(x, s[j].value)
  {
    forall j | 0 <= j < |s| ensures AtMost(x, s[j].value) {
      if j > 0 {
        AtMostTransitive(x, s[0].value, s[j].value);
      }
    }
  }

  /** Every name of `rest`, a reordering of `s[1..]` plus `x`, comes no earlier than `s[0]`. */
  lemma HeadAtMostRest(x: Name, s: seq<Name>, rest: seq<Name>)
    requires s != [] && AllNamed(s) && Ascending(s) && x.Some? && AtMost(s[0].value, x.value)
    requires multiset(rest) == multiset(s[1..]) + multiset{x}
    ensures forall j :: 0 <= j < |rest| ==> rest[j].Some? && AtMost(s[0].value, rest[j].value)
  {
    forall j | 0 <= j < |rest| ensures rest[j].Some? && AtMost(s[0].value, rest[j].value) {
      assert rest[j] in multiset(rest);
      if rest[j] != x {
        assert rest[j] in s[1..];
        var k :| 0 <= k < |s[1..]| && s[1..][k] == rest[j];
        assert s[k + 1] == rest[j];
      }
    }
  }

  function Insert(x: Name, s: seq<Name>): (r: seq<Name>)
    requires x.Some? && AllNamed(s) && Ascending(s)
    ensures AllNamed(r) && Ascending(r)
    ensures multiset(r) == multiset(s) + multiset{x}
  {
    if s == [] then [x]
    else if AtMost(x.value, s[0].value) then
      AtMostHeadAtMostAll(x.value, s);
      [x] + s
    else
      BelowTotal(x.value, s[0].value);
      var rest := Insert(x, s[1..]);
      assert s == [s[0]] + s[1..];
      HeadAtMostRest(x, s, rest);
      [s[0]] + rest
  }

  /** `sorted(names)`, by insertion. */
  function SortNames(names: seq<Name>): (r: seq<Name>)
    requires Comparable(names)
    ensures Ascending(r)
    ensures multiset(r) == multiset(names)
  {
    if |names| <= 1 then names
    else
      assert names == [names[0]] + names[1..];
      Insert(names[0], SortNames(names[1..]))
  }

  /** The selector's data: nothing to offer, the `TypeError` of `sorted`, or the dictionary and its sorted keys. */
  function CreateSelector(dinos: seq<NameEntry>): Selection {
    if dinos == [] then NoDinosaurs
    else
      var keys := DictKeys(dinos);
      if Comparable(keys) then Offered(DinoDict(dinos), SortNames(keys)) else Unsortable
  }

  /** `dino_dict.get(selected_name)` */
  function SelectedId(dinoDict: map<Name, string>, selected: Name): Option<string> {
    if selected in dinoDict then Some(dinoDict[selected]) else None
  }

  // ---------------------------------------------------------------------

  /** The dictionary has a key for exactly the names that occur. */
  lemma {:induction false} DinoDictKeys(dinos: seq<NameEntry>)
    ensures forall n :: n in DinoDict(dinos) <==> n in DictKeys(dinos)
  {
    if dinos != [] {
      var init := dinos[..|dinos| - 1];
      DinoDictKeys(init);
      assert forall i :: 0 <= i < |init| ==> init[i] == dinos[i];
    }
  }

  /** A name maps to the id of its last occurrence. */
  lemma {:induction false} DinoDictLastWins(dinos: seq<NameEntry>, i: nat)
    requires i < |dinos|
    requires forall j :: i < j < |dinos| ==> dinos[j].nomePopular != dinos[i].nomePopular
    ensures dinos[i].nomePopular in DinoDict(dinos)
    ensures DinoDict(dinos)[dinos[i].nomePopular] == dinos[i].idDinossauro
  {
    if i < |dinos| - 1 {
      var init := dinos[..|dinos| - 1];
      assert init[i] == dinos[i];
      DinoDictLastWins(init, i);
    }
  }

  /** Two strictly ascending lists of the same names are the same list: `sorted` has one answer. */
  lemma {:induction false} StrictlyAscendingUnique(a: seq<Name>, b: seq<Name>)
    requires StrictlyAscending(a) && StrictlyAscending(b)
    requires forall n :: n in a <==> n in b
    ensures a == b
  {
    assert a != [] ==> a[0] in b;
    assert b != [] ==> b[0] in a;
    if a != [] && b != [] {
      assert a[0] == b[0] by {
        if a[0] != b[0] {
          assert a[0] in b && b[0] in a;
          var p :| 0 <= p < |b| && b[p] == a[0];
          var q :| 0 <= q < |a| && a[q] == b[0];
          assert Below(b[0].value, a[0].value);
          assert Below(a[0].value, b[0].value);
          BelowAsymmetric(a[0].value, b[0].value);
        }
      }
      forall n ensures n in a[1..] <==> n in b[1..] {
        if n in a[1..] {
          var p :| 1 <= p < |a| && a[p] == n;
          assert n != a[0] by { BelowAsymmetric(a[0].value, a[p].value); }
          assert n in b;
        }
        if n in b[1..] {
          var p :| 1 <= p < |b| && b[p] == n;
          assert n != b[0] by { BelowAsymmetric(b[0].value, b[p].value); }
          assert n in a;
        }
      }
      StrictlyAscendingUnique(a[1..], b[1..]);
      assert a == [a[0]] + a[1..] && b == [b[0]] + b[1..];
    }
  }

  /** A reordering of a duplicate-free list is duplicate-free. */
  lemma PermutationKeepsDistinct(keys: seq<Name>, names: seq<Name>)
    requires forall i, j :: 0 <= i < j < |keys| ==> keys[i] != keys[j]
    requires multiset(names) == multiset(keys)
    ensures forall i, j :: 0 <= i < j < |names| ==> names[i] != names[j]
  {
    forall i, j | 0 <= i < j < |names| ensures names[i] != names[j] {
      if names[i] == names[j] {
        DistinctCountsOnce(keys, names[i]);
        TwiceCountsTwice(names, i, j);
      }
    }
  }

  /** Sorting duplicate-free names gives the same names, each once, strictly ascending. */
  lemma SortDistinct(keys: seq<Name>)
    requires Comparable(keys)
    requires forall i, j :: 0 <= i < j < |keys| ==> keys[i] != keys[j]
    ensures var names := SortNames(keys);
      && (forall n :: n in names <==> n in keys)
      && (forall i, j :: 0 <= i < j < |names| ==> names[i] != names[j])
      && StrictlyAscending(names)
  {
    var names := SortNames(keys);
    forall n ensures n in names <==> n in keys {
      assert n in names <==> n in multiset(names);
    }
    PermutationKeepsDistinct(keys, names);
    forall i, j | 0 <= i < j < |names| ensures names[i].Some? && names[j].Some? && Below(names[i].value, names[j].value) {
      assert names[i] != names[j];
    }
  }

  /**
   * When names can be sorted, the offered list holds every name of the
   * index once, in strictly ascending order (a lone null name is offered as
   * itself), and selecting any offered name yields the id of that name's
   * last occurrence in the index.
   */
  lemma SelectorOffers(dinos: seq<NameEntry>)
    requires CreateSelector(dinos).Offered?
    ensures var sel := CreateSelector(dinos);
      && (forall n :: n in sel.sortedNames <==> exists i :: 0 <= i < |dinos| && dinos[i].nomePopular == n)
      && (forall i, j :: 0 <= i < j < |sel.sortedNames| ==> sel.sortedNames[i] != sel.sortedNames[j])
      && (|sel.sortedNames| >= 2 ==> StrictlyAscending(sel.sortedNames))
    ensures forall i :: 0 <= i < |dinos| && (forall j :: i < j < |dinos| ==> dinos[j].nomePopular != dinos[i].nomePopular) ==>
      SelectedId(CreateSelector(dinos).dinoDict, dinos[i].nomePopular) == Some(dinos[i].idDinossauro)
  {
    var keys := DictKeys(dinos);
    assert CreateSelector(dinos) == Offered(DinoDict(dinos), SortNames(keys));
    DinoDictKeys(dinos);
    SortDistinct(keys);
    forall i | 0 <= i < |dinos| && (forall j :: i < j < |dinos| ==> dinos[j].nomePopular != dinos[i].nomePopular)
      ensures SelectedId(DinoDict(dinos), dinos[i].nomePopular) == Some(dinos[i].idDinossauro)
    {
      DinoDictLastWins(dinos, i);
    }
  }

  lemma {:induction false} DistinctCountsOnce(s: seq<Name>, x: Name)
    requires forall i, j :: 0 <= i < j < |s| ==> s[i] != s[j]
    ensures multiset(s)[x] <= 1
  {
    if s != [] {
      assert s == [s[0]] + s[1..];
      DistinctCountsOnce(s[1..], x);
      if s[0] == x {
        assert x !in s[1..];
      }
    }
  }

  /** `sorted` fails exactly when a null name sits in the index beside some other name. */
  lemma SelectorUnsortable(dinos: seq<NameEntry>)
    ensures CreateSelector(dinos) == Unsortable <==>
      (exists i :: 0 <= i < |dinos| && dinos[i].nomePopular == None)
      && (exists j :: 0 <= j < |dinos| && dinos[j].nomePopular.Some?)
  {
    if dinos != [] {
      var keys := DictKeys(dinos);
      if !Comparable(keys) {
        var k :| 0 <= k < |keys| && keys[k].None?;
        var other := if k == 0 then 1 else 0;
        assert keys[other] != keys[k];
        assert keys[k] in keys && keys[other] in keys;
      }
      if (exists i :: 0 <= i < |dinos| && dinos[i].nomePopular == None)
         && (exists j :: 0 <= j < |dinos| && dinos[j].nomePopular.Some?)
      {
        var i :| 0 <= i < |dinos| && dinos[i].nomePopular == None;
        var j :| 0 <= j < |dinos| && dinos[j].nomePopular.Some?;
        assert dinos[i].nomePopular in keys && dinos[j].nomePopular in keys;
        var p :| 0 <= p < |keys| && keys[p] == None;
        var q :| 0 <= q < |keys| && keys[q] == dinos[j].nomePopular;
        assert p != q && |keys| >= 2 && keys[p].None?;
        assert !Comparable(keys);
      }
    }
  }
}
