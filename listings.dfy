/**
 * The two views `ModelManager` builds over the downloader's listing: the
 * model list that adds the registry models not on disk
 * (`list_available_models`), and the by-name table of downloaded models
 * (`downloaded_models`).
 */
module Listings {
  import opened Seqs
  import opened Storage

  /** One entry of the manager's model list: a listed local model, relabelled
      `downloaded`, or a registry model with status `not_downloaded`. */
  datatype ModelItem = Present(entry: LocalEntry) | Missing(name: string, weightType: string)

  function NameOf(a: ModelItem): string {
    if a.Present? then a.entry.name else a.name
  }

  /** The downloaded part: every listed entry, relabelled. */
  function Relabelled(listing: seq<LocalEntry>): (r: seq<ModelItem>)
    ensures |r| == |listing|
    decreases |listing|
  {
    if listing == [] then []
    else Relabelled(listing[..|listing| - 1]) + [Present(listing[|listing| - 1].(status := "downloaded"))]
  }

  /** The registry part: each name no listed entry has, in registry order. */
  function Absent(listing: seq<LocalEntry>, names: seq<string>, reg: Catalogue): seq<ModelItem>
    requires forall n :: n in names ==> n in reg
    decreases |names|
  {
    if names == [] then []
    else
      var n := names[|names| - 1];
      Absent(listing, names[..|names| - 1], reg) +
      (if n in EntryNames(listing) then [] else [Missing(n, reg[n].weightType)])
  }

  /** `list_available_models`. */
  function AvailableModels(listing: seq<LocalEntry>, names: seq<string>, reg: Catalogue): seq<ModelItem>
    requires forall n :: n in names ==> n in reg
  {
    Relabelled(listing) + Absent(listing, names, reg)
  }

  /** The relabelled part keeps the listing's entries, in order. */
  lemma {:induction false} RelabelledSpec(listing: seq<LocalEntry>)
    ensures forall i :: 0 <= i < |listing| ==> Relabelled(listing)[i] == Present(listing[i].(status := "downloaded"))
    decreases |listing|
  {
    if listing != [] {
      RelabelledSpec(listing[..|listing| - 1]);
    }
  }

  /** The registry part holds exactly the names without a listed entry, each
      once, with the registry's weight type. */
  lemma {:induction false} AbsentSpec(listing: seq<LocalEntry>, names: seq<string>, reg: Catalogue)
    requires forall n :: n in names ==> n in reg
    requires Distinct(names)
    ensures forall a :: a in Absent(listing, names, reg) ==>
      a.Missing? && a.name in names && a.name !in EntryNames(listing) && a.weightType == reg[a.name].weightType
    ensures forall n :: n in names && n !in EntryNames(listing) ==> Missing(n, reg[n].weightType) in Absent(listing, names, reg)
    ensures forall i, j :: 0 <= i < j < |Absent(listing, names, reg)| ==>
      NameOf(Absent(listing, names, reg)[i]) != NameOf(Absent(listing, names, reg)[j])
    decreases |names|
  {
    if names != [] {
      var init := names[..|names| - 1];
      var n := names[|names| - 1];
      assert forall m :: m in init ==> m in names;
      assert Distinct(init);
      AbsentSpec(listing, init, reg);
      assert n !in init;
      forall m | m in names && m !in EntryNames(listing)
        ensures Missing(m, reg[m].weightType) in Absent(listing, names, reg)
      {
        if m != n {
          var k :| 0 <= k < |names| && names[k] == m;
          assert m in init by { assert init[k] == m; }
        }
      }
    }
  }

  /** What the model list says: every downloaded entry relabelled, in the
      listing's order, then the registry models without a listed entry, each
      once, in registry order; every listed name and every registry name
      appears. */
  lemma AvailableSpec(listing: seq<LocalEntry>, names: seq<string>, reg: Catalogue)
    requires IsEnumeration(names, reg.Keys)
    ensures var av := AvailableModels(listing, names, reg);
      && av[..|listing|] == Relabelled(listing)
      && (forall i :: 0 <= i < |listing| ==> av[i] == Present(listing[i].(status := "downloaded")))
      && (forall a :: a in av[|listing|..] ==>
            a.Missing? && a.name in reg && a.name !in EntryNames(listing) && a.weightType == reg[a.name].weightType)
      && (forall n :: n in reg && n !in EntryNames(listing) ==> Missing(n, reg[n].weightType) in av)
      && (forall n :: n in EntryNames(listing) + reg.Keys ==> exists a :: a in av && NameOf(a) == n)
  {
    var av := AvailableModels(listing, names, reg);
    RelabelledSpec(listing);
    AbsentSpec(listing, names, reg);
    assert av[|listing|..] == Absent(listing, names, reg);
    forall n | n in EntryNames(listing) + reg.Keys ensures exists a :: a in av && NameOf(a) == n {
      if n in EntryNames(listing) {
        var e :| e in listing && e.name == n;
        var i :| 0 <= i < |listing| && listing[i] == e;
        assert av[i] == Present(e.(status := "downloaded"));
        assert NameOf(av[i]) == n;
      } else {
        assert Missing(n, reg[n].weightType) in av;
      }
    }
  }

  /** The two loops of `list_available_models`, over the downloaded entries
      and over the registry names. */
  method ListAvailable(listing: seq<LocalEntry>, names: seq<string>, reg: Catalogue) returns (models: seq<ModelItem>)
    requires IsEnumeration(names, reg.Keys)
    ensures models == AvailableModels(listing, names, reg)
  {
    models := [];
    var i := 0;
    while i < |listing|
      invariant 0 <= i <= |listing|
      invariant models == Relabelled(listing[..i])
    {
      var info := listing[i];
      models := models + [Present(info.(status := "downloaded"))];
      assert listing[..i + 1][..i] == listing[..i];
      i := i + 1;
    }
    assert listing[..i] == listing;
    var j := 0;
    while j < |names|
      invariant 0 <= j <= |names|
      invariant models == Relabelled(listing) + Absent(listing, names[..j], reg)
    {
      var n := names[j];
      NamedBefore(listing, names, reg, j, models);
      if !(exists k | 0 <= k < |models| :: NameOf(models[k]) == n) {
        models := models + [Missing(n, reg[n].weightType)];
      }
      assert names[..j + 1][..j] == names[..j];
      j := j + 1;
    }
    assert names[..j] == names;
  }

  /** The `any(...)` test of `list_available_models` meets a registry name
      only among the downloaded entries, since the registry names are
      distinct. */
  lemma NamedBefore(listing: seq<LocalEntry>, names: seq<string>, reg: Catalogue, j: int, models: seq<ModelItem>)
    requires IsEnumeration(names, reg.Keys) && 0 <= j < |names|
    requires models == Relabelled(listing) + Absent(listing, names[..j], reg)
    ensures (exists k | 0 <= k < |models| :: NameOf(models[k]) == names[j]) <==> names[j] in EntryNames(listing)
  {
    var init := names[..j];
    assert forall m :: m in init ==> m in names;
    assert Distinct(init);
    AbsentSpec(listing, init, reg);
    RelabelledSpec(listing);
    assert names[j] !in init;
    if names[j] in EntryNames(listing) {
      var e :| e in listing && e.name == names[j];
      var i :| 0 <= i < |listing| && listing[i] == e;
      assert NameOf(models[i]) == names[j];
    }
    if exists k | 0 <= k < |models| :: NameOf(models[k]) == names[j] {
      var k :| 0 <= k < |models| && NameOf(models[k]) == names[j];
      if k >= |listing| {
        assert models[k] in Absent(listing, init, reg);
      } else {
        assert listing[k].name == names[j];
      }
    }
  }

  /** `downloaded_models`: the listing keyed by name, a later entry replacing
      an earlier one with the same name. */
  function ByName(listing: seq<LocalEntry>): map<string, LocalEntry>
    decreases |listing|
  {
    if listing == [] then map[]
    else
      var e := listing[|listing| - 1];
      ByName(listing[..|listing| - 1])[e.name := e]
  }

  /** The table has exactly the listed names, and maps each to the last
      listed entry with that name. */
  lemma {:induction false} ByNameSpec(listing: seq<LocalEntry>)
    ensures ByName(listing).Keys == EntryNames(listing)
    ensures forall n :: n in ByName(listing) ==>
      exists i :: 0 <= i < |listing| && listing[i] == ByName(listing)[n] && listing[i].name == n &&
        forall j :: i < j < |listing| ==> listing[j].name != n
    decreases |listing|
  {
    if listing != [] {
      var init := listing[..|listing| - 1];
      var e := listing[|listing| - 1];
      ByNameSpec(init);
      assert EntryNames(listing) == EntryNames(init) + {e.name} by {
        assert listing == init + [e];
      }
      forall n | n in ByName(listing)
        ensures exists i :: (0 <= i < |listing| && listing[i] == ByName(listing)[n] && listing[i].name == n &&
          forall j :: i < j < |listing| ==> listing[j].name != n)
      {
        if n == e.name {
          assert listing[|listing| - 1] == ByName(listing)[n];
        } else {
          LastNamedSnoc(init, e, n);
        }
      }
    }
  }

  /** An entry with another name does not hide the last entry named `n`. */
  lemma LastNamedSnoc(init: seq<LocalEntry>, e: LocalEntry, n: string)
    requires n != e.name && n in ByName(init)
    requires exists i :: (0 <= i < |init| && init[i] == ByName(init)[n] && init[i].name == n &&
      forall j :: i < j < |init| ==> init[j].name != n)
    ensures var listing := init + [e];
      exists i :: (0 <= i < |listing| && listing[i] == ByName(init)[n] && listing[i].name == n &&
        forall j :: i < j < |listing| ==> listing[j].name != n)
  {
    var listing := init + [e];
    var i :| 0 <= i < |init| && init[i] == ByName(init)[n] && init[i].name == n &&
      forall j :: i < j < |init| ==> init[j].name != n;
    assert listing[i] == init[i];
    forall j | i < j < |listing| ensures listing[j].name != n {
      if j < |init| {
        assert listing[j] == init[j];
      }
    }
  }
}
