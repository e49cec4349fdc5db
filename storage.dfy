/**
 * The storage root as the downloader sees it, and the read-only questions
 * `ModelDownloader` asks of it: is a model complete, which directory does a
 * name resolve to, and which directories does the on-disk listing report.
 *
 * A directory is a map from relative file path to size in bytes; the storage
 * root maps directory names to directories. A directory exists iff its name is
 * a key; `any(dir.rglob("*"))` holds iff the map is non-empty.
 */
module Storage {
  import opened Wrappers
  import opened Text
  import opened Seqs
  import Registry

  type Dir = map<string, nat>
  type Store = map<string, Dir>

  /** A model catalogue: name to configuration, as `MODEL_REGISTRY` holds it. */
  type Catalogue = map<string, Registry.ModelConfig>

  /** The format suffixes, in the order every lookup tries them. */
  const FormatSuffixes: seq<string> := ["-gguf", "-safetensors", "-pytorch"]

  /** Replacing a directory twice leaves the second replacement. */
  lemma ReplaceDirectory(store: Store, d: string, first: Dir, second: Dir)
    ensures store[d := first][d := second] == store[d := second]
  {
  }

  predicate PresentNonEmpty(store: Store, d: string) {
    d in store && |store[d]| > 0
  }

  // ---------------------------------------------------------------------
  // Completeness (`is_model_downloaded`)

  /** The directory exists and, for a registry model, holds every manifest file. */
  predicate IsComplete(reg: Catalogue, store: Store, name: string) {
    name in store &&
    (name in reg ==>
      forall f :: f in reg[name].files ==> f in store[name])
  }

  /** For any set of files present in a registry model's directory, the model is
      complete exactly when that set covers the manifest. */
  lemma CompleteIffManifestCovered(reg: Catalogue, store: Store, name: string, present: Dir)
    requires name in reg
    ensures IsComplete(reg, store[name := present], name) <==>
      (set f | f in reg[name].files) <= present.Keys
  {
    var files := reg[name].files;
    if IsComplete(reg, store[name := present], name) {
      forall f | f in (set g | g in files) ensures f in present.Keys {
        assert f in files;
      }
    } else {
      var f :| f in files && f !in present;
      assert f in (set g | g in files);
    }
  }

  // ---------------------------------------------------------------------
  // Resolution (`get_model_path`, `remove_model`)

  /** The directory exists and, when `needFiles` holds, is non-empty. */
  predicate Usable(store: Store, d: string, needFiles: bool) {
    d in store && (needFiles ==> |store[d]| > 0)
  }

  /** The first `name + suffix`, in the order of `suffixes`, that is usable. */
  function FirstVariant(store: Store, name: string, suffixes: seq<string>, needFiles: bool): (r: Option<string>)
    ensures r.Some? ==>
      exists k :: 0 <= k < |suffixes| && r.value == name + suffixes[k] && Usable(store, r.value, needFiles) &&
        forall j :: 0 <= j < k ==> !Usable(store, name + suffixes[j], needFiles)
    ensures r.None? ==> forall k :: 0 <= k < |suffixes| ==> !Usable(store, name + suffixes[k], needFiles)
  {
    if suffixes == [] then None
    else if Usable(store, name + suffixes[0], needFiles) then Some(name + suffixes[0])
    else
      var r := FirstVariant(store, name, suffixes[1..], needFiles);
      assert r.Some? ==>
        exists k :: 0 <= k < |suffixes| && r.value == name + suffixes[k] && Usable(store, r.value, needFiles) &&
          forall j :: 0 <= j < k ==> !Usable(store, name + suffixes[j], needFiles)
      by {
        if r.Some? {
          var k :| 0 <= k < |suffixes| - 1 && r.value == name + suffixes[1..][k] &&
            Usable(store, r.value, needFiles) &&
            forall j :: 0 <= j < k ==> !Usable(store, name + suffixes[1..][j], needFiles);
          assert r.value == name + suffixes[k + 1];
          forall j | 0 <= j < k + 1 ensures !Usable(store, name + suffixes[j], needFiles) {
            if j > 0 { assert suffixes[j] == suffixes[1..][j - 1]; }
          }
        }
      }
      assert r.None? ==> forall k :: 0 <= k < |suffixes| ==> !Usable(store, name + suffixes[k], needFiles) by {
        if r.None? {
          forall k | 0 <= k < |suffixes| ensures !Usable(store, name + suffixes[k], needFiles) {
            if k > 0 { assert suffixes[k] == suffixes[1..][k - 1]; }
          }
        }
      }
      r
  }

  /** `get_model_path`, as a directory name: the base directory when it is
      complete, else the first non-empty `-gguf`, `-safetensors`, `-pytorch`
      sibling, else nothing. */
  function ResolvedPath(reg: Catalogue, store: Store, name: string): (r: Option<string>)
    ensures r == Some(name) <==> IsComplete(reg, store, name)
    ensures r.Some? ==> r.value in store
    ensures r.Some? && r.value != name ==>
      exists k :: 0 <= k < |FormatSuffixes| && r.value == name + FormatSuffixes[k] &&
        PresentNonEmpty(store, r.value) &&
        forall j :: 0 <= j < k ==> !PresentNonEmpty(store, name + FormatSuffixes[j])
    ensures r.None? <==>
      (!IsComplete(reg, store, name) &&
       forall k :: 0 <= k < |FormatSuffixes| ==> !PresentNonEmpty(store, name + FormatSuffixes[k]))
  {
    if IsComplete(reg, store, name) then Some(name)
    else
      var r := FirstVariant(store, name, FormatSuffixes, true);
      assert r != Some(name) by {
        if r.Some? {
          var k :| 0 <= k < |FormatSuffixes| && r.value == name + FormatSuffixes[k];
          assert |r.value| > |name|;
        }
      }
      r
  }

  /** The directory `remove_model` deletes: the base directory if it exists, else
      the first existing suffixed sibling (empty or not). */
  function RemovalTarget(store: Store, name: string): (r: Option<string>)
    ensures name in store ==> r == Some(name)
    ensures r.Some? ==> r.value in store
    ensures r.Some? && r.value != name ==>
      (name !in store &&
       exists k :: 0 <= k < |FormatSuffixes| && r.value == name + FormatSuffixes[k] &&
         forall j :: 0 <= j < k ==> name + FormatSuffixes[j] !in store)
    ensures r.None? <==>
      (name !in store &&
       forall k :: 0 <= k < |FormatSuffixes| ==> name + FormatSuffixes[k] !in store)
  {
    if name in store then Some(name) else FirstVariant(store, name, FormatSuffixes, false)
  }

  // ---------------------------------------------------------------------
  // Directory contents

  /** The sum of the sizes of the files in a directory. */
  ghost function DirSize(d: Dir): nat
    decreases |d|
  {
    if d == map[] then 0
    else
      var f :| f in d;
      assert |(d - {f}).Keys| < |d.Keys| by {
        assert (d - {f}).Keys == d.Keys - {f};
      }
      d[f] + DirSize(d - {f})
  }

  /** The sum does not depend on which file is taken first. */
  lemma {:induction false} DirSizeRemove(d: Dir, f: string)
    requires f in d
    ensures DirSize(d) == d[f] + DirSize(d - {f})
    decreases |d|
  {
    var g :| g in d && DirSize(d) == d[g] + DirSize(d - {g});
    if g != f {
      assert (d - {g}).Keys == d.Keys - {g};
      assert (d - {f}).Keys == d.Keys - {f};
      DirSizeRemove(d - {g}, f);
      DirSizeRemove(d - {f}, g);
      assert d - {g} - {f} == d - {f} - {g};
    }
  }

  /** A file of the given extension directly inside the directory
      (`dir.glob("*" + ext)`, which does not descend). */
  predicate HasTopLevel(d: Dir, ext: string) {
    exists f :: f in d && '/' !in f && EndsWith(f, ext)
  }

  /** The file-type sniffing applied to directories that are not registry models. */
  predicate LooksLikeModel(d: Dir) {
    HasTopLevel(d, ".gguf") || HasTopLevel(d, ".safetensors") || HasTopLevel(d, ".bin") ||
    "config.json" in d
  }

  /** The weight type detected from the files present, by priority
      gguf > safetensors > pytorch > unknown. */
  function DetectedType(d: Dir): (t: string)
    ensures t == "gguf" <==> HasTopLevel(d, ".gguf")
    ensures t == "safetensors" <==> !HasTopLevel(d, ".gguf") && HasTopLevel(d, ".safetensors")
    ensures t == "pytorch" <==>
      !HasTopLevel(d, ".gguf") && !HasTopLevel(d, ".safetensors") && HasTopLevel(d, ".bin")
    ensures t == "unknown" <==>
      !HasTopLevel(d, ".gguf") && !HasTopLevel(d, ".safetensors") && !HasTopLevel(d, ".bin")
  {
    if HasTopLevel(d, ".gguf") then "gguf"
    else if HasTopLevel(d, ".safetensors") then "safetensors"
    else if HasTopLevel(d, ".bin") then "pytorch"
    else "unknown"
  }

  // ---------------------------------------------------------------------
  // Format suffixes

  /** The format suffix a directory name ends with, trying them in order. */
  function MatchedSuffix(d: string): (r: Option<string>)
    ensures r.Some? ==> r.value in FormatSuffixes && EndsWith(d, r.value)
    ensures r.None? ==> forall s :: s in FormatSuffixes ==> !EndsWith(d, s)
  {
    if EndsWith(d, "-gguf") then Some("-gguf")
    else if EndsWith(d, "-safetensors") then Some("-safetensors")
    else if EndsWith(d, "-pytorch") then Some("-pytorch")
    else None
  }

  /** A name ends with at most one format suffix (their last letters differ), so
      `base + suffix` is matched by that very suffix. */
  lemma SuffixDeterminesMatch(d: string, s: string)
    requires s in FormatSuffixes && EndsWith(d, s)
    ensures MatchedSuffix(d) == Some(s)
    ensures d[..|d| - |s|] + s == d
  {
    var m := MatchedSuffix(d);
    assert m.Some?;
    assert d[|d| - 1] == s[|s| - 1] by { assert d[|d| - |s|..][|s| - 1] == d[|d| - 1]; }
    assert d[|d| - 1] == m.value[|m.value| - 1] by {
      assert d[|d| - |m.value|..][|m.value| - 1] == d[|d| - 1];
    }
    assert d[..|d| - |s|] + d[|d| - |s|..] == d;
  }

  // ---------------------------------------------------------------------
  // The on-disk listing (`list_downloaded_models`)

  /** One listed model. `path` is the directory name under the storage root. */
  datatype LocalEntry = LocalEntry(
    name: string,
    path: string,
    sizeBytes: nat,
    weightType: string,
    status: string)

  /** `order` lists every element of `keys` exactly once (as iterating over a
      dict or over `iterdir` does). */
  ghost predicate IsEnumeration(order: seq<string>, keys: set<string>) {
    Distinct(order) && forall d :: d in order <==> d in keys
  }

  /** The first pass, for one registry name: its directory exists and is non-empty. */
  ghost function RegistryEntry(reg: Catalogue, store: Store, n: string): seq<LocalEntry>
    requires n in reg
  {
    if PresentNonEmpty(store, n) then
      [LocalEntry(n, n, DirSize(store[n]), reg[n].weightType,
                  if IsComplete(reg, store, n) then "downloaded" else "incomplete")]
    else []
  }

  ghost function RegistryPass(reg: Catalogue, store: Store, names: seq<string>): seq<LocalEntry>
    requires forall n :: n in names ==> n in reg
  {
    if names == [] then []
    else RegistryPass(reg, store, names[..|names| - 1]) + RegistryEntry(reg, store, names[|names| - 1])
  }

  /** The second pass, for one directory of the root: a suffixed variant of a
      registry model whose base directory is absent is listed under the base
      name; any other directory not named after a registry model is listed if
      its files look like a model. */
  ghost function ScanEntry(reg: Catalogue, store: Store, d: string): seq<LocalEntry>
    requires d in store
  {
    var m := MatchedSuffix(d);
    if m.Some? && d[..|d| - |m.value|] in reg && d[..|d| - |m.value|] !in store then
      if |store[d]| > 0 then
        [LocalEntry(d[..|d| - |m.value|], d, DirSize(store[d]), m.value[1..], "downloaded")]
      else []
    else if |store[d]| > 0 && d !in reg && LooksLikeModel(store[d]) then
      [LocalEntry(d, d, DirSize(store[d]), DetectedType(store[d]), "downloaded")]
    else []
  }

  ghost function ScanPass(reg: Catalogue, store: Store, order: seq<string>): seq<LocalEntry>
    requires forall d :: d in order ==> d in store
  {
    if order == [] then []
    else ScanPass(reg, store, order[..|order| - 1]) + ScanEntry(reg, store, order[|order| - 1])
  }

  /** One more registry name. */
  lemma RegistryPassSnoc(reg: Catalogue, store: Store, names: seq<string>, n: string)
    requires forall m :: m in names ==> m in reg
    requires n in reg
    ensures RegistryPass(reg, store, names + [n]) == RegistryPass(reg, store, names) + RegistryEntry(reg, store, n)
  {
    assert (names + [n])[..|names|] == names;
  }

  /** One more directory of the root. */
  lemma ScanPassSnoc(reg: Catalogue, store: Store, order: seq<string>, d: string)
    requires forall e :: e in order ==> e in store
    requires d in store
    ensures ScanPass(reg, store, order + [d]) == ScanPass(reg, store, order) + ScanEntry(reg, store, d)
  {
    assert (order + [d])[..|order|] == order;
  }

  /** The whole listing, for the registry's key order `names` and one
      enumeration order of the root. */
  ghost function Listing(reg: Catalogue, names: seq<string>, store: Store, order: seq<string>): seq<LocalEntry>
    requires IsEnumeration(names, reg.Keys) && IsEnumeration(order, store.Keys)
  {
    RegistryPass(reg, store, names) + ScanPass(reg, store, order)
  }

  function EntryNames(es: seq<LocalEntry>): set<string> {
    set e | e in es :: e.name
  }

  /** A variant directory of a registry model whose base directory is absent. */
  ghost predicate IsOrphanVariant(reg: Catalogue, store: Store, d: string) {
    exists s :: s in FormatSuffixes && EndsWith(d, s) &&
      d[..|d| - |s|] in reg && d[..|d| - |s|] !in store
  }

  /** The names the listing reports, stated without reference to the scan: a
      registry model whose directory is non-empty, or whose directory is absent
      and which has a non-empty suffixed variant; or a non-registry directory that
      is non-empty, looks like a model and is not such a variant. */
  ghost predicate Downloadable(reg: Catalogue, store: Store, n: string) {
    if n in reg then
      PresentNonEmpty(store, n) ||
      (n !in store && exists s :: s in FormatSuffixes && PresentNonEmpty(store, n + s))
    else
      PresentNonEmpty(store, n) && LooksLikeModel(store[n]) && !IsOrphanVariant(reg, store, n)
  }

  ghost function DownloadableNames(reg: Catalogue, store: Store): set<string> {
    set n | n in reg.Keys + store.Keys && Downloadable(reg, store, n)
  }

  /** What each listed entry says about the directory it comes from. */
  ghost predicate Describes(reg: Catalogue, store: Store, e: LocalEntry) {
    && PresentNonEmpty(store, e.path)
    && e.sizeBytes == DirSize(store[e.path])
    && (if e.name in reg then
          if e.path == e.name then
            && e.weightType == reg[e.name].weightType
            && (e.status == "downloaded" || e.status == "incomplete")
            && (e.status == "downloaded" <==> IsComplete(reg, store, e.name))
          else
            && e.name !in store
            && e.path == e.name + "-" + e.weightType
            && "-" + e.weightType in FormatSuffixes
            && e.status == "downloaded"
        else
          && e.path == e.name
          && LooksLikeModel(store[e.path])
          && e.weightType == DetectedType(store[e.path])
          && e.status == "downloaded")
  }

  /** The first pass's entry for one name describes that name's directory. */
  lemma RegistryEntryFacts(reg: Catalogue, store: Store, n: string)
    requires n in reg
    ensures EntryNames(RegistryEntry(reg, store, n)) == if PresentNonEmpty(store, n) then {n} else {}
    ensures forall e :: e in RegistryEntry(reg, store, n) ==> Describes(reg, store, e)
  {
    if PresentNonEmpty(store, n) {
      var e := RegistryEntry(reg, store, n)[0];
      assert RegistryEntry(reg, store, n) == [e];
      assert Describes(reg, store, e);
    }
  }

  /** The first pass reports the registry names whose directory is non-empty,
      and each of its entries describes its directory. */
  lemma {:induction false} RegistryPassNames(reg: Catalogue, store: Store, names: seq<string>)
    requires forall n :: n in names ==> n in reg
    ensures EntryNames(RegistryPass(reg, store, names)) == set n | n in names && PresentNonEmpty(store, n)
    ensures forall e :: e in RegistryPass(reg, store, names) ==> Describes(reg, store, e)
  {
    if names != [] {
      var init := names[..|names| - 1];
      var last := names[|names| - 1];
      RegistryPassNames(reg, store, init);
      RegistryEntryFacts(reg, store, last);
      assert names == init + [last];
      var es := RegistryPass(reg, store, names);
      assert es == RegistryPass(reg, store, init) + RegistryEntry(reg, store, last);
      assert EntryNames(es) == EntryNames(RegistryPass(reg, store, init)) + EntryNames(RegistryEntry(reg, store, last));
    }
  }

  /** A directory that is not an orphan variant by the scan's own test is not one
      by any suffix either: only the first matching suffix can apply. */
  lemma NotOrphan(reg: Catalogue, store: Store, d: string)
    requires var m := MatchedSuffix(d);
      !(m.Some? && d[..|d| - |m.value|] in reg && d[..|d| - |m.value|] !in store)
    ensures !IsOrphanVariant(reg, store, d)
  {
    if IsOrphanVariant(reg, store, d) {
      var s :| s in FormatSuffixes && EndsWith(d, s) &&
        d[..|d| - |s|] in reg && d[..|d| - |s|] !in store;
      SuffixDeterminesMatch(d, s);
    }
  }

  /** Every entry of the second pass describes its directory; its name is either a
      registry model reached through an orphan variant, or a non-registry
      directory. */
  lemma ScanEntryFacts(reg: Catalogue, store: Store, d: string, e: LocalEntry)
    requires d in store && e in ScanEntry(reg, store, d)
    ensures Describes(reg, store, e)
    ensures e.name in reg ==>
      e.name !in store && exists s :: s in FormatSuffixes && d == e.name + s && PresentNonEmpty(store, d)
    ensures e.name !in reg ==>
      e.name == d && PresentNonEmpty(store, d) && LooksLikeModel(store[d]) && !IsOrphanVariant(reg, store, d)
  {
    var m := MatchedSuffix(d);
    if m.Some? && d[..|d| - |m.value|] in reg && d[..|d| - |m.value|] !in store {
      var s := m.value;
      var base := d[..|d| - |s|];
      SuffixDeterminesMatch(d, s);
      assert e == LocalEntry(base, d, DirSize(store[d]), s[1..], "downloaded");
      assert s == "-" + s[1..];
      assert d == base + "-" + s[1..];
    } else {
      assert e == LocalEntry(d, d, DirSize(store[d]), DetectedType(store[d]), "downloaded");
      NotOrphan(reg, store, d);
    }
  }

  /** An entry comes out of the second pass exactly when some directory of the
      enumeration produces it. */
  lemma {:induction false} ScanPassFacts(reg: Catalogue, store: Store, order: seq<string>)
    requires forall d :: d in order ==> d in store
    ensures forall e :: e in ScanPass(reg, store, order) ==> exists d :: d in order && e in ScanEntry(reg, store, d)
    ensures forall d, e :: d in order && e in ScanEntry(reg, store, d) ==> e in ScanPass(reg, store, order)
  {
    if order != [] {
      var init := order[..|order| - 1];
      var last := order[|order| - 1];
      assert order == init + [last];
      ScanPassFacts(reg, store, init);
    }
  }

  /** A name the listing reports is `Downloadable`. */
  lemma ListedIsDownloadable(reg: Catalogue, names: seq<string>, store: Store, order: seq<string>, e: LocalEntry)
    requires IsEnumeration(names, reg.Keys) && IsEnumeration(order, store.Keys)
    requires e in Listing(reg, names, store, order)
    ensures Describes(reg, store, e) && Downloadable(reg, store, e.name)
  {
    var first := RegistryPass(reg, store, names);
    RegistryPassNames(reg, store, names);
    ScanPassFacts(reg, store, order);
    if e in first {
      assert e.name in EntryNames(first);
    } else {
      var d :| d in order && e in ScanEntry(reg, store, d);
      ScanEntryFacts(reg, store, d, e);
      if e.name in reg {
        var s :| s in FormatSuffixes && d == e.name + s && PresentNonEmpty(store, d);
      }
    }
  }

  /** The scan lists an orphan variant under its base name. */
  lemma OrphanEntry(reg: Catalogue, store: Store, n: string, s: string)
    requires n in reg && n !in store
    requires s in FormatSuffixes && PresentNonEmpty(store, n + s)
    ensures ScanEntry(reg, store, n + s) ==
      [LocalEntry(n, n + s, DirSize(store[n + s]), s[1..], "downloaded")]
  {
    var d := n + s;
    EndsWithAppend(n, s);
    SuffixDeterminesMatch(d, s);
    assert d[..|d| - |s|] == n;
  }

  /** The scan lists a model-like directory outside the registry under its own name. */
  lemma OwnEntry(reg: Catalogue, store: Store, n: string)
    requires n !in reg && PresentNonEmpty(store, n)
    requires LooksLikeModel(store[n]) && !IsOrphanVariant(reg, store, n)
    ensures ScanEntry(reg, store, n) ==
      [LocalEntry(n, n, DirSize(store[n]), DetectedType(store[n]), "downloaded")]
  {
    var m := MatchedSuffix(n);
    if m.Some? {
      var s := m.value;
      SuffixDeterminesMatch(n, s);
      assert !(n[..|n| - |s|] in reg && n[..|n| - |s|] !in store);
    }
  }

  /** What the scan produces for a directory of the enumeration is in the listing. */
  lemma ScannedIsListed(reg: Catalogue, names: seq<string>, store: Store, order: seq<string>, d: string, e: LocalEntry)
    requires IsEnumeration(names, reg.Keys) && IsEnumeration(order, store.Keys)
    requires d in store && e in ScanEntry(reg, store, d)
    ensures e.name in EntryNames(Listing(reg, names, store, order))
  {
    ScanPassFacts(reg, store, order);
    var first := RegistryPass(reg, store, names);
    var scan := ScanPass(reg, store, order);
    assert Listing(reg, names, store, order) == first + scan;
    assert e in first + scan;
  }

  /** A `Downloadable` name is reported by the listing. */
  lemma DownloadableIsListed(reg: Catalogue, names: seq<string>, store: Store, order: seq<string>, n: string)
    requires IsEnumeration(names, reg.Keys) && IsEnumeration(order, store.Keys)
    requires Downloadable(reg, store, n)
    ensures n in EntryNames(Listing(reg, names, store, order))
  {
    if n in reg {
      if PresentNonEmpty(store, n) {
        var first := RegistryPass(reg, store, names);
        RegistryPassNames(reg, store, names);
        assert n in EntryNames(first);
        var e: LocalEntry :| e in first && e.name == n;
        assert Listing(reg, names, store, order) == first + ScanPass(reg, store, order);
        assert e in Listing(reg, names, store, order);
      } else {
        var s :| s in FormatSuffixes && PresentNonEmpty(store, n + s);
        OrphanEntry(reg, store, n, s);
        ScannedIsListed(reg, names, store, order, n + s, ScanEntry(reg, store, n + s)[0]);
      }
    } else {
      OwnEntry(reg, store, n);
      ScannedIsListed(reg, names, store, order, n, ScanEntry(reg, store, n)[0]);
    }
  }

  /** The listing's entries describe their directories, and the names it
      reports are exactly the `Downloadable` ones, whatever the enumeration
      order. */
  lemma ListingSpec(reg: Catalogue, names: seq<string>, store: Store, order: seq<string>)
    requires IsEnumeration(names, reg.Keys) && IsEnumeration(order, store.Keys)
    ensures forall e :: e in Listing(reg, names, store, order) ==> Describes(reg, store, e)
    ensures EntryNames(Listing(reg, names, store, order)) == DownloadableNames(reg, store)
  {
    forall e | e in Listing(reg, names, store, order)
      ensures Describes(reg, store, e) && Downloadable(reg, store, e.name)
    {
      ListedIsDownloadable(reg, names, store, order, e);
    }
    forall n | n in DownloadableNames(reg, store)
      ensures n in EntryNames(Listing(reg, names, store, order))
    {
      DownloadableIsListed(reg, names, store, order, n);
    }
  }
}
