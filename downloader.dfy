/**
 * `ModelDownloader`: the storage root it manages, the progress table it keeps
 * for downloads, and its operations, each proved against the functions of
 * `Storage` and `Fetching` that say what the operation means.
 */
module Downloader {
  import opened Wrappers
  import opened Text
  import opened Seqs
  import Registry
  import opened Storage
  import Gguf
  import opened Fetching

  /** The sum of the sizes of the files in a directory, as the listing adds up
      `st_size` over the directory's files in whatever order it meets them. */
  method DirectorySize(d: Dir) returns (total: nat)
    ensures total == DirSize(d)
  {
    total := 0;
    var remaining := d;
    while remaining != map[]
      invariant total + DirSize(remaining) == DirSize(d)
      decreases |remaining|
    {
      var f :| f in remaining;
      DirSizeRemove(remaining, f);
      total := total + remaining[f];
      assert (remaining - {f}).Keys == remaining.Keys - {f};
      remaining := remaining - {f};
    }
  }

  class ModelDownloader {
    /** `MODEL_REGISTRY`, its keys in order, and the GGUF repository table. */
    const registry: Catalogue
    const registryOrder: seq<string>
    const ggufRepos: map<string, string>

    /** The storage root's directories. */
    var store: Store
    /** `download_progress`. */
    var downloadProgress: map<string, Progress>
    /** Every record set so far, in order. */
    ghost var progressLog: seq<Record>

    ghost predicate Valid()
      reads this
    {
      && IsEnumeration(registryOrder, registry.Keys)
      && downloadProgress == Replay(map[], progressLog)
    }

    /** A downloader over a storage root holding `initial`, with no progress
        recorded. */
    constructor (initial: Store)
      ensures Valid()
      ensures registry == Registry.Catalogue && registryOrder == Registry.Names
      ensures ggufRepos == Registry.GgufRepos
      ensures store == initial && downloadProgress == map[] && progressLog == []
    {
      registry := Registry.Catalogue;
      registryOrder := Registry.AvailableNames();
      ggufRepos := Registry.GgufRepos;
      store := initial;
      downloadProgress := map[];
      progressLog := [];
    }

    /** `list_available_models`: the registry keys, in order. */
    method ListAvailableModels() returns (names: seq<string>)
      requires Valid()
      ensures names == registryOrder
      ensures Distinct(names)
      ensures forall n :: n in names <==> n in registry
    {
      names := registryOrder;
    }

    /** `is_model_downloaded`: false when the directory is absent; for a
        registry name, whether every manifest file is present; for any other
        name, whether the directory exists. */
    method IsModelDownloaded(name: string) returns (b: bool)
      ensures b == IsComplete(registry, store, name)
      ensures name !in store ==> !b
      ensures name !in registry ==> b == (name in store)
      ensures name in registry && name in store ==>
        (b <==> forall f :: f in registry[name].files ==> f in store[name])
    {
      if name !in store {
        return false;
      }
      if name in registry {
        var files := registry[name].files;
        var i := 0;
        while i < |files|
          invariant 0 <= i <= |files|
          invariant forall j :: 0 <= j < i ==> files[j] in store[name]
        {
          if files[i] !in store[name] {
            return false;
          }
          i := i + 1;
        }
      }
      return true;
    }

    /** `get_download_progress`: the last record set for the name, or the
        untouched record when none was. */
    function GetDownloadProgress(name: string): (p: Progress)
      requires Valid()
      reads this
      ensures NoneFor(progressLog, name) ==> p == Untouched
      ensures forall i :: LastFor(progressLog, name, i) ==> p == progressLog[i].1
    {
      ReplayReports(map[], progressLog, name);
      if name in downloadProgress then downloadProgress[name] else Untouched
    }

    /** `get_model_path`: the base directory when the model is complete there;
        else the first non-empty `-gguf`, `-safetensors`, `-pytorch` sibling;
        else a scan of the root for a non-empty directory that is the name plus
        a format suffix, which can find nothing the second stage missed. */
    method GetModelPath(name: string) returns (r: Option<string>)
      ensures r == ResolvedPath(registry, store, name)
    {
      var complete := IsModelDownloaded(name);
      if complete {
        return Some(name);
      }
      var k := 0;
      while k < |FormatSuffixes|
        invariant 0 <= k <= |FormatSuffixes|
        invariant forall j :: 0 <= j < k ==> !PresentNonEmpty(store, name + FormatSuffixes[j])
      {
        var candidate := name + FormatSuffixes[k];
        if candidate in store && |store[candidate]| > 0 {
          var expected := ResolvedPath(registry, store, name);
          assert expected.Some? && expected.value != name;
          var k' :| 0 <= k' < |FormatSuffixes| && expected.value == name + FormatSuffixes[k'] &&
            PresentNonEmpty(store, expected.value) &&
            forall j :: 0 <= j < k' ==> !PresentNonEmpty(store, name + FormatSuffixes[j]);
          assert k' == k;
          return Some(candidate);
        }
        k := k + 1;
      }
      var remaining := store.Keys;
      while remaining != {}
        invariant remaining <= store.Keys
        decreases remaining
      {
        var d :| d in remaining;
        var j := 0;
        while j < |FormatSuffixes|
          invariant 0 <= j <= |FormatSuffixes|
        {
          var suffix := FormatSuffixes[j];
          if EndsWith(d, suffix) {
            SuffixDeterminesMatch(d, suffix);
            var base := d[..|d| - |suffix|];
            if base == name && |store[d]| > 0 {
              assert false;
            }
          }
          j := j + 1;
        }
        remaining := remaining - {d};
      }
      return None;
    }

    /** `download_model(name, format)`: ends as `DownloadSpec` says, with the
        storage root, the progress records and the hub requests it describes.
        `fetched` lists the files asked of the hub, in order. */
    method DownloadModel(name: string, format: string, hub: Hub) returns (ok: bool, ghost fetched: seq<string>)
      requires Valid()
      modifies this
      ensures Valid()
      ensures var r := DownloadSpec(registry, ggufRepos, old(store), name, format, hub);
        && ok == r.ok && store == r.store && fetched == r.fetched
        && progressLog == old(progressLog) + r.log
    {
      fetched := [];
      if name !in registry {
        return false, fetched;
      }
      var key := if format != registry[name].weightType then name + "-" + format else name;
      var done := IsModelDownloaded(key);
      if done {
        return true, fetched;
      }
      if key !in store {
        store := store[key := map[]];
      }
      if format == "gguf" {
        ok, fetched := DownloadGguf(name, key, hub);
      } else {
        ok, fetched := DownloadSafetensors(name, key, hub);
      }
    }

    /** The GGUF branch of `download_model`, once the directory exists. */
    method DownloadGguf(name: string, key: string, hub: Hub) returns (ok: bool, ghost fetched: seq<string>)
      requires Valid() && key in store
      modifies this
      ensures Valid()
      ensures var r := GgufAttempt(ggufRepos, old(store), name, key, hub);
        && ok == r.ok && store == r.store && fetched == r.fetched
        && progressLog == old(progressLog) + r.log
    {
      fetched := [];
      if name !in ggufRepos {
        return false, fetched;
      }
      var repo := ggufRepos[name];
      var listing := hub.list(repo);
      if listing.ListRaised? {
        return false, fetched;
      }
      var ggufs := Gguf.GgufOnly(listing.files);
      if ggufs == [] {
        return false, fetched;
      }
      var preferred := Gguf.PickGgufFile(ggufs);
      SetDownloadProgress(key, Downloading, 0, StartMessage);
      fetched := [preferred];
      var got := hub.fetch(repo, preferred);
      if got.FetchRaised? {
        return false, fetched;
      }
      var dir: Dir := store[key][preferred := got.size];
      store := store[key := dir];
      SetDownloadProgress(key, Completed, 100, DoneMessage);
      return true, fetched;
    }

    /** The safetensors branch of `download_model`, once the directory exists:
        a `downloading` record, the per-file loop, then a `completed` record;
        a fetch that raises reaches the handler, which sets a `failed` record
        and deletes the whole directory. */
    method DownloadSafetensors(name: string, key: string, hub: Hub) returns (ok: bool, ghost fetched: seq<string>)
      requires Valid() && name in registry && key in store
      modifies this
      ensures Valid()
      ensures var r := SafetensorsAttempt(registry[name], old(store), name, key, hub);
        && ok == r.ok && store == r.store && fetched == r.fetched
        && progressLog == old(progressLog) + r.log
    {
      var config := registry[name];
      SetDownloadProgress(name, Downloading, 0, StartMessage);
      ghost var made := store;
      var raised;
      ghost var records;
      ghost var started := progressLog;
      raised, records, fetched := FetchFiles(name, config.repoId, config.files, key, hub);
      ReplayAppend(map[], started, records);
      if raised.Some? {
        var message := "Download failed: " + raised.value;
        SetDownloadProgress(name, Failed, 0, message);
        AttemptRaised(config, made, name, key, hub, records, fetched, raised.value);
        Bracketed(old(progressLog), (name, Progress(Downloading, 0, Some(StartMessage))), records,
                  (name, Progress(Failed, 0, Some(message))));
        assert store - {key} == made - {key};
        store := store - {key};
        return false, fetched;
      }
      AttemptFinished(config, made, name, key, hub, records, fetched, store[key]);
      SetDownloadProgress(name, Completed, 100, DoneMessage);
      Bracketed(old(progressLog), (name, Progress(Downloading, 0, Some(StartMessage))), records,
                (name, Progress(Completed, 100, Some(DoneMessage))));
      return true, fetched;
    }

    /** The per-file loop of the safetensors branch over the manifest `files`
        of repository `repo`, proved to run as `RunFrom` says: it stops at the
        first fetch that raises and returns the reason; the storage root
        changes only in directory `key`. `records` and `fetched` are the records
        it set and the files it asked for. */
    method FetchFiles(name: string, repo: string, files: seq<string>, key: string, hub: Hub)
      returns (raised: Option<string>, ghost records: seq<Record>, ghost fetched: seq<string>)
      requires key in store
      modifies this
      ensures key in store && store == old(store)[key := store[key]]
      ensures progressLog == old(progressLog) + records
      ensures downloadProgress == Replay(old(downloadProgress), records)
      ensures RunFrom(name, repo, files, 0, old(store)[key], hub.fetch) ==
        Run(records, fetched, if raised.Some? then Raised(raised.value) else Finished(store[key]))
    {
      ghost var whole := RunFrom(name, repo, files, 0, store[key], hub.fetch);
      records, fetched := [], [];
      raised := None;
      var i := 0;
      assert whole == Then(records, fetched, whole);
      assert progressLog == old(progressLog) + records;
      while i < |files|
        invariant 0 <= i <= |files|
        invariant key in store && store == old(store)[key := store[key]]
        invariant whole == Then(records, fetched, RunFrom(name, repo, files, i, store[key], hub.fetch))
        invariant progressLog == old(progressLog) + records
        invariant downloadProgress == Replay(old(downloadProgress), records)
        invariant raised.None?
      {
        raised, records, fetched := FetchFile(name, repo, files, key, hub, i,
                                              whole, old(store), old(progressLog), old(downloadProgress),
                                              records, fetched);
        if raised.Some? {
          return;
        }
        i := i + 1;
      }
      RunAtEnd(name, repo, files, store[key], hub.fetch, records, fetched);
    }

    /** One pass of the per-file loop, for file `i` of the manifest: skip it
        when present, else fetch it, with the records around the fetch; when
        the fetch raises it returns the reason and leaves the storage root as
        it was. The ghost parameters carry the loop's account: the whole run
        `whole`, the records set and the files asked for before file `i`, and
        the storage root, log and table the loop started from. The account is returned
        extended by this file. */
    method FetchFile(name: string, repo: string, files: seq<string>, key: string, hub: Hub, i: nat,
                     ghost whole: Run, ghost store0: Store, ghost log0: seq<Record>, ghost table0: map<string, Progress>,
                     ghost records: seq<Record>, ghost fetched: seq<string>)
      returns (raised: Option<string>, ghost records': seq<Record>, ghost fetched': seq<string>)
      requires key in store && store == store0[key := store[key]] && i < |files|
      requires whole == Then(records, fetched, RunFrom(name, repo, files, i, store[key], hub.fetch))
      requires progressLog == log0 + records && downloadProgress == Replay(table0, records)
      modifies this
      ensures key in store && store == store0[key := store[key]]
      ensures progressLog == log0 + records' && downloadProgress == Replay(table0, records')
      ensures raised.Some? ==> whole == Run(records', fetched', Raised(raised.value))
      ensures raised.None? ==>
        whole == Then(records', fetched', RunFrom(name, repo, files, i + 1, store[key], hub.fetch))
    {
      var f := files[i];
      ghost var dir := store[key];
      ghost var step: seq<Record>, asked: seq<string>, next: Run;
      raised := None;
      if f in store[key] {
        var skip := SkipExisting(files, i);
        SetDownloadProgress(name, skip.status, skip.percent, skip.message.value);
        RunStepSkip(name, repo, files, i, dir, hub.fetch);
        step, asked, next := [(name, skip)], [], RunFrom(name, repo, files, i + 1, dir, hub.fetch);
        ReplayOne(Replay(table0, records), (name, skip));
      } else {
        var before := BeforeFetch(files, i);
        SetDownloadProgress(name, before.status, before.percent, before.message.value);
        ReplayOne(Replay(table0, records), (name, before));
        var got := hub.fetch(repo, f);
        if got.FetchRaised? {
          RunStepRaised(name, repo, files, i, dir, hub.fetch, got.reason);
          raised := Some(got.reason);
          step, asked := [(name, before)], [f];
        } else {
          var grown: Dir := store[key][f := got.size];
          RunStepFetched(name, repo, files, i, dir, hub.fetch, got.size);
          ReplaceDirectory(store0, key, dir, grown);
          store := store[key := grown];
          var after := AfterFetch(files, i);
          SetDownloadProgress(name, after.status, after.percent, after.message.value);
          ReplaySnoc(Replay(table0, records), [(name, before)], (name, after));
          step, asked, next := [(name, before)] + [(name, after)], [f], RunFrom(name, repo, files, i + 1, grown, hub.fetch);
        }
      }
      AppendTwice(log0, records, step);
      ReplayAppend(table0, records, step);
      if raised.None? {
        assert next == RunFrom(name, repo, files, i + 1, store[key], hub.fetch);
        ThenThen(records, fetched, step, asked, next);
      }
      records', fetched' := records + step, fetched + asked;
    }

    /** `list_downloaded_models`: a first pass over the registry's names lists
        each model whose directory is present and non-empty; a second pass, in
        the root's enumeration order `order`, lists orphaned format variants
        and unregistered directories that look like models. */
    method ListDownloadedModels() returns (models: seq<LocalEntry>, ghost order: seq<string>)
      requires Valid()
      ensures IsEnumeration(order, store.Keys)
      ensures models == Listing(registry, registryOrder, store, order)
    {
      var checked;
      models, checked := ListRegistered();
      ghost var first := models;
      var remaining := store.Keys;
      order := [];
      while remaining != {}
        invariant remaining <= store.Keys && Distinct(order)
        invariant forall d :: d in order <==> d in store.Keys && d !in remaining
        invariant models == first + ScanPass(registry, store, order)
        invariant checked == registry.Keys
        decreases |remaining|
      {
        var d :| d in remaining;
        var entries;
        entries, checked := ScanDirectory(d, checked);
        ScanPassSnoc(registry, store, order, d);
        AppendTwice(first, ScanPass(registry, store, order), entries);
        models := models + entries;
        DistinctSnoc(order, d);
        order := order + [d];
        remaining := remaining - {d};
      }
    }

    /** The first pass of `list_downloaded_models`, over the registry's names
        in order; `checked` is `checked_names` once the pass is over. */
    method ListRegistered() returns (models: seq<LocalEntry>, checked: set<string>)
      requires Valid()
      ensures models == RegistryPass(registry, store, registryOrder)
      ensures checked == registry.Keys
    {
      models := [];
      checked := {};
      var i := 0;
      while i < |registryOrder|
        invariant 0 <= i <= |registryOrder|
        invariant models == RegistryPass(registry, store, registryOrder[..i])
        invariant forall n :: n in checked <==> n in registryOrder[..i]
      {
        var n := registryOrder[i];
        checked := checked + {n};
        var entry := RegisteredEntry(n);
        assert registryOrder[..i + 1] == registryOrder[..i] + [n];
        RegistryPassSnoc(registry, store, registryOrder[..i], n);
        models := models + entry;
        i := i + 1;
      }
      assert registryOrder[..i] == registryOrder;
    }

    /** One name of the first pass: listed when its directory exists and is
        non-empty, with the sum of its file sizes, the registry's weight type,
        and `downloaded` or `incomplete` as `is_model_downloaded` decides. */
    method RegisteredEntry(n: string) returns (entry: seq<LocalEntry>)
      requires n in registry
      ensures entry == RegistryEntry(registry, store, n)
    {
      entry := [];
      if n in store && |store[n]| > 0 {
        var complete := IsModelDownloaded(n);
        var size := DirectorySize(store[n]);
        entry := [LocalEntry(n, n, size, registry[n].weightType,
                             if complete then "downloaded" else "incomplete")];
      }
    }

    /** One directory of the second pass of `list_downloaded_models`: the first
        format suffix its name ends with decides whether it is an orphaned
        variant of a registry model (listed under the base name); otherwise it
        is listed under its own name when it is not a registry name and its
        files look like a model. `checked` is `checked_names`, which always
        holds exactly the registry's names. */
    method ScanDirectory(d: string, checked: set<string>) returns (entries: seq<LocalEntry>, checkedAfter: set<string>)
      requires d in store && checked == registry.Keys
      ensures entries == ScanEntry(registry, store, d)
      ensures checkedAfter == checked
    {
      entries := [];
      checkedAfter := checked;
      var isFormatSuffixed := false;
      var k := 0;
      while k < |FormatSuffixes|
        invariant 0 <= k <= |FormatSuffixes|
        invariant forall j :: 0 <= j < k ==> !EndsWith(d, FormatSuffixes[j])
        invariant entries == [] && checkedAfter == checked && !isFormatSuffixed
      {
        var suffix := FormatSuffixes[k];
        if EndsWith(d, suffix) {
          SuffixDeterminesMatch(d, suffix);
          var base := d[..|d| - |suffix|];
          if base in registry && (base !in store || base !in checkedAfter) {
            checkedAfter := checkedAfter + {base};
            isFormatSuffixed := true;
            if |store[d]| > 0 {
              var size := DirectorySize(store[d]);
              entries := [LocalEntry(base, d, size, suffix[1..], "downloaded")];
            }
          }
          break;
        }
        k := k + 1;
      }
      if !isFormatSuffixed && |store[d]| > 0 && d !in checkedAfter && LooksLikeModel(store[d]) {
        var size := DirectorySize(store[d]);
        entries := [LocalEntry(d, d, size, DetectedType(store[d]), "downloaded")];
      }
    }

    /** `remove_model`: deletes the base directory if it exists, else the first
        existing suffixed sibling; reports whether there was one. */
    method RemoveModel(name: string) returns (ok: bool)
      modifies this
      ensures ok <==> RemovalTarget(old(store), name).Some?
      ensures ok ==> store == old(store) - {RemovalTarget(old(store), name).value}
      ensures !ok ==> store == old(store)
      ensures downloadProgress == old(downloadProgress) && progressLog == old(progressLog)
    {
      var target := name;
      if target !in store {
        var k := 0;
        while k < |FormatSuffixes|
          invariant 0 <= k <= |FormatSuffixes|
          invariant forall j :: 0 <= j < k ==> name + FormatSuffixes[j] !in store
        {
          if name + FormatSuffixes[k] in store {
            target := name + FormatSuffixes[k];
            break;
          }
          k := k + 1;
        }
      }
      if target !in store {
        return false;
      }
      store := store - {target};
      return true;
    }

    /** `set_download_progress`: replaces the whole record of the name. */
    method SetDownloadProgress(name: string, status: Phase, percent: int, message: string)
      modifies this
      ensures old(Valid()) ==> Valid()
      ensures progressLog == old(progressLog) + [(name, Progress(status, percent, Some(message)))]
      ensures downloadProgress == old(downloadProgress)[name := Progress(status, percent, Some(message))]
      ensures store == old(store)
    {
      var record := (name, Progress(status, percent, Some(message)));
      ReplaySnoc(map[], old(progressLog), record);
      downloadProgress := downloadProgress[name := record.1];
      progressLog := progressLog + [record];
    }
  }
}
