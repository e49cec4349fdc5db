/**
 * `ModelManager`: the loaded-model table, the Ollama name table and the
 * downloader it delegates to, with each operation proved to do what the
 * functions of `Lifecycle` and `Listings` say.
 */
module Manager {
  import opened Wrappers
  import opened Text
  import opened Seqs
  import opened Storage
  import opened Fetching
  import opened Downloader
  import opened Prompt
  import opened Lifecycle
  import opened Listings

  /** One entry of `get_loaded_models`. */
  datatype LoadedModel = LoadedModel(name: string, ollamaName: string, path: Option<string>, loadTime: int)

  class ModelManager {
    const downloader: ModelDownloader
    /** `max_loaded_models`, not validated. */
    const maxModels: int
    /** The inference settings the Modelfile repeats. */
    const defaults: Defaults
    /** The `ollama` command line. */
    const ollama: Oracle

    /** `loaded_models` and `ollama_models`. */
    var loaded: Table
    var ollamaModels: map<string, string>
    /** The commands sent to `ollama` so far. */
    var calls: seq<seq<string>>

    ghost function State(): World
      reads this, downloader
    {
      World(loaded, ollamaModels, calls, downloader.store)
    }

    ghost predicate Valid()
      reads this, downloader
    {
      downloader.Valid() && Consistent(State())
    }

    /** A manager over a storage root holding `initial`, nothing loaded. */
    constructor (initial: Store, maxModels: int, defaults: Defaults, ollama: Oracle)
      ensures Valid()
      ensures fresh(downloader) && downloader.store == initial
      ensures loaded == EmptyTable && ollamaModels == map[] && calls == []
      ensures this.maxModels == maxModels && this.defaults == defaults && this.ollama == ollama
    {
      downloader := new ModelDownloader(initial);
      this.maxModels := maxModels;
      this.defaults := defaults;
      this.ollama := ollama;
      loaded := EmptyTable;
      ollamaModels := map[];
      calls := [];
    }

    /** One `subprocess.run`. */
    method Run(cmd: seq<string>) returns (p: Proc)
      modifies this
      ensures (p, State()) == Call(old(State()), ollama, cmd)
    {
      p := ollama(|calls|, cmd);
      calls := calls + [cmd];
    }

    /** `_ensure_ollama`. */
    method EnsureOllama() returns (ok: bool)
      modifies this
      ensures (ok, State()) == Lifecycle.EnsureOllama(old(State()), ollama)
    {
      var v := Run(VersionCommand);
      if !(v.Exited? && v.code == 0) {
        return false;
      }
      var l := Run(ListCommand);
      return l.Exited? && l.code == 0;
    }

    /** `list_available_models`: the downloaded models relabelled, then each
        registry model no downloaded entry names. */
    method ListAvailableModels() returns (models: seq<ModelItem>, ghost order: seq<string>)
      requires Valid()
      ensures IsEnumeration(order, downloader.store.Keys)
      ensures models == AvailableModels(
        Listing(downloader.registry, downloader.registryOrder, downloader.store, order),
        downloader.registryOrder, downloader.registry)
    {
      var listing;
      listing, order := downloader.ListDownloadedModels();
      var names := downloader.ListAvailableModels();
      models := ListAvailable(listing, names, downloader.registry);
    }

    /** `downloaded_models`: the listing keyed by name, whose keys are the
        names the listing reports and whose entries describe their
        directories. */
    method DownloadedModels() returns (table: map<string, LocalEntry>, ghost order: seq<string>)
      requires downloader.Valid()
      ensures IsEnumeration(order, downloader.store.Keys)
      ensures table == ByName(Listing(downloader.registry, downloader.registryOrder, downloader.store, order))
      ensures table.Keys == DownloadableNames(downloader.registry, downloader.store)
      ensures forall n :: n in table ==> table[n].name == n && Describes(downloader.registry, downloader.store, table[n])
    {
      var listing;
      listing, order := downloader.ListDownloadedModels();
      table := ByName(listing);
      ByNameSpec(listing);
      ListingSpec(downloader.registry, downloader.registryOrder, downloader.store, order);
    }

    /** `download_model`: false for a name outside the registry, else the
        downloader's `download_model` in the safetensors format. */
    method DownloadModel(name: string, hub: Hub) returns (ok: bool, ghost fetched: seq<string>)
      requires Valid()
      modifies downloader
      ensures Valid()
      ensures name !in downloader.registry ==>
        !ok && downloader.store == old(downloader.store) && downloader.progressLog == old(downloader.progressLog)
      ensures var r := DownloadSpec(downloader.registry, downloader.ggufRepos, old(downloader.store), name, "safetensors", hub);
        && ok == r.ok && downloader.store == r.store && fetched == r.fetched
        && downloader.progressLog == old(downloader.progressLog) + r.log
    {
      if name !in downloader.registry {
        return false, [];
      }
      ok, fetched := downloader.DownloadModel(name, "safetensors", hub);
    }

    /** `unload_model`. */
    method UnloadModel(name: string) returns (ok: bool)
      requires Valid()
      modifies this
      ensures Valid()
      ensures (ok, State()) == UnloadStep(old(State()), ollama, name)
    {
      UnloadSpec(State(), ollama, name);
      if name !in loaded.entries {
        return false;
      }
      if name in ollamaModels {
        var oname := ollamaModels[name];
        var p := Run(RemoveCommand(oname));
        if p.Threw? {
          return false;
        }
        ollamaModels := ollamaModels - {name};
      }
      loaded := Without(loaded, name);
      return true;
    }

    /** The Modelfile written into `dir`, then `ollama create`. */
    method CreateModel(name: string, dir: string) returns (ok: bool)
      requires dir in downloader.store
      modifies this, downloader
      ensures (ok, State()) == CreateStep(old(State()), ollama, name, dir, defaults)
      ensures downloader.downloadProgress == old(downloader.downloadProgress)
      ensures downloader.progressLog == old(downloader.progressLog)
    {
      var text := Modelfile(BaseModelFor(name), defaults);
      downloader.store := WriteModelfile(downloader.store, dir, text);
      var c := Run(CreateCommand(OllamaName(name), dir));
      return c.Exited? && c.code == 0;
    }

    /** The test run, recording the model on success. */
    method TestModel(name: string, path: Option<string>, now: int) returns (ok: bool)
      modifies this
      ensures (ok, State()) == TestStep(old(State()), ollama, name, path, now)
    {
      var oname := OllamaName(name);
      var t := Run(TestCommand(oname));
      if t.Exited? && t.code == 0 {
        loaded := Put(loaded, name, LoadedInfo(oname, path, now));
        ollamaModels := ollamaModels[name := oname];
        return true;
      }
      return false;
    }

    /** `load_model` from `_ensure_ollama` on. */
    method Attach(name: string, now: int) returns (ok: bool)
      modifies this, downloader
      ensures (ok, State()) ==
        AttachStep(old(State()), ollama, name, ResolvedPath(downloader.registry, old(downloader.store), name), now, defaults)
      ensures downloader.downloadProgress == old(downloader.downloadProgress)
      ensures downloader.progressLog == old(downloader.progressLog)
    {
      var up := EnsureOllama();
      if !up {
        return false;
      }
      var path := downloader.GetModelPath(name);
      ok := ListAndTest(name, path, now);
    }

    /** `ollama list` and the scan of its lines; then the test run, after
        creating the model when it is not listed. */
    method ListAndTest(name: string, path: Option<string>, now: int) returns (ok: bool)
      requires path.Some? ==> path.value in downloader.store
      modifies this, downloader
      ensures (ok, State()) == ListThenTest(old(State()), ollama, name, path, now, defaults)
      ensures downloader.downloadProgress == old(downloader.downloadProgress)
      ensures downloader.progressLog == old(downloader.progressLog)
    {
      var l := Run(ListCommand);
      if l.Threw? {
        return false;
      }
      var present := false;
      if l.code == 0 {
        present := ModelListed(l.stdout, OllamaName(name));
      }
      if present {
        ok := TestModel(name, path, now);
      } else {
        ok := CreateAndTest(name, path, now);
      }
    }

    /** The Modelfile, `ollama create` and the test run; a missing path
        raises when the Modelfile path is built, which means false. */
    method CreateAndTest(name: string, path: Option<string>, now: int) returns (ok: bool)
      requires path.Some? ==> path.value in downloader.store
      modifies this, downloader
      ensures (ok, State()) == CreateThenTest(old(State()), ollama, name, path, now, defaults)
      ensures downloader.downloadProgress == old(downloader.downloadProgress)
      ensures downloader.progressLog == old(downloader.progressLog)
    {
      if path.None? {
        return false;
      }
      var created := CreateModel(name, path.value);
      if !created {
        return false;
      }
      ok := TestModel(name, path, now);
    }

    /** `load_model`, at time `now`. */
    method LoadModel(name: string, now: int) returns (r: LoadOutcome)
      requires Valid()
      modifies this, downloader
      ensures Valid()
      ensures (r, State()) ==
        LoadStep(old(State()), ollama, name,
                 name in DownloadableNames(downloader.registry, old(downloader.store)),
                 ResolvedPath(downloader.registry, old(downloader.store), name),
                 now, maxModels, defaults)
    {
      ghost var w := State();
      ghost var downloadedSpec := name in DownloadableNames(downloader.registry, downloader.store);
      ghost var pathSpec := ResolvedPath(downloader.registry, downloader.store, name);
      LoadSpec(w, ollama, name, downloadedSpec, pathSpec, now, maxModels, defaults);
      var downloaded, _ := DownloadedModels();
      if name !in downloaded {
        return Returned(false);
      }
      if name in loaded.entries {
        return Returned(true);
      }
      if |loaded.order| >= maxModels {
        if loaded.order == [] {
          return StopIteration;
        }
        var _ := UnloadModel(loaded.order[0]);
      }
      assert State() == Evict(w, ollama, maxModels);
      var ok := Attach(name, now);
      return Returned(ok);
    }

    /** `generate`, with the options given. */
    method Generate(name: string, prompt: string, o: GenOptions) returns (text: Option<string>)
      modifies this
      ensures (text, State()) == GenerateStep(old(State()), ollama, name, prompt, o)
    {
      if name !in loaded.entries {
        return None;
      }
      var oname := loaded.entries[name].ollamaName;
      var cmd := GenerateCommand(oname, prompt, o);
      var p := Run(cmd);
      if p.Exited? && p.code == 0 {
        return Some(Strip(p.stdout));
      }
      return None;
    }

    /** `chat_completion`, created at time `now`. */
    method ChatCompletion(name: string, messages: seq<Message>, o: GenOptions, now: int) returns (reply: Option<Completion>)
      modifies this
      ensures (reply, State()) == ChatStep(old(State()), ollama, name, messages, o, now)
    {
      if name !in loaded.entries {
        return None;
      }
      var prompt := FormatMessages(messages);
      var text := Generate(name, prompt, o);
      if text.Some? && text.value != "" {
        return Some(Completion(now, name, text.value, UsageOf(prompt, text.value)));
      }
      return None;
    }

    /** `get_loaded_models`: one record per loaded model, in load order. */
    method GetLoadedModels() returns (models: seq<LoadedModel>)
      requires Valid()
      ensures |models| == |loaded.order|
      ensures Distinct(loaded.order)
      ensures forall i :: 0 <= i < |models| ==>
        && models[i].name == loaded.order[i]
        && models[i].ollamaName == OllamaName(loaded.order[i])
        && models[i].path == loaded.entries[loaded.order[i]].path
        && models[i].loadTime == loaded.entries[loaded.order[i]].loadTime
    {
      models := [];
      var i := 0;
      while i < |loaded.order|
        invariant 0 <= i <= |loaded.order|
        invariant |models| == i
        invariant forall k :: 0 <= k < i ==>
          && models[k].name == loaded.order[k]
          && models[k].ollamaName == OllamaName(loaded.order[k])
          && models[k].path == loaded.entries[loaded.order[k]].path
          && models[k].loadTime == loaded.entries[loaded.order[k]].loadTime
      {
        var n := loaded.order[i];
        var info := loaded.entries[n];
        models := models + [LoadedModel(n, info.ollamaName, info.path, info.loadTime)];
        i := i + 1;
      }
    }
  }
}
