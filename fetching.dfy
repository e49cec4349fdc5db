/**
 * What one call of `ModelDownloader.download_model` does, as a function of the
 * storage root and of the Hugging Face hub's answers: whether it reports
 * success, the storage root it leaves, and the progress records it sets, in
 * order.
 *
 * The hub is an oracle: `fetch(repo, file)` either stores the file (giving its
 * size) or raises, and `list(repo)` either lists the repository or raises.
 */
module Fetching {
  import opened Wrappers
  import opened Text
  import opened Seqs
  import Registry
  import opened Storage
  import Gguf

  // ---------------------------------------------------------------------
  // Progress records (`download_progress`)

  datatype Phase = NotStarted | Downloading | Completed | Failed

  /** One progress record; the default record of an untouched key has no message. */
  datatype Progress = Progress(status: Phase, percent: int, message: Option<string>)

  const Untouched := Progress(NotStarted, 0, None)

  /** A progress record set for a key, as `set_download_progress` does. */
  type Record = (string, Progress)

  /** The progress table after setting the records of `log` in order, starting
      from `table`: each record replaces the whole entry of its key. */
  function Replay(table: map<string, Progress>, log: seq<Record>): map<string, Progress>
  {
    if log == [] then table
    else Replay(table, log[..|log| - 1])[log[|log| - 1].0 := log[|log| - 1].1]
  }

  /** Setting one more record changes that record's key only. */
  lemma ReplaySnoc(table: map<string, Progress>, log: seq<Record>, r: Record)
    ensures Replay(table, log + [r]) == Replay(table, log)[r.0 := r.1]
  {
    assert (log + [r])[..|log|] == log;
  }

  /** Setting a single record. */
  lemma ReplayOne(table: map<string, Progress>, r: Record)
    ensures Replay(table, [r]) == table[r.0 := r.1]
  {
    assert [r][..0] == [];
  }

  /** Setting the records of `a` and then those of `b` sets the records of
      `a + b`. */
  lemma {:induction false} ReplayAppend(table: map<string, Progress>, a: seq<Record>, b: seq<Record>)
    ensures Replay(table, a + b) == Replay(Replay(table, a), b)
    decreases |b|
  {
    if b == [] {
      assert a + b == a;
    } else {
      var init, last := b[..|b| - 1], b[|b| - 1];
      assert b == init + [last];
      assert a + b == (a + init) + [last];
      ReplaySnoc(table, a + init, last);
      ReplaySnoc(Replay(table, a), init, last);
      ReplayAppend(table, a, init);
    }
  }

  /** No record of `log` is set for `key`. */
  predicate NoneFor(log: seq<Record>, key: string) {
    forall i :: 0 <= i < |log| ==> log[i].0 != key
  }

  /** Record `i` is the last one of `log` set for `key`. */
  predicate LastFor(log: seq<Record>, key: string, i: int) {
    0 <= i < |log| && log[i].0 == key && forall j :: i < j < |log| ==> log[j].0 != key
  }

  /** A key no record of `log` is set for reports what it reported before. */
  lemma {:induction false} ReplayUntouched(table: map<string, Progress>, log: seq<Record>, key: string)
    requires NoneFor(log, key)
    ensures key in Replay(table, log) <==> key in table
    ensures key in table ==> Replay(table, log)[key] == table[key]
  {
    if log != [] {
      var init := log[..|log| - 1];
      forall i | 0 <= i < |init| ensures init[i].0 != key {
        assert init[i] == log[i];
      }
      ReplayUntouched(table, init, key);
    }
  }

  /** A key reports the last record set for it. */
  lemma {:induction false} ReplayLast(table: map<string, Progress>, log: seq<Record>, key: string, i: nat)
    requires LastFor(log, key, i)
    ensures key in Replay(table, log) && Replay(table, log)[key] == log[i].1
  {
    if i < |log| - 1 {
      var init := log[..|log| - 1];
      assert init[i] == log[i];
      forall j | i < j < |init| ensures init[j].0 != key {
        assert init[j] == log[j];
      }
      ReplayLast(table, init, key, i);
    }
  }

  /** Both cases at once: a key with no record reports what it reported
      before, and a key with records reports the last one. */
  lemma ReplayReports(table: map<string, Progress>, log: seq<Record>, key: string)
    ensures NoneFor(log, key) ==>
      (key in Replay(table, log) <==> key in table) &&
      (key in table ==> Replay(table, log)[key] == table[key])
    ensures forall i :: LastFor(log, key, i) ==>
      key in Replay(table, log) && Replay(table, log)[key] == log[i].1
  {
    if NoneFor(log, key) {
      ReplayUntouched(table, log, key);
    }
    forall i | LastFor(log, key, i)
      ensures key in Replay(table, log) && Replay(table, log)[key] == log[i].1
    {
      ReplayLast(table, log, key, i);
    }
  }

  // ---------------------------------------------------------------------
  // The hub

  datatype FetchResult = Fetched(size: nat) | FetchRaised(reason: string)
  datatype ListResult = Listed(files: seq<string>) | ListRaised(reason: string)

  /** `hf_hub_download(repo_id, filename, ...)` and `list_repo_files(repo_id)`. */
  datatype Hub = Hub(fetch: (string, string) -> FetchResult, list: string -> ListResult)

  // ---------------------------------------------------------------------
  // The safetensors loop

  /** `int((k / total) * 100)`, the percentage after `k` of `total` files. */
  function Pct(k: nat, total: nat): (p: int)
    requires 0 < total && k <= total
    ensures 0 <= p <= 100
    ensures k == total ==> p == 100
  {
    // all files done is exactly 100 in floating point too
    if k == total then 100
    else
      PctBelow(k, total);
      k * 100 / total
  }

  lemma MulLe(t: nat, x: int, y: int)
    ensures x <= y ==> t * x <= t * y
  {
    assert t * y - t * x == t * (y - x);
  }

  lemma DivMono(a: nat, b: nat, t: nat)
    requires 0 < t && a <= b
    ensures a / t <= b / t
  {
    var qa, qb := a / t, b / t;
    assert t * qa <= a;
    assert b < t * (qb + 1);
    MulLe(t, qb + 1, qa);
  }

  lemma PctBelow(k: nat, t: nat)
    requires 0 < t && k <= t
    ensures 0 <= k * 100 / t <= 100
  {
    var q := k * 100 / t;
    assert t * q <= k * 100;
    MulLe(t, 101, q);
  }

  /** More files done never shows a smaller percentage. */
  lemma PctMonotone(k: nat, l: nat, total: nat)
    requires 0 < total && k <= l <= total
    ensures Pct(k, total) <= Pct(l, total)
  {
    if l < total {
      DivMono(k * 100, l * 100, total);
    }
  }

  /** The record set before fetching file `j`, and the one set after it. */
  function BeforeFetch(files: seq<string>, j: nat): Progress
    requires j < |files|
  {
    Progress(Downloading, Pct(j, |files|), Some("Downloading " + files[j] + "..."))
  }

  function AfterFetch(files: seq<string>, j: nat): Progress
    requires j < |files|
  {
    Progress(Downloading, Pct(j + 1, |files|), Some("Completed " + files[j]))
  }

  /** The record set for file `j` when it is already present. */
  function SkipExisting(files: seq<string>, j: nat): Progress
    requires j < |files|
  {
    Progress(Downloading, Pct(j + 1, |files|), Some("Skipping " + files[j] + " (already exists)"))
  }

  /** How the per-file loop over the manifest ended. */
  datatype Ending = Finished(dir: Dir) | Raised(reason: string)

  /** The loop from file `k` on: the records it sets, the files it asks the hub
      for, and how it ends. */
  datatype Run = Run(log: seq<Record>, fetched: seq<string>, ending: Ending)

  /** The records and requests of a stretch of the loop already run, followed
      by the rest of the loop. */
  function Then(log: seq<Record>, fetched: seq<string>, rest: Run): Run {
    Run(log + rest.log, fetched + rest.fetched, rest.ending)
  }

  /** The per-file loop of `download_model` over `files[k..]`, starting with the
      directory `dir`: a file already present is skipped; any other file is
      fetched, and the first fetch that raises ends the loop. */
  function RunFrom(name: string, repo: string, files: seq<string>, k: nat, dir: Dir,
                   fetch: (string, string) -> FetchResult): Run
    requires k <= |files|
    decreases |files| - k
  {
    if k == |files| then Run([], [], Finished(dir))
    else
      var f := files[k];
      var total := |files|;
      if f in dir then
        var rest := RunFrom(name, repo, files, k + 1, dir, fetch);
        Run([(name, SkipExisting(files, k))] + rest.log, rest.fetched, rest.ending)
      else
        var before := (name, BeforeFetch(files, k));
        match fetch(repo, f)
        case FetchRaised(e) => Run([before], [f], Raised(e))
        case Fetched(size: nat) =>
          var rest := RunFrom(name, repo, files, k + 1, dir[f := size], fetch);
          var after := (name, AfterFetch(files, k));
          Run([before, after] + rest.log, [f] + rest.fetched, rest.ending)
  }

  /** One step of the loop, for each way file `k` can go. */
  lemma RunStepSkip(name: string, repo: string, files: seq<string>, k: nat, dir: Dir,
                    fetch: (string, string) -> FetchResult)
    requires k < |files| && files[k] in dir
    ensures RunFrom(name, repo, files, k, dir, fetch) ==
      Then([(name, SkipExisting(files, k))], [], RunFrom(name, repo, files, k + 1, dir, fetch))
  {
  }

  lemma RunStepFetched(name: string, repo: string, files: seq<string>, k: nat, dir: Dir,
                       fetch: (string, string) -> FetchResult, size: nat)
    requires k < |files| && files[k] !in dir && fetch(repo, files[k]) == Fetched(size)
    ensures RunFrom(name, repo, files, k, dir, fetch) ==
      Then([(name, BeforeFetch(files, k)), (name, AfterFetch(files, k))], [files[k]],
           RunFrom(name, repo, files, k + 1, dir[files[k] := size], fetch))
  {
  }

  lemma RunStepRaised(name: string, repo: string, files: seq<string>, k: nat, dir: Dir,
                      fetch: (string, string) -> FetchResult, e: string)
    requires k < |files| && files[k] !in dir && fetch(repo, files[k]) == FetchRaised(e)
    ensures RunFrom(name, repo, files, k, dir, fetch) == Run([(name, BeforeFetch(files, k))], [files[k]], Raised(e))
  {
  }

  /** The loop past the last file ends with the directory it has. */
  lemma RunAtEnd(name: string, repo: string, files: seq<string>, dir: Dir, fetch: (string, string) -> FetchResult,
                 log: seq<Record>, fetched: seq<string>)
    ensures Then(log, fetched, RunFrom(name, repo, files, |files|, dir, fetch)) == Run(log, fetched, Finished(dir))
  {
    assert log + [] == log && fetched + [] == fetched;
  }

  /** Running two stretches one after the other. */
  lemma ThenThen(log: seq<Record>, fetched: seq<string>, log': seq<Record>, fetched': seq<string>, rest: Run)
    ensures Then(log, fetched, Then(log', fetched', rest)) == Then(log + log', fetched + fetched', rest)
  {
    assert log + (log' + rest.log) == (log + log') + rest.log;
    assert fetched + (fetched' + rest.fetched) == (fetched + fetched') + rest.fetched;
  }

  /** The loop fetches exactly the files it does not find, each at most once, and
      when it finishes the directory holds every manifest file, with the sizes the
      hub gave for the fetched ones and every earlier file untouched. */
  lemma {:induction false} RunFetchesMissing(name: string, repo: string, files: seq<string>, k: nat, dir: Dir,
                                             fetch: (string, string) -> FetchResult)
    requires k <= |files|
    ensures var r := RunFrom(name, repo, files, k, dir, fetch);
      r.ending.Finished? ==>
        && r.fetched == Fresh(files[k..], dir.Keys)
        && r.ending.dir.Keys == dir.Keys + (set f | f in files[k..])
        && (forall f :: f in dir ==> r.ending.dir[f] == dir[f])
        && (forall f :: f in r.fetched ==>
              fetch(repo, f).Fetched? && f in r.ending.dir && r.ending.dir[f] == fetch(repo, f).size)
    decreases |files| - k
  {
    if k < |files| {
      var f := files[k];
      assert files[k..] == [f] + files[k + 1..];
      if f in dir {
        RunFetchesMissing(name, repo, files, k + 1, dir, fetch);
      } else if fetch(repo, f).Fetched? {
        var dir' := dir[f := fetch(repo, f).size];
        RunFetchesMissing(name, repo, files, k + 1, dir', fetch);
        assert dir'.Keys == dir.Keys + {f};
      }
    }
  }

  /** `downloading` records of `name` whose percentages lie in `lo..100` and
      never decrease. */
  predicate Ascending(log: seq<Record>, name: string, lo: int) {
    && (forall i :: 0 <= i < |log| ==>
          log[i].0 == name && log[i].1.status == Downloading && lo <= log[i].1.percent <= 100)
    && (forall i, j :: 0 <= i < j < |log| ==> log[i].1.percent <= log[j].1.percent)
  }

  lemma AscendingCons(p: Record, rest: seq<Record>, name: string, lo: int)
    requires p.0 == name && p.1.status == Downloading && lo <= p.1.percent <= 100
    requires Ascending(rest, name, p.1.percent)
    ensures Ascending([p] + rest, name, lo)
  {
    var log := [p] + rest;
    forall i, j | 0 <= i < j < |log| ensures log[i].1.percent <= log[j].1.percent {
      assert log[j] == rest[j - 1];
      if 0 < i {
        assert log[i] == rest[i - 1];
      }
    }
  }

  /** Every record the loop sets from file `k` on is a `downloading` record,
      none below the percentage after `k` files, and the percentages never
      decrease. */
  lemma {:induction false} RunAscending(name: string, repo: string, files: seq<string>, k: nat, dir: Dir,
                                        fetch: (string, string) -> FetchResult)
    requires k <= |files|
    ensures 0 < |files| ==> Ascending(RunFrom(name, repo, files, k, dir, fetch).log, name, Pct(k, |files|))
    decreases |files| - k
  {
    if k < |files| {
      var f := files[k];
      var total := |files|;
      PctMonotone(k, k + 1, total);
      if f in dir {
        var rest := RunFrom(name, repo, files, k + 1, dir, fetch);
        RunAscending(name, repo, files, k + 1, dir, fetch);
        AscendingCons((name, SkipExisting(files, k)), rest.log, name, Pct(k, total));
      } else if fetch(repo, f).Fetched? {
        var rest := RunFrom(name, repo, files, k + 1, dir[f := fetch(repo, f).size], fetch);
        RunAscending(name, repo, files, k + 1, dir[f := fetch(repo, f).size], fetch);
        var before := (name, BeforeFetch(files, k));
        var after := (name, AfterFetch(files, k));
        AscendingCons(after, rest.log, name, Pct(k, total));
        AscendingCons(before, [after] + rest.log, name, Pct(k, total));
        assert [before, after] + rest.log == [before] + ([after] + rest.log);
      }
    }
  }

  /** Two records per file from file `k` on: before the fetch of file `j` the
      percentage after `j` files, after it the percentage after `j + 1`. */
  predicate Paired(log: seq<Record>, name: string, files: seq<string>, k: nat)
    requires k <= |files|
  {
    && |log| == 2 * (|files| - k)
    && (forall i :: 0 <= i < |files| - k ==> log[2 * i] == (name, BeforeFetch(files, k + i)))
    && (forall i :: 0 <= i < |files| - k ==> log[2 * i + 1] == (name, AfterFetch(files, k + i)))
  }

  /** The pair of records of file `k` in front of those of the later files. */
  lemma PairedCons(log: seq<Record>, name: string, files: seq<string>, k: nat)
    requires k < |files| && Paired(log, name, files, k + 1)
    ensures Paired([(name, BeforeFetch(files, k)), (name, AfterFetch(files, k))] + log, name, files, k)
  {
    var full := [(name, BeforeFetch(files, k)), (name, AfterFetch(files, k))] + log;
    forall i | 1 <= i < |files| - k
      ensures full[2 * i] == (name, BeforeFetch(files, k + i)) && full[2 * i + 1] == (name, AfterFetch(files, k + i))
    {
      var h := i - 1;
      assert full[2 * i] == log[2 * h] && full[2 * i + 1] == log[2 * h + 1];
      assert k + 1 + h == k + i;
    }
  }

  /** When none of the remaining files is present and the manifest has no
      repeats, a finished loop sets two records per file, as `Paired` says. */
  lemma {:induction false} RunRecordsWhenAllMissing(name: string, repo: string, files: seq<string>, k: nat, dir: Dir,
                                                    fetch: (string, string) -> FetchResult)
    requires k <= |files| && Distinct(files)
    requires forall j :: k <= j < |files| ==> files[j] !in dir
    ensures var r := RunFrom(name, repo, files, k, dir, fetch);
      r.ending.Finished? ==> Paired(r.log, name, files, k)
    decreases |files| - k
  {
    if k < |files| {
      var f := files[k];
      match fetch(repo, f)
      case FetchRaised(_) =>
      case Fetched(size) =>
        var dir' := dir[f := size];
        forall j | k + 1 <= j < |files| ensures files[j] !in dir' {
          assert files[j] != f;
        }
        RunRecordsWhenAllMissing(name, repo, files, k + 1, dir', fetch);
        var rest := RunFrom(name, repo, files, k + 1, dir', fetch);
        if rest.ending.Finished? {
          PairedCons(rest.log, name, files, k);
        }
    }
  }

  // ---------------------------------------------------------------------
  // The whole call

  /** The directory a download of `name` in `format` goes to: the bare name when
      the format is the registry's weight type, else `name-format`. */
  function StorageKey(reg: Catalogue, name: string, format: string): (key: string)
    requires name in reg
    ensures format == reg[name].weightType ==> key == name
    ensures format != reg[name].weightType ==> key == name + "-" + format && |key| > |name|
  {
    if format != reg[name].weightType then name + "-" + format else name
  }

  /** The result of one call: the boolean it returns, the storage root it leaves,
      the progress records it sets, and the files it asks the hub for. */
  datatype Outcome = Outcome(ok: bool, store: Store, log: seq<Record>, fetched: seq<string>)

  const StartMessage := "Starting download..."
  const DoneMessage := "Download completed successfully"

  /** The GGUF branch: no table entry, a listing that raises, or no `.gguf` file
      ends the call with `False`; otherwise the chosen file is fetched, and a
      fetch that raises ends the call with `False` too. No failure removes the
      directory or sets a `failed` record. */
  function GgufAttempt(repos: map<string, string>, made: Store, name: string, key: string, hub: Hub): Outcome
    requires key in made
  {
    if name !in repos then Outcome(false, made, [], [])
    else
      var repo := repos[name];
      match hub.list(repo)
      case ListRaised(_) => Outcome(false, made, [], [])
      case Listed(all) =>
        var ggufs := Gguf.GgufOnly(all);
        if ggufs == [] then Outcome(false, made, [], [])
        else
          var file := Gguf.Choice(ggufs);
          var start := (key, Progress(Downloading, 0, Some(StartMessage)));
          match hub.fetch(repo, file)
          case FetchRaised(_) => Outcome(false, made, [start], [file])
          case Fetched(size) =>
            var dir: Dir := made[key][file := size];
            Outcome(true, made[key := dir],
                    [start, (key, Progress(Completed, 100, Some(DoneMessage)))], [file])
  }

  /** The safetensors branch: the per-file loop, then a `completed` record; or,
      when a fetch raises, a `failed` record and the removal of the whole
      directory, files present before the call included. Its records are set
      under the model's name, not under the storage key. */
  function SafetensorsAttempt(config: Registry.ModelConfig, made: Store, name: string, key: string,
                              hub: Hub): Outcome
    requires key in made
  {
    var start := (name, Progress(Downloading, 0, Some(StartMessage)));
    var run := RunFrom(name, config.repoId, config.files, 0, made[key], hub.fetch);
    match run.ending
    case Finished(dir) =>
      Outcome(true, made[key := dir],
              [start] + run.log + [(name, Progress(Completed, 100, Some(DoneMessage)))],
              run.fetched)
    case Raised(e) =>
      Outcome(false, made - {key},
              [start] + run.log + [(name, Progress(Failed, 0, Some("Download failed: " + e)))],
              run.fetched)
  }

  /** The safetensors branch once its loop has run to the end... */
  lemma AttemptFinished(config: Registry.ModelConfig, made: Store, name: string, key: string, hub: Hub,
                        log: seq<Record>, fetched: seq<string>, dir: Dir)
    requires key in made
    requires RunFrom(name, config.repoId, config.files, 0, made[key], hub.fetch) == Run(log, fetched, Finished(dir))
    ensures SafetensorsAttempt(config, made, name, key, hub) ==
      Outcome(true, made[key := dir],
              [(name, Progress(Downloading, 0, Some(StartMessage)))] + log +
              [(name, Progress(Completed, 100, Some(DoneMessage)))], fetched)
  {
  }

  /** ... or once a fetch raised. */
  lemma AttemptRaised(config: Registry.ModelConfig, made: Store, name: string, key: string, hub: Hub,
                      log: seq<Record>, fetched: seq<string>, e: string)
    requires key in made
    requires RunFrom(name, config.repoId, config.files, 0, made[key], hub.fetch) == Run(log, fetched, Raised(e))
    ensures SafetensorsAttempt(config, made, name, key, hub) ==
      Outcome(false, made - {key},
              [(name, Progress(Downloading, 0, Some(StartMessage)))] + log +
              [(name, Progress(Failed, 0, Some("Download failed: " + e)))], fetched)
  {
  }

  /** The storage root after `mkdir(exist_ok=True)` of `key`: an absent
      directory is created empty, an existing one is kept as it is. */
  function Prepared(store: Store, key: string): (r: Store)
    ensures r.Keys == store.Keys + {key}
    ensures key in store ==> r == store
    ensures key !in store ==> r[key] == map[]
    ensures forall d :: d in store ==> r[d] == store[d]
  {
    if key in store then store else store[key := map[]]
  }

  /** `download_model(name, format)`. */
  function DownloadSpec(reg: Catalogue, repos: map<string, string>, store: Store,
                        name: string, format: string, hub: Hub): (r: Outcome)
    ensures name !in reg ==> !r.ok && r.store == store && r.log == [] && r.fetched == []
    ensures name in reg && IsComplete(reg, store, StorageKey(reg, name, format)) ==>
      r.ok && r.store == store && r.log == [] && r.fetched == []
  {
    if name !in reg then Outcome(false, store, [], [])
    else
      var key := StorageKey(reg, name, format);
      if IsComplete(reg, store, key) then Outcome(true, store, [], [])
      else
        var made := Prepared(store, key);
        if format == "gguf" then GgufAttempt(repos, made, name, key, hub)
        else SafetensorsAttempt(reg[name], made, name, key, hub)
  }

  // ---------------------------------------------------------------------
  // What a call guarantees

  /** A call touches no directory other than its storage key. */
  lemma OnlyKeyChanges(reg: Catalogue, repos: map<string, string>, store: Store,
                       name: string, format: string, hub: Hub)
    requires name in reg
    ensures var r := DownloadSpec(reg, repos, store, name, format, hub);
      forall d :: d != StorageKey(reg, name, format) ==>
        (d in r.store <==> d in store) && (d in store ==> r.store[d] == store[d])
  {
  }

  /** A safetensors call that gets past the completeness check runs the
      safetensors branch on the prepared directory. */
  lemma SafetensorsBranch(reg: Catalogue, repos: map<string, string>, store: Store,
                          name: string, format: string, hub: Hub)
    requires name in reg && format != "gguf"
    requires !IsComplete(reg, store, StorageKey(reg, name, format))
    ensures var key := StorageKey(reg, name, format);
      DownloadSpec(reg, repos, store, name, format, hub) ==
      SafetensorsAttempt(reg[name], Prepared(store, key), name, key, hub)
  {
  }

  /** A successful safetensors download leaves every manifest file in the
      storage key's directory, keeps the files that were there with their sizes,
      and asks the hub exactly for the files that were missing, each once. */
  lemma SafetensorsSuccessFiles(reg: Catalogue, repos: map<string, string>, store: Store,
                                name: string, format: string, hub: Hub)
    requires name in reg && format != "gguf"
    requires !IsComplete(reg, store, StorageKey(reg, name, format))
    ensures var key := StorageKey(reg, name, format);
      var before := Prepared(store, key)[key];
      var r := DownloadSpec(reg, repos, store, name, format, hub);
      var run := RunFrom(name, reg[name].repoId, reg[name].files, 0, before, hub.fetch);
      r.ok ==>
        && run.ending.Finished?
        && key in r.store
        && (forall f :: f in reg[name].files ==> f in r.store[key])
        && (forall f :: f in before ==> f in r.store[key] && r.store[key][f] == before[f])
        && r.fetched == Fresh(reg[name].files, before.Keys)
  {
    var key := StorageKey(reg, name, format);
    var made := Prepared(store, key);
    var files := reg[name].files;
    RunFetchesMissing(name, reg[name].repoId, files, 0, made[key], hub.fetch);
    SafetensorsBranch(reg, repos, store, name, format, hub);
    assert files[0..] == files;
    var r := DownloadSpec(reg, repos, store, name, format, hub);
    if r.ok {
      forall f | f in files ensures f in r.store[key] {
        assert f in (set g | g in files);
      }
    }
  }

  /** The records of a successful safetensors download are all set under the
      model's name: `downloading` at 0, the loop's records, whose percentages
      never decrease, then `completed` at 100. */
  lemma SafetensorsSuccessLog(config: Registry.ModelConfig, made: Store, name: string, key: string,
                              hub: Hub)
    requires key in made
    ensures var r := SafetensorsAttempt(config, made, name, key, hub);
      r.ok ==>
        && |r.log| >= 2 && r.log[|r.log| - 1] == (name, Progress(Completed, 100, Some(DoneMessage)))
        && (forall i :: 0 <= i < |r.log| ==> r.log[i].0 == name && 0 <= r.log[i].1.percent <= 100)
        && (forall i, j :: 0 <= i < j < |r.log| ==> r.log[i].1.percent <= r.log[j].1.percent)
  {
    var files := config.files;
    var run := RunFrom(name, config.repoId, files, 0, made[key], hub.fetch);
    RunAscending(name, config.repoId, files, 0, made[key], hub.fetch);
    if files == [] {
      assert run.log == [];
    }
    var r := SafetensorsAttempt(config, made, name, key, hub);
    if r.ok {
      var log := [(name, Progress(Downloading, 0, Some(StartMessage)))] + run.log +
                 [(name, Progress(Completed, 100, Some(DoneMessage)))];
      assert r.log == log;
      forall i | 0 < i < |log| - 1 ensures log[i] == run.log[i - 1] {
      }
      forall i, j | 0 <= i < j < |log| ensures log[i].1.percent <= log[j].1.percent {
        if 0 < i && j < |log| - 1 {
          assert log[i] == run.log[i - 1] && log[j] == run.log[j - 1];
        }
      }
    }
  }

  /** A safetensors download on which a fetch raises removes the whole storage
      key directory, files present before the call included, and its last record
      is `failed` at 0. */
  lemma SafetensorsFailure(reg: Catalogue, repos: map<string, string>, store: Store,
                           name: string, format: string, hub: Hub)
    requires name in reg && format != "gguf"
    requires !IsComplete(reg, store, StorageKey(reg, name, format))
    ensures var key := StorageKey(reg, name, format);
      var r := DownloadSpec(reg, repos, store, name, format, hub);
      !r.ok ==>
        && key !in r.store
        && |r.log| >= 2 && r.log[|r.log| - 1].0 == name
        && r.log[|r.log| - 1].1.status == Failed && r.log[|r.log| - 1].1.percent == 0
  {
  }

  /** Every way a GGUF download can fail leaves the storage key's directory in
      place (created empty if it was absent) and sets no `failed` record. */
  lemma GgufFailureKeepsDirectory(reg: Catalogue, repos: map<string, string>, store: Store,
                                  name: string, hub: Hub)
    requires name in reg
    requires !IsComplete(reg, store, StorageKey(reg, name, "gguf"))
    ensures var key := StorageKey(reg, name, "gguf");
      var r := DownloadSpec(reg, repos, store, name, "gguf", hub);
      !r.ok ==>
        && r.store == Prepared(store, key)
        && forall i :: 0 <= i < |r.log| ==> r.log[i].1.status != Failed
  {
  }

  /** A successful GGUF download fetched exactly one file: the preferred one
      among the `.gguf` files of the model's GGUF repository. It is now in the
      storage key's directory, and the two records were set under the storage
      key, the second `completed` at 100. */
  lemma GgufSuccess(reg: Catalogue, repos: map<string, string>, store: Store, name: string, hub: Hub)
    requires name in reg
    requires !IsComplete(reg, store, StorageKey(reg, name, "gguf"))
    ensures var key := StorageKey(reg, name, "gguf");
      var r := DownloadSpec(reg, repos, store, name, "gguf", hub);
      r.ok ==>
        && name in repos && hub.list(repos[name]).Listed?
        && var all := hub.list(repos[name]).files;
           var ggufs := Gguf.GgufOnly(all);
           && ggufs != []
           && r.fetched == [Gguf.Choice(ggufs)]
           && Gguf.Choice(ggufs) in all && EndsWith(Gguf.Choice(ggufs), ".gguf")
           && key in r.store && Gguf.Choice(ggufs) in r.store[key]
           && |r.log| == 2 && r.log[0].0 == key
           && r.log[1] == (key, Progress(Completed, 100, Some(DoneMessage)))
  {
    var key := StorageKey(reg, name, "gguf");
    var r := DownloadSpec(reg, repos, store, name, "gguf", hub);
    if r.ok {
      var all := hub.list(repos[name]).files;
      var ggufs := Gguf.GgufOnly(all);
      Gguf.ChoiceFromSpec(ggufs, Gguf.Preference, 0);
      assert Gguf.Choice(ggufs) in ggufs;
    }
  }

  /** For a registry model whose weight type is not GGUF, the GGUF storage key
      is not a registry name, so its mere existence makes it complete: once one
      GGUF call has run, even a failed one, every later GGUF call for that model
      reports success at once and fetches nothing. */
  lemma GgufRetryReportsDownloaded(reg: Catalogue, repos: map<string, string>, store: Store,
                                   name: string, hub: Hub, later: Hub)
    requires name in reg && reg[name].weightType != "gguf" && name + "-gguf" !in reg
    ensures var first := DownloadSpec(reg, repos, store, name, "gguf", hub);
      DownloadSpec(reg, repos, first.store, name, "gguf", later) == Outcome(true, first.store, [], [])
  {
    var key := StorageKey(reg, name, "gguf");
    assert key == name + "-gguf" && key !in reg;
    var first := DownloadSpec(reg, repos, store, name, "gguf", hub);
    if !IsComplete(reg, store, key) {
      var made := Prepared(store, key);
      assert first == GgufAttempt(repos, made, name, key, hub);
      assert key in first.store;
    }
    assert IsComplete(reg, first.store, key);
  }

  /** Starting from an empty directory with a manifest without repeats, a
      successful loop asks the hub for each manifest file exactly once, in
      manifest order. */
  lemma EmptyDirectoryFetchesEveryFile(name: string, repo: string, files: seq<string>,
                                       fetch: (string, string) -> FetchResult)
    requires Distinct(files)
    ensures var r := RunFrom(name, repo, files, 0, map[], fetch);
      r.ending.Finished? ==> r.fetched == files
  {
    var empty: Dir := map[];
    RunFetchesMissing(name, repo, files, 0, empty, fetch);
    assert files[0..] == files;
    assert empty.Keys == {};
    FreshOfDistinct(files, {});
  }

  /** Taking the fresh elements of a sequence without repeats that avoids
      `taken` gives the sequence back. */
  lemma {:induction false} FreshOfDistinct(xs: seq<string>, taken: set<string>)
    requires Distinct(xs) && forall x :: x in xs ==> x !in taken
    ensures Fresh(xs, taken) == xs
  {
    if xs != [] {
      assert Distinct(xs[1..]) by {
        forall i, j | 0 <= i < j < |xs[1..]| ensures xs[1..][i] != xs[1..][j] {
          assert xs[1..][i] == xs[i + 1] && xs[1..][j] == xs[j + 1];
        }
      }
      forall x | x in xs[1..] ensures x !in taken + {xs[0]} {
        var i :| 0 <= i < |xs[1..]| && xs[1..][i] == x;
        assert xs[i + 1] == x;
      }
      FreshOfDistinct(xs[1..], taken + {xs[0]});
    }
  }
}
