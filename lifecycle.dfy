/**
 * What `ModelManager`'s lifecycle operations do, as functions of the manager's
 * state: the table of loaded models, the Ollama name table, the commands sent
 * to the `ollama` command line so far, and the storage root (which loading
 * writes a Modelfile into). The command line itself is outside the model: an
 * `Oracle` says how the n-th command of a run ends.
 */
module Lifecycle {
  import opened Wrappers
  import opened Text
  import opened Seqs
  import opened Storage
  import opened Prompt

  /** How a `subprocess.run` call ends: the command exits with a code and its
      standard output, or the call raises (a timeout, a missing executable, any
      other error). */
  datatype Proc = Exited(code: int, stdout: string) | Threw

  /** What the `ollama` command line answers to the n-th command of a run. */
  type Oracle = (nat, seq<string>) -> Proc

  /** The record `load_model` stores: the Ollama name, `str(model_path)` (with
      `None` for a path that was not found) and the load time. */
  datatype LoadedInfo = LoadedInfo(ollamaName: string, path: Option<string>, loadTime: int)

  /** `loaded_models`: its keys in insertion order and its entries. */
  datatype Table = Table(order: seq<string>, entries: map<string, LoadedInfo>)

  const EmptyTable := Table([], map[])

  /** The keys once each, and the same keys as the entries. */
  ghost predicate WellFormed(t: Table) {
    Distinct(t.order) && forall n :: n in t.order <==> n in t.entries
  }

  /** `xs` without `x`, the rest in order. */
  function Remove(xs: seq<string>, x: string): seq<string>
    decreases |xs|
  {
    if xs == [] then []
    else (if xs[0] == x then [] else [xs[0]]) + Remove(xs[1..], x)
  }

  /** `del loaded_models[name]`. */
  function Without(t: Table, name: string): Table {
    Table(Remove(t.order, name), t.entries - {name})
  }

  /** `loaded_models[name] = info`: a new key goes last, a present key keeps
      its place. */
  function Put(t: Table, name: string, info: LoadedInfo): Table {
    if name in t.entries then t.(entries := t.entries[name := info])
    else Table(t.order + [name], t.entries[name := info])
  }

  /** The manager's state: `loaded_models`, `ollama_models`, the commands sent
      so far and the storage root. */
  datatype World = World(loaded: Table, ollama: map<string, string>, calls: seq<seq<string>>, store: Store)

  /** One `subprocess.run`: the oracle answers the next command. */
  function Call(w: World, rt: Oracle, cmd: seq<string>): (Proc, World) {
    (rt(|w.calls|, cmd), w.(calls := w.calls + [cmd]))
  }

  function OllamaName(name: string): string {
    "locallm-" + name
  }

  const VersionCommand: seq<string> := ["ollama", "--version"]
  const ListCommand: seq<string> := ["ollama", "list"]

  function RemoveCommand(oname: string): seq<string> {
    ["ollama", "rm", oname]
  }

  function TestCommand(oname: string): seq<string> {
    ["ollama", "run", oname, "test"]
  }

  predicate Succeeded(p: Proc) {
    p.Exited? && p.code == 0
  }

  /** `_ensure_ollama`: `ollama --version` must exit with 0, and then the
      answer is whether `ollama list` does; a call that raises means false. */
  function EnsureOllama(w: World, rt: Oracle): (r: (bool, World))
    ensures r.1 == w.(calls := r.1.calls)
    ensures r.0 ==> r.1.calls == w.calls + [VersionCommand, ListCommand]
    ensures !r.0 ==> r.1.calls == w.calls + [VersionCommand] || r.1.calls == w.calls + [VersionCommand, ListCommand]
  {
    var v := Call(w, rt, VersionCommand);
    if !Succeeded(v.0) then (false, v.1)
    else
      var l := Call(v.1, rt, ListCommand);
      (Succeeded(l.0), l.1)
  }

  /** `unload_model`: false for a name that is not loaded; otherwise `ollama rm`
      (whose exit code is ignored) and both table entries go, unless the call
      raises, in which case both stay and the answer is false. */
  function UnloadStep(w: World, rt: Oracle, name: string): (bool, World) {
    if name !in w.loaded.entries then (false, w)
    else if name in w.ollama then
      var p := Call(w, rt, RemoveCommand(w.ollama[name]));
      if p.0.Threw? then (false, p.1)
      else (true, p.1.(ollama := p.1.ollama - {name}, loaded := Without(p.1.loaded, name)))
    else (true, w.(loaded := Without(w.loaded, name)))
  }

  /** The check of `ollama list`'s output: after stripping, splitting into lines
      and dropping the header, some non-blank line contains the Ollama name. */
  predicate Listed(stdout: string, oname: string) {
    var lines := Split(Strip(stdout), '\n');
    exists i :: 1 <= i < |lines| && Strip(lines[i]) != "" && Contains(lines[i], oname)
  }

  /** The loop over the listed lines, stopping at the first match. */
  method ModelListed(stdout: string, oname: string) returns (found: bool)
    ensures found == Listed(stdout, oname)
  {
    var lines := Split(Strip(stdout), '\n');
    var i := 1;
    while i < |lines|
      invariant 1 <= i <= |lines|
      invariant forall j :: 1 <= j < i ==> !(Strip(lines[j]) != "" && Contains(lines[j], oname))
    {
      var line := lines[i];
      if Strip(line) != "" && Contains(line, oname) {
        return true;
      }
      i := i + 1;
    }
    return false;
  }

  /** The inference settings the Modelfile repeats, as the text they print as. */
  datatype Defaults = Defaults(temperature: string, contextSize: string, maxTokens: string)

  /** The Modelfile `load_model` writes: the base model, then the three
      parameters, each line ended by a newline. */
  function Modelfile(base: string, d: Defaults): string {
    "FROM " + base + "\n" + (
    "PARAMETER temperature " + d.temperature + "\n" + (
    "PARAMETER num_ctx " + d.contextSize + "\n" + (
    "PARAMETER num_predict " + d.maxTokens + "\n")))
  }

  function ModelfileFor(name: string, d: Defaults): string {
    Modelfile(BaseModelFor(name), d)
  }

  /** The storage root once `Modelfile` is written into directory `dir`. */
  function WriteModelfile(store: Store, dir: string, text: string): Store
    requires dir in store
  {
    var written: Dir := store[dir]["Modelfile" := |text|];
    store[dir := written]
  }

  function CreateCommand(oname: string, dir: string): seq<string> {
    ["ollama", "create", oname, "-f", dir + "/Modelfile"]
  }

  /** Writing the Modelfile into `dir`, then `ollama create`. */
  function CreateStep(w: World, rt: Oracle, name: string, dir: string, d: Defaults): (bool, World)
    requires dir in w.store
  {
    var w1 := w.(store := WriteModelfile(w.store, dir, ModelfileFor(name, d)));
    var c := Call(w1, rt, CreateCommand(OllamaName(name), dir));
    (Succeeded(c.0), c.1)
  }

  /** The test run; on success both tables get the model. */
  function TestStep(w: World, rt: Oracle, name: string, path: Option<string>, now: int): (bool, World) {
    var oname := OllamaName(name);
    var t := Call(w, rt, TestCommand(oname));
    if Succeeded(t.0) then
      (true, t.1.(loaded := Put(t.1.loaded, name, LoadedInfo(oname, path, now)), ollama := t.1.ollama[name := oname]))
    else (false, t.1)
  }

  /** `load_model` from `_ensure_ollama` on: Ollama must be available, then
      the listing and the test run. */
  function AttachStep(w: World, rt: Oracle, name: string, path: Option<string>, now: int, d: Defaults): (bool, World) {
    var e := EnsureOllama(w, rt);
    if !e.0 then (false, e.1) else ListThenTest(e.1, rt, name, path, now, d)
  }

  /** `ollama list`; a listed model goes straight to the test run, any other
      is created first. */
  function ListThenTest(w: World, rt: Oracle, name: string, path: Option<string>, now: int, d: Defaults): (bool, World) {
    var l := Call(w, rt, ListCommand);
    if l.0.Threw? then (false, l.1)
    else if l.0.code == 0 && Listed(l.0.stdout, OllamaName(name)) then TestStep(l.1, rt, name, path, now)
    else CreateThenTest(l.1, rt, name, path, now, d)
  }

  /** Writing the Modelfile and `ollama create` (a missing path or directory
      raises, which means false), then the test run. */
  function CreateThenTest(w: World, rt: Oracle, name: string, path: Option<string>, now: int, d: Defaults): (bool, World) {
    if path.None? || path.value !in w.store then (false, w)
    else
      var c := CreateStep(w, rt, name, path.value, d);
      if !c.0 then (false, c.1) else TestStep(c.1, rt, name, path, now)
  }

  /** How `load_model` ends: with a boolean, or with the `StopIteration` that
      `next(iter({}))` raises when the table is full at size zero. */
  datatype LoadOutcome = Returned(ok: bool) | StopIteration

  /** The eviction step of `load_model`: with the table at `max_models` or
      beyond, the oldest model is unloaded, whatever that answers. */
  function Evict(w: World, rt: Oracle, max: int): World {
    if |w.loaded.order| >= max && w.loaded.order != [] then UnloadStep(w, rt, w.loaded.order[0]).1 else w
  }

  /** `load_model`: false unless downloaded; true if already loaded; then the
      eviction step (which raises on an empty table) and the attach. */
  function LoadStep(w: World, rt: Oracle, name: string, downloaded: bool, path: Option<string>,
                    now: int, max: int, d: Defaults): (LoadOutcome, World)
  {
    if !downloaded then (Returned(false), w)
    else if name in w.loaded.entries then (Returned(true), w)
    else if |w.loaded.order| >= max && w.loaded.order == [] then (StopIteration, w)
    else
      var a := AttachStep(Evict(w, rt, max), rt, name, path, now, d);
      (Returned(a.0), a.1)
  }

  /** `generate`: nothing for a model that is not loaded; otherwise the command
      `GenerateCommand` builds, and the stripped output if it exits with 0. */
  function GenerateStep(w: World, rt: Oracle, name: string, prompt: string, o: GenOptions): (Option<string>, World) {
    if name !in w.loaded.entries then (None, w)
    else
      var p := Call(w, rt, ["ollama", "run"] + Flags(o) + [w.loaded.entries[name].ollamaName, prompt]);
      if Succeeded(p.0) then (Some(Strip(p.0.stdout)), p.1) else (None, p.1)
  }

  /** The parts of a chat completion that are not constants. */
  datatype Completion = Completion(created: int, model: string, content: string, usage: Usage)

  /** `chat_completion`: the formatted prompt through `generate`; an empty or
      missing reply means nothing. */
  function ChatStep(w: World, rt: Oracle, name: string, messages: seq<Message>, o: GenOptions, now: int)
    : (Option<Completion>, World)
  {
    if name !in w.loaded.entries then (None, w)
    else
      var prompt := Formatted(messages);
      var g := GenerateStep(w, rt, name, prompt, o);
      if g.0.Some? && g.0.value != "" then (Some(Completion(now, name, g.0.value, UsageOf(prompt, g.0.value))), g.1)
      else (None, g.1)
  }

  // ---------------------------------------------------------------------
  // The invariant the lifecycle keeps

  /** `loaded_models` is well formed; `ollama_models` holds exactly its names,
      and both tables give each model the name `locallm-<name>`. */
  ghost predicate Consistent(w: World) {
    && WellFormed(w.loaded)
    && (forall n :: n in w.ollama <==> n in w.loaded.entries)
    && (forall n :: n in w.loaded.entries ==>
          w.loaded.entries[n].ollamaName == OllamaName(n) && w.ollama[n] == OllamaName(n))
  }

  /** Removing a name keeps the others, in order, and nothing else. */
  lemma {:induction false} RemoveSpec(xs: seq<string>, x: string)
    requires Distinct(xs)
    ensures Distinct(Remove(xs, x))
    ensures forall y :: y in Remove(xs, x) <==> y in xs && y != x
    ensures x !in xs ==> Remove(xs, x) == xs
    ensures xs != [] && xs[0] == x ==> Remove(xs, x) == xs[1..]
    ensures x in xs ==> |Remove(xs, x)| == |xs| - 1
    decreases |xs|
  {
    if xs != [] {
      RemoveSpec(xs[1..], x);
      assert xs == [xs[0]] + xs[1..];
      assert xs[0] !in xs[1..];
    }
  }

  /** Deleting a name keeps the table well formed and the other keys in order. */
  lemma WithoutSpec(t: Table, name: string)
    requires WellFormed(t)
    ensures WellFormed(Without(t, name))
    ensures Without(t, name).order == Remove(t.order, name)
    ensures t.order != [] ==> Without(t, t.order[0]).order == t.order[1..]
  {
    RemoveSpec(t.order, name);
    if t.order != [] {
      RemoveSpec(t.order, t.order[0]);
    }
  }

  /** Assigning a name the table does not hold appends it. */
  lemma PutSpec(t: Table, name: string, info: LoadedInfo)
    requires WellFormed(t)
    ensures WellFormed(Put(t, name, info))
    ensures name !in t.entries ==> Put(t, name, info).order == t.order + [name]
    ensures Put(t, name, info).entries == t.entries[name := info]
  {
    if name !in t.entries {
      DistinctSnoc(t.order, name);
    }
  }

  /** `unload_model`'s result and effect: true exactly for a loaded name whose
      `ollama rm` call did not raise, in which case both entries are gone and
      the other models keep their order; otherwise nothing but the command log
      changes. The invariant is kept and the storage root is untouched. */
  lemma UnloadSpec(w: World, rt: Oracle, name: string)
    requires Consistent(w)
    ensures var r := UnloadStep(w, rt, name);
      && Consistent(r.1)
      && r.1.store == w.store
      && (name !in w.loaded.entries ==> r == (false, w))
      && (name in w.loaded.entries ==> r.1.calls == w.calls + [RemoveCommand(OllamaName(name))])
      && (r.0 <==> name in w.loaded.entries && !rt(|w.calls|, RemoveCommand(OllamaName(name))).Threw?)
      && (r.0 ==> r.1.loaded == Without(w.loaded, name) && name !in r.1.loaded.entries && name !in r.1.ollama)
      && (!r.0 ==> r.1.loaded == w.loaded && r.1.ollama == w.ollama)
  {
    WithoutSpec(w.loaded, name);
  }

  /** The test run adds the model at the end of both tables exactly when the
      command exits with 0. */
  lemma TestSpec(w: World, rt: Oracle, name: string, path: Option<string>, now: int)
    requires Consistent(w) && name !in w.loaded.entries
    ensures var r := TestStep(w, rt, name, path, now);
      && Consistent(r.1)
      && r.1.store == w.store
      && r.1.calls == w.calls + [TestCommand(OllamaName(name))]
      && (r.0 <==> Succeeded(rt(|w.calls|, TestCommand(OllamaName(name)))))
      && (r.0 ==> r.1.loaded == Put(w.loaded, name, LoadedInfo(OllamaName(name), path, now))
                  && r.1.loaded.order == w.loaded.order + [name])
      && (!r.0 ==> r.1.loaded == w.loaded && r.1.ollama == w.ollama)
  {
    PutSpec(w.loaded, name, LoadedInfo(OllamaName(name), path, now));
  }

  /** The last command sent was the test run of the model, and it exited
      with 0. */
  predicate TestedLast(w: World, rt: Oracle, name: string) {
    && |w.calls| > 0
    && w.calls[|w.calls| - 1] == TestCommand(OllamaName(name))
    && Succeeded(rt(|w.calls| - 1, TestCommand(OllamaName(name))))
  }

  /** What attaching a model that was not loaded leaves behind: the
      invariant; commands only added; on success the model last in the table
      and its passing test run the last command; on failure the tables as they
      were; and no change to the storage root but the Modelfile, written into
      the model's directory. */
  ghost predicate Attached(w: World, r: (bool, World), rt: Oracle, name: string, path: Option<string>, now: int, d: Defaults) {
    && Consistent(r.1)
    && |w.calls| <= |r.1.calls| && r.1.calls[..|w.calls|] == w.calls
    && (r.0 ==> r.1.loaded == Put(w.loaded, name, LoadedInfo(OllamaName(name), path, now))
                && r.1.loaded.order == w.loaded.order + [name]
                && TestedLast(r.1, rt, name))
    && (!r.0 ==> r.1.loaded == w.loaded && r.1.ollama == w.ollama)
    && (r.1.store == w.store ||
        (path.Some? && path.value in w.store && r.1.store == WriteModelfile(w.store, path.value, ModelfileFor(name, d))))
  }

  /** Commands sent before an attach do not change what it leaves behind. */
  lemma AttachedAfterCalls(w: World, w1: World, r: (bool, World), rt: Oracle, name: string, path: Option<string>, now: int, d: Defaults)
    requires w1 == w.(calls := w1.calls) && |w.calls| <= |w1.calls| && w1.calls[..|w.calls|] == w.calls
    requires Attached(w1, r, rt, name, path, now, d)
    ensures Attached(w, r, rt, name, path, now, d)
  {
    assert r.1.calls[..|w1.calls|][..|w.calls|] == r.1.calls[..|w.calls|];
  }

  lemma TestAttached(w: World, rt: Oracle, name: string, path: Option<string>, now: int, d: Defaults)
    requires Consistent(w) && name !in w.loaded.entries
    ensures Attached(w, TestStep(w, rt, name, path, now), rt, name, path, now, d)
  {
    TestSpec(w, rt, name, path, now);
  }

  lemma CreateAttached(w: World, rt: Oracle, name: string, path: Option<string>, now: int, d: Defaults)
    requires Consistent(w) && name !in w.loaded.entries
    ensures Attached(w, CreateThenTest(w, rt, name, path, now, d), rt, name, path, now, d)
  {
    if path.Some? && path.value in w.store {
      var c := CreateStep(w, rt, name, path.value, d);
      if c.0 {
        TestSpec(c.1, rt, name, path, now);
        var r := TestStep(c.1, rt, name, path, now);
        assert r.1.calls[..|c.1.calls|][..|w.calls|] == r.1.calls[..|w.calls|];
      }
    }
  }

  lemma ListAttached(w: World, rt: Oracle, name: string, path: Option<string>, now: int, d: Defaults)
    requires Consistent(w) && name !in w.loaded.entries
    ensures Attached(w, ListThenTest(w, rt, name, path, now, d), rt, name, path, now, d)
  {
    var l := Call(w, rt, ListCommand);
    if !l.0.Threw? {
      if l.0.code == 0 && Listed(l.0.stdout, OllamaName(name)) {
        TestAttached(l.1, rt, name, path, now, d);
      } else {
        CreateAttached(l.1, rt, name, path, now, d);
      }
      AttachedAfterCalls(w, l.1, ListThenTest(w, rt, name, path, now, d), rt, name, path, now, d);
    }
  }

  /** Attaching a model that is not loaded leaves what `Attached` says. */
  lemma AttachSpec(w: World, rt: Oracle, name: string, path: Option<string>, now: int, d: Defaults)
    requires Consistent(w) && name !in w.loaded.entries
    ensures Attached(w, AttachStep(w, rt, name, path, now, d), rt, name, path, now, d)
  {
    var e := EnsureOllama(w, rt);
    if e.0 {
      ListAttached(e.1, rt, name, path, now, d);
      AttachedAfterCalls(w, e.1, AttachStep(w, rt, name, path, now, d), rt, name, path, now, d);
    }
  }

  /** The eviction step keeps the invariant and the storage root, removes at
      most the oldest model, and only when the table is at the limit. */
  lemma EvictSpec(w: World, rt: Oracle, max: int)
    requires Consistent(w)
    ensures var w1 := Evict(w, rt, max);
      && Consistent(w1)
      && w1.store == w.store
      && |w.calls| <= |w1.calls| && w1.calls[..|w.calls|] == w.calls
      && (forall n :: n in w1.loaded.entries ==> n in w.loaded.entries)
      && (w1.loaded.order == w.loaded.order ||
          (|w.loaded.order| >= max && w.loaded.order != [] && w1.loaded.order == w.loaded.order[1..]))
  {
    if |w.loaded.order| >= max && w.loaded.order != [] {
      UnloadSpec(w, rt, w.loaded.order[0]);
      WithoutSpec(w.loaded, w.loaded.order[0]);
    }
  }

  /** Which way the eviction goes: a table below the limit is left alone; a
      full table loses its oldest model exactly when the `ollama rm` of that
      model does not raise, and otherwise keeps both tables as they were. */
  lemma EvictOldest(w: World, rt: Oracle, max: int)
    requires Consistent(w)
    ensures |w.loaded.order| < max ==> Evict(w, rt, max) == w
    ensures |w.loaded.order| >= max && w.loaded.order != [] ==>
      var rm := rt(|w.calls|, RemoveCommand(OllamaName(w.loaded.order[0])));
      && (!rm.Threw? ==> Evict(w, rt, max).loaded.order == w.loaded.order[1..]
                         && w.loaded.order[0] !in Evict(w, rt, max).ollama)
      && (rm.Threw? ==> Evict(w, rt, max).loaded == w.loaded && Evict(w, rt, max).ollama == w.ollama)
  {
    if |w.loaded.order| >= max && w.loaded.order != [] {
      UnloadSpec(w, rt, w.loaded.order[0]);
      WithoutSpec(w.loaded, w.loaded.order[0]);
    }
  }

  /** `load_model` changes nothing for a model that is not downloaded (false)
      or already loaded (true), and raises exactly when the table is empty and
      the limit is zero or less. */
  lemma LoadGuards(w: World, rt: Oracle, name: string, downloaded: bool, path: Option<string>,
                   now: int, max: int, d: Defaults)
    ensures var r := LoadStep(w, rt, name, downloaded, path, now, max, d);
      && (!downloaded ==> r == (Returned(false), w))
      && (downloaded && name in w.loaded.entries ==> r == (Returned(true), w))
      && (r.0 == StopIteration <==> downloaded && name !in w.loaded.entries && w.loaded.order == [] && max <= 0)
  {
  }

  /** `load_model` keeps the invariant, and a model it newly reports loaded
      is in the table with the record of this load, its test run having been
      the last command and having exited with 0. */
  lemma LoadSpec(w: World, rt: Oracle, name: string, downloaded: bool, path: Option<string>,
                 now: int, max: int, d: Defaults)
    requires Consistent(w)
    ensures var r := LoadStep(w, rt, name, downloaded, path, now, max, d);
      && Consistent(r.1)
      && (r.0 == Returned(true) && name !in w.loaded.entries ==>
            && name in r.1.loaded.entries
            && r.1.loaded.entries[name] == LoadedInfo(OllamaName(name), path, now)
            && TestedLast(r.1, rt, name))
  {
    if downloaded && name !in w.loaded.entries && !(|w.loaded.order| >= max && w.loaded.order == []) {
      var w1 := Evict(w, rt, max);
      EvictSpec(w, rt, max);
      AttachSpec(w1, rt, name, path, now, d);
      PutSpec(w1.loaded, name, LoadedInfo(OllamaName(name), path, now));
    }
  }

  /** The table after `load_model`: the new model is appended exactly when
      the load newly succeeds; before that, a load that gets past its guards
      with the table full drops the oldest model exactly when its `ollama rm`
      does not raise, whether or not the attach then succeeds. */
  lemma LoadTable(w: World, rt: Oracle, name: string, downloaded: bool, path: Option<string>,
                  now: int, max: int, d: Defaults)
    requires Consistent(w)
    ensures var r := LoadStep(w, rt, name, downloaded, path, now, max, d);
      var added := if r.0 == Returned(true) && name !in w.loaded.entries then [name] else [];
      var evicting := downloaded && name !in w.loaded.entries && |w.loaded.order| >= max && w.loaded.order != [];
      && (|| r.1.loaded.order == w.loaded.order + added
          || (evicting && r.1.loaded.order == w.loaded.order[1..] + added))
      && (!evicting ==> r.1.loaded.order == w.loaded.order + added)
      && (evicting && !rt(|w.calls|, RemoveCommand(OllamaName(w.loaded.order[0]))).Threw? ==>
            r.1.loaded.order == w.loaded.order[1..] + added)
      && (evicting && rt(|w.calls|, RemoveCommand(OllamaName(w.loaded.order[0]))).Threw? ==>
            r.1.loaded.order == w.loaded.order + added)
  {
    if downloaded && name !in w.loaded.entries && !(|w.loaded.order| >= max && w.loaded.order == []) {
      EvictSpec(w, rt, max);
      EvictOldest(w, rt, max);
      AttachSpec(Evict(w, rt, max), rt, name, path, now, d);
    }
  }

  /** With a positive limit and a table within it, `load_model` leaves at most
      `max_models` models loaded, unless the `ollama rm` of the oldest model
      raised, in which case there is one more and the oldest is still first. */
  lemma LoadBound(w: World, rt: Oracle, name: string, downloaded: bool, path: Option<string>,
                  now: int, max: int, d: Defaults)
    requires Consistent(w) && 1 <= max && |w.loaded.order| <= max
    ensures var r := LoadStep(w, rt, name, downloaded, path, now, max, d);
      || |r.1.loaded.order| <= max
      || (&& w.loaded.order != [] && |w.loaded.order| == max
          && rt(|w.calls|, RemoveCommand(OllamaName(w.loaded.order[0]))).Threw?
          && |r.1.loaded.order| == max + 1 && r.1.loaded.order[0] == w.loaded.order[0])
  {
    LoadTable(w, rt, name, downloaded, path, now, max, d);
  }

  /** With room for one model, loading `a` and then `b`, with no `ollama rm`
      that raises, leaves only `b` loaded. */
  lemma LoadTwiceKeepsLast(w: World, rt: Oracle, a: string, b: string, pathA: Option<string>, pathB: Option<string>,
                           t1: int, t2: int, d: Defaults)
    requires Consistent(w) && w.loaded.order == [] && a != b
    requires LoadStep(w, rt, a, true, pathA, t1, 1, d).0 == Returned(true)
    requires var w1 := LoadStep(w, rt, a, true, pathA, t1, 1, d).1;
      && LoadStep(w1, rt, b, true, pathB, t2, 1, d).0 == Returned(true)
      && !rt(|w1.calls|, RemoveCommand(OllamaName(a))).Threw?
    ensures LoadStep(w, rt, a, true, pathA, t1, 1, d).1.loaded.order == [a]
    ensures var w1 := LoadStep(w, rt, a, true, pathA, t1, 1, d).1;
      LoadStep(w1, rt, b, true, pathB, t2, 1, d).1.loaded.order == [b]
  {
    var w1 := LoadStep(w, rt, a, true, pathA, t1, 1, d).1;
    assert a !in w.loaded.entries;
    LoadTable(w, rt, a, true, pathA, t1, 1, d);
    assert w1.loaded.order == [a];
    LoadSpec(w, rt, a, true, pathA, t1, 1, d);
    assert b !in w1.loaded.entries;
    LoadTable(w1, rt, b, true, pathB, t2, 1, d);
  }

  /** Everything `load_model` does to the storage root is the Modelfile written
      into the directory it found for the model; commands are only added. */
  lemma LoadStore(w: World, rt: Oracle, name: string, downloaded: bool, path: Option<string>,
                  now: int, max: int, d: Defaults)
    requires Consistent(w)
    ensures var r := LoadStep(w, rt, name, downloaded, path, now, max, d);
      && |w.calls| <= |r.1.calls| && r.1.calls[..|w.calls|] == w.calls
      && (|| r.1.store == w.store
          || (path.Some? && path.value in w.store && r.1.store == WriteModelfile(w.store, path.value, ModelfileFor(name, d))))
  {
    if downloaded && name !in w.loaded.entries && !(|w.loaded.order| >= max && w.loaded.order == []) {
      var w1 := Evict(w, rt, max);
      EvictSpec(w, rt, max);
      AttachSpec(w1, rt, name, path, now, d);
      var r := LoadStep(w, rt, name, downloaded, path, now, max, d);
      assert r.1.calls[..|w1.calls|][..|w.calls|] == r.1.calls[..|w.calls|];
    }
  }

  /** `generate` changes only the command log; for a loaded model it sends
      the command with the model's Ollama name, and a text it returns is the
      stripped output of a run that exited with 0. */
  lemma GenerateSpec(w: World, rt: Oracle, name: string, prompt: string, o: GenOptions)
    requires Consistent(w)
    ensures var r := GenerateStep(w, rt, name, prompt, o);
      var cmd := ["ollama", "run"] + Flags(o) + [OllamaName(name), prompt];
      && r.1 == w.(calls := r.1.calls)
      && (name !in w.loaded.entries ==> r == (None, w))
      && (name in w.loaded.entries ==> r.1.calls == w.calls + [cmd])
      && (r.0.Some? <==> name in w.loaded.entries && Succeeded(rt(|w.calls|, cmd)))
      && (r.0.Some? ==> r.0.value == Strip(rt(|w.calls|, cmd).stdout))
      && (r.0.Some? && r.0.value != "" ==> !IsSpace(r.0.value[0]) && !IsSpace(r.0.value[|r.0.value| - 1]))
  {
    var r := GenerateStep(w, rt, name, prompt, o);
    if r.0.Some? {
      StripSpec(rt(|w.calls|, ["ollama", "run"] + Flags(o) + [OllamaName(name), prompt]).stdout);
    }
  }

  /** `chat_completion` changes only the command log; a completion it returns
      carries a non-empty reply without surrounding whitespace and usage
      counted from the formatted prompt, which is the last word of the command
      sent and ends with the assistant cue. */
  lemma ChatSpec(w: World, rt: Oracle, name: string, messages: seq<Message>, o: GenOptions, now: int)
    requires Consistent(w)
    ensures var r := ChatStep(w, rt, name, messages, o, now);
      && r.1 == w.(calls := r.1.calls)
      && (name !in w.loaded.entries ==> r == (None, w))
      && (name in w.loaded.entries ==>
            && |r.1.calls| == |w.calls| + 1
            && var cmd := r.1.calls[|w.calls|];
            && cmd[|cmd| - 1] == Formatted(messages)
            && EndsWith(cmd[|cmd| - 1], AssistantCue))
      && (r.0.Some? ==>
            && r.0.value.model == name && r.0.value.created == now
            && r.0.value.content != ""
            && !IsSpace(r.0.value.content[0]) && !IsSpace(r.0.value.content[|r.0.value.content| - 1])
            && r.0.value.usage == UsageOf(Formatted(messages), r.0.value.content))
  {
    GenerateSpec(w, rt, name, Formatted(messages), o);
    PromptEndsWithCue(messages);
  }

  /** The presence test is a substring test: a listed line naming any longer
      model that starts with the Ollama name counts as the model itself (a
      listed `locallm-gemma-2-9b-it` makes `locallm-gemma-2-9b` count as
      present). */
  lemma ListedByLongerName(header: string, oname: string, extra: string)
    requires header != "" && '\n' !in header && !IsSpace(header[0])
    requires oname != "" && !IsSpace(oname[0]) && '\n' !in oname + extra
    requires extra != "" && !IsSpace(extra[|extra| - 1])
    ensures Listed(header + "\n" + oname + extra, oname)
  {
    var line := oname + extra;
    var s := header + "\n" + oname + extra;
    assert s == header + ['\n'] + line;
    StripUnchanged(s);
    SplitAfterPart(header, line, '\n');
    SplitWhole(line, '\n');
    var lines := Split(Strip(s), '\n');
    assert lines == [header, line];
    StripNotBlank(line, 0);
    assert StartsWith(line, oname);
    assert Strip(lines[1]) != "" && Contains(lines[1], oname);
  }

  /** The Modelfile's lines: the base model, then the three parameters, one
      per line, each line ended by a newline. */
  lemma ModelfileLines(base: string, d: Defaults)
    requires '\n' !in base && '\n' !in d.temperature && '\n' !in d.contextSize && '\n' !in d.maxTokens
    ensures Split(Modelfile(base, d), '\n') ==
      ["FROM " + base, "PARAMETER temperature " + d.temperature, "PARAMETER num_ctx " + d.contextSize,
       "PARAMETER num_predict " + d.maxTokens, ""]
  {
    var l1, l2, l3, l4 := "FROM " + base, "PARAMETER temperature " + d.temperature,
      "PARAMETER num_ctx " + d.contextSize, "PARAMETER num_predict " + d.maxTokens;
    assert l4 + "\n" == l4 + ['\n'] + "";
    SplitAfterPart(l4, "", '\n');
    SplitAfterPart(l3, l4 + "\n", '\n');
    SplitAfterPart(l2, l3 + "\n" + (l4 + "\n"), '\n');
    SplitAfterPart(l1, l2 + "\n" + (l3 + "\n" + (l4 + "\n")), '\n');
  }
}
