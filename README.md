# Local model lifecycle: downloader and manager

This project models the two classes at the centre of a local LLM server that
downloads model weights from the Hugging Face hub and serves them through the
`ollama` command line:

- `ModelDownloader` (`src/downloader.py`). It holds the fixed model registry
  and a storage root with one directory per model. It tracks download
  progress. It lists, resolves, downloads and removes models on disk.
- `ModelManager` (`src/model_manager.py`). It owns a downloader and the
  table of loaded models, kept in insertion order. It also holds the table
  from model names to Ollama names. It loads models into Ollama, unloading
  the oldest when the table is full. It unloads models, generates text and
  answers chat completions.

## How the model is built

The storage root is a `Store`: a map from directory name to a `Dir`, and a
`Dir` maps each file's relative path to its size. A directory exists exactly
when its name is a key. It is "non-empty" exactly when its map is non-empty.

Both classes are Dafny classes whose fields are the source's attributes, and
their methods are the source's methods. Each method is proved equal to a pure
function that says what the operation means. The properties the source
promises are then proved as lemmas about those functions. This is how the
functions divide up:

- `Storage`: completeness, path resolution, the removal target and the
  on-disk listing.
- `Fetching`: one `download_model` call, as its result, the storage root it
  leaves, the progress records it sets and the files it asks the hub for.
- `Lifecycle`: the manager's state transitions (`World` is the loaded table,
  the Ollama name table, the commands sent so far and the storage root).
- `Listings`: the manager's two views of the listing.
- `Prompt`: prompt formatting, token estimates, the Modelfile's base model
  and the `ollama run` command line.

Whatever lies outside the process becomes a parameter:

- The hub is a `Hub` oracle. A file fetch either stores the file (giving its
  size) or raises. A repository listing either lists the files or raises.
- The `ollama` command line is an `Oracle`. It maps the call's index in the
  run and the command words to `Exited(code, stdout)` or `Threw`. `Threw`
  covers a timeout, a missing executable and any other exception.
- Times (`time.time()`) are `now` parameters.
- The configuration values the manager reads (`max_loaded_models`, and the
  temperature, context size and maximum tokens the Modelfile repeats) are
  constructor parameters. Their defaults are 1, 0.7, 2048 and 1024 in
  `src/config.py` (lines 26, 37-39).
- Directory iteration order (`iterdir`) is whatever the method picks. It is
  returned as a ghost `order` that enumerates the root.

### Where the code and its description differ (the model follows the code)

- When the `ollama rm` call raises, `unload_model` keeps both table entries
  and answers false. Its description says the bookkeeping is always removed.
  Because `load_model` ignores the eviction's answer, the loaded table can
  then hold `max_loaded_models + 1` models. `Lifecycle.LoadBound` proves
  that a load starting within a positive limit ends within it, or one past it
  only when the `ollama rm` of the oldest model raised.
- The description also implies `max_loaded_models` is at least 1. If it is 0
  or less and nothing is loaded, `next(iter({}))` raises `StopIteration` out
  of `load_model` (`LoadOutcome.StopIteration`). If it is 0 or less with
  something loaded, every load evicts first.
- A failed safetensors download deletes the whole storage directory,
  including files that were there before the call. A failed GGUF download
  removes nothing and records no `failed` status. The description says that
  partial downloads are always cleaned up.
- `load_model` checks that the model is downloaded before checking whether
  it is already loaded. For an already-loaded model whose files were later
  deleted, it returns false.
- The `ollama list` check is a substring test. A listed
  `locallm-gemma-2-9b-it` makes `locallm-gemma-2-9b` count as present
  (`Lifecycle.ListedByLongerName`).
- The third stage of `get_model_path` (the scan of the root) can never find
  a directory the second stage missed. The model's method keeps the scan and
  proves it finds nothing new.
- The Modelfile's base model is found by substring tests on the lower-cased
  name, falling back to `llama3.1`. So `phi-3-mini` gets `llama3.1`, and the
  registry's `ollama_base` field is never used.

## Model

| member | source | states |
|---|---|---|
| Registry.AvailableNames | src/downloader.py:158-160 | the registry's names: exactly the catalogue's keys, each once |
| Storage.CompleteIffManifestCovered | src/downloader.py:162-174 | whatever files a registry model's directory holds, it counts as downloaded exactly when they cover the manifest |
| Storage.FirstVariant | src/downloader.py:196-199 | the result is the first `name + suffix` in suffix order that exists (and is non-empty when required), and none is found only when no suffix qualifies |
| Storage.ResolvedPath | src/downloader.py:189-214 | the path is the bare name exactly when that model is complete; otherwise it is the first non-empty suffixed sibling in the order `-gguf`, `-safetensors`, `-pytorch`; it is absent exactly when neither applies; every result names an existing directory |
| Storage.RemovalTarget | src/downloader.py:362-377 | the bare directory when it exists; else the first existing suffixed sibling, empty or not; nothing exactly when no candidate exists |
| Storage.DetectedType | src/downloader.py:463-471 | the type is `gguf`, `safetensors`, `pytorch` or `unknown`, each exactly when the top-level extensions with higher priority are absent and its own is present |
| Storage.MatchedSuffix | src/downloader.py:418-422 | a matched suffix is a format suffix the directory name ends with; no match means it ends with none of them |
| Storage.SuffixDeterminesMatch | src/downloader.py:418-446 | a name ends with at most one format suffix, so the scan's first match is that suffix and cutting it off gives back the base name |
| Storage.RegistryEntryFacts | src/downloader.py:393-409 | the first pass lists a registry name exactly when its directory is non-empty, and the entry it lists describes that directory |
| Storage.RegistryPassNames | src/downloader.py:392-409 | the first pass lists exactly the registry names whose directory is non-empty, each entry describing its directory |
| Storage.NotOrphan | src/downloader.py:418-449 | a directory the scan's own test does not treat as a suffixed variant of an absent registry model is not one |
| Storage.ScanEntryFacts | src/downloader.py:412-480 | each second-pass entry describes its directory; a registry name comes only from a non-empty suffixed variant whose base directory is absent; any other name comes only from its own non-empty directory that looks like a model |
| Storage.ScanPassFacts | src/downloader.py:412-480 | an entry comes out of the second pass exactly when the scan of some directory produces it |
| Storage.ListedIsDownloadable | src/downloader.py:387-482 | every listed entry describes its directory, and its name is downloadable in the scan-free sense |
| Storage.OrphanEntry | src/downloader.py:420-445 | a non-empty suffixed variant of a registry model whose base is absent is listed under the base name, with the suffix's type and status `downloaded` |
| Storage.OwnEntry | src/downloader.py:449-480 | a non-empty, model-like directory outside the registry is listed under its own name with the detected type |
| Storage.ScannedIsListed | src/downloader.py:387-482 | whatever the scan produces for a directory is in the listing |
| Storage.DownloadableIsListed | src/downloader.py:387-482 | every downloadable name is in the listing, whatever the directory order |
| Storage.ListingSpec | src/downloader.py:387-482 | the listing's names are exactly the downloadable names, for every iteration order, and each entry describes the directory it came from (size, type, status) |
| Gguf.GgufOnly | src/downloader.py:254-255 | the kept files are exactly the repository files ending in `.gguf` |
| Gguf.GgufOnlyAppend | src/downloader.py:254-255 | filtering a listing split in two gives the two filtered parts in order, so the kept files are the listing's `.gguf` files in listing order |
| Gguf.GgufOnlySingle | src/downloader.py:255 | a single file is kept exactly when its name ends with `.gguf` |
| Gguf.GgufOnlyFirst | src/downloader.py:255-272 | the first kept file is the listing's first `.gguf` file, the one the fallback of line 272 takes |
| Gguf.FirstContaining | src/downloader.py:264-267 | the index found is that of the first file containing the tag, and nothing is found only when no file contains it |
| Gguf.ChoiceFromSpec | src/downloader.py:261-272 | when some preferred tag occurs, the chosen file is the first one containing the best-ranked tag that occurs; otherwise it is the first file |
| Gguf.PickGgufFile | src/downloader.py:261-272 | the nested preference loop with its breaks returns the specified choice, which is one of the files |
| Fetching.ReplayUntouched | src/downloader.py:176-186 | a model with no progress record set keeps what it reported before |
| Fetching.ReplayLast | src/downloader.py:176-186 | a model reports the last progress record set for it, since each record replaces the whole entry |
| Fetching.ReplayReports | src/downloader.py:176-186 | both cases at once: no record means unchanged, and otherwise the last record is reported |
| Fetching.Pct | src/downloader.py:317-335 | the percentage after `k` of `total` files lies in 0..100 and is 100 when every file is done |
| Fetching.PctMonotone | src/downloader.py:317-335 | more files done never shows a smaller percentage |
| Fetching.RunFetchesMissing | src/downloader.py:312-340 | a finished loop asked the hub exactly for the missing files, each once in manifest order; it leaves every manifest file present, with the hub's sizes for fetched files, and keeps earlier files unchanged |
| Fetching.RunAscending | src/downloader.py:312-337 | every record the loop sets is a `downloading` record, and their percentages never decrease |
| Fetching.RunRecordsWhenAllMissing | src/downloader.py:312-337 | when no file is present and the manifest has no repeats, a finished loop sets exactly a before-record and an after-record per file, in order |
| Fetching.StorageKey | src/downloader.py:222-224 | the directory is the bare name for the registry's own type and `name-format` otherwise, which is longer than the name |
| Fetching.Prepared | src/downloader.py:230-232 | `mkdir(exist_ok=True)` adds the key as an empty directory when absent and changes nothing else |
| Fetching.DownloadSpec | src/downloader.py:216-228 | a name outside the registry gives false and changes nothing; a storage directory that is already complete gives true and changes nothing |
| Fetching.OnlyKeyChanges | src/downloader.py:216-360 | a download touches no directory other than its storage key |
| Fetching.SafetensorsSuccessFiles | src/downloader.py:309-345 | after a successful safetensors download, every manifest file is in the directory; files present before keep their sizes; the hub was asked exactly for the missing files, each once |
| Fetching.SafetensorsSuccessLog | src/downloader.py:299-345 | the records of a successful download are all under the model's name, start at 0, never decrease and end with `completed` at 100 |
| Fetching.SafetensorsFailure | src/downloader.py:347-360 | a failed safetensors download removes the storage directory, and its last record is `failed` at 0 under the model's name |
| Fetching.GgufFailureKeepsDirectory | src/downloader.py:230-295 | every GGUF failure leaves the storage directory in place (created empty if it was absent) and sets no `failed` record |
| Fetching.GgufSuccess | src/downloader.py:247-288 | a successful GGUF download fetched exactly the preferred `.gguf` file of the model's GGUF repository, which is now in the directory, and set two records under the storage key, the second `completed` at 100 |
| Fetching.GgufRetryReportsDownloaded | src/downloader.py:222-228 | after any GGUF call for a non-GGUF registry model, even a failed one, the next GGUF call reports success at once and fetches nothing |
| Fetching.EmptyDirectoryFetchesEveryFile | src/downloader.py:312-332 | from an empty directory and a manifest without repeats, a finished loop fetches the manifest in order |
| Downloader.DirectorySize | src/downloader.py:400 | the loop's total is the sum of the directory's file sizes |
| Downloader.ModelDownloader.constructor | src/downloader.py:37-40 | the downloader starts with the registry, the given storage root and an empty progress table |
| Downloader.ModelDownloader.ListAvailableModels | src/downloader.py:158-160 | the registry's names in registry order, each once, exactly the registry's keys |
| Downloader.ModelDownloader.IsModelDownloaded | src/downloader.py:162-174 | false without the directory; for a registry model, whether every manifest file is present; otherwise, whether the directory exists |
| Downloader.ModelDownloader.GetDownloadProgress | src/downloader.py:176-178 | the last record set for the name, or `not_started` at 0 when none was |
| Downloader.ModelDownloader.SetDownloadProgress | src/downloader.py:180-187 | replaces the name's whole record and changes nothing else |
| Downloader.ModelDownloader.GetModelPath | src/downloader.py:189-214 | the three-stage search returns the resolved path |
| Downloader.ModelDownloader.DownloadModel | src/downloader.py:216-360 | result, storage root, files fetched and progress records are those `DownloadSpec` gives, and the progress table stays the replay of all records |
| Downloader.ModelDownloader.DownloadGguf | src/downloader.py:234-295 | the GGUF branch ends as the GGUF attempt function says |
| Downloader.ModelDownloader.DownloadSafetensors | src/downloader.py:297-360 | the safetensors branch ends as the safetensors attempt function says |
| Downloader.ModelDownloader.FetchFiles | src/downloader.py:309-340 | the per-file loop changes only the storage directory and sets exactly the records of the specified run |
| Downloader.ModelDownloader.FetchFile | src/downloader.py:312-340 | one pass of the loop advances the run by the step its file takes |
| Downloader.ModelDownloader.ListDownloadedModels | src/downloader.py:387-482 | the two passes return the listing for the registry order and the iteration order used |
| Downloader.ModelDownloader.ListRegistered | src/downloader.py:392-409 | the first pass lists the registry models with non-empty directories and marks every registry name checked |
| Downloader.ModelDownloader.RegisteredEntry | src/downloader.py:393-409 | one registry name's entry, with its size, type and completeness status |
| Downloader.ModelDownloader.ScanDirectory | src/downloader.py:412-480 | one directory's scan entry, leaving the checked names unchanged |
| Downloader.ModelDownloader.RemoveModel | src/downloader.py:362-385 | true exactly when a removal target exists; that directory, and nothing else, is deleted |
| Text.StripSpec | src/model_manager.py:118 | `strip()` returns the slice between the leading and the trailing whitespace runs, and the result neither starts nor ends with whitespace |
| Text.StripUnchanged | src/model_manager.py:247 | text with no whitespace at either end is its own strip |
| Text.SplitJoin | src/model_manager.py:118 | splitting at newlines and rejoining gives the text back, and no part holds a newline |
| Text.SplitOfJoin | src/model_manager.py:317 | splitting the newline-join of newline-free parts gives the parts back |
| Text.Lower | src/model_manager.py:132 | `lower()` keeps the length and folds each letter `A`-`Z` to lower case, leaving every other character alone |
| Prompt.LineOf | src/model_manager.py:306-314 | `System: `, `Human: ` or `Assistant: ` plus the content for the three roles; a missing role counts as user; no line for any other role |
| Prompt.FormatMessages | src/model_manager.py:303-317 | the loop builds the specified prompt: the message lines, then the cue, joined by newlines |
| Prompt.PromptEndsWithCue | src/model_manager.py:316-317 | every prompt ends with `Assistant: ` |
| Prompt.LinesSingle | src/model_manager.py:306-314 | a message line spans several lines only if its content does |
| Prompt.PromptLines | src/model_manager.py:303-317 | when no content holds a newline, splitting the prompt at newlines gives back the message lines and the cue |
| Prompt.EstimateTokens | src/model_manager.py:319-321 | at least 1; 1 for texts shorter than 8; otherwise the largest `n` with `4n` at most the length |
| Prompt.EstimateMonotone | src/model_manager.py:319-321 | a longer text never gets a smaller estimate |
| Prompt.UsageOf | src/model_manager.py:291-295 | prompt and completion tokens are the two estimates, total is their sum and at least 2 |
| Prompt.BaseModelFor | src/model_manager.py:131-141 | `gemma2` exactly when the lower-cased name contains `gemma`; `qwen2.5` exactly for `qwen` without `gemma`; `mistral` exactly for `mistral` without the three earlier families; `llama3.1` otherwise |
| Prompt.GenerateCommand | src/model_manager.py:223-236 | `ollama run`, then the given options' flags, then the model and the prompt |
| Prompt.CommandShape | src/model_manager.py:223-236 | the command has two words per given option; it starts `ollama run` and ends with the model and the prompt; with no option it is the four-word form; a temperature comes first |
| Lifecycle.EnsureOllama | src/model_manager.py:24-54 | only the command log changes; success means both `--version` and `list` were sent |
| Lifecycle.ModelListed | src/model_manager.py:115-122 | the scan of the lines after the header finds the model exactly when some non-blank line contains its Ollama name |
| Lifecycle.ListedByLongerName | src/model_manager.py:118-122 | a listing that only holds a longer name starting with the Ollama name still counts as listing it |
| Lifecycle.ModelfileLines | src/model_manager.py:143-147 | the Modelfile is the `FROM` line and the three `PARAMETER` lines, each ended by a newline |
| Lifecycle.RemoveSpec | src/model_manager.py:205-207 | deleting a key keeps the other keys in order, each once, and drops one element exactly when the key was present |
| Lifecycle.WithoutSpec | src/model_manager.py:205-207 | `del` keeps the table well formed, and deleting the oldest key drops the first of the order |
| Lifecycle.PutSpec | src/model_manager.py:170-175 | assignment keeps the table well formed, puts a new key last, and sets its entry |
| Lifecycle.UnloadSpec | src/model_manager.py:189-212 | false and no change for a model that is not loaded; otherwise one `ollama rm`; true exactly when it does not raise, and then the model leaves both tables, else both stay; the invariant is kept |
| Lifecycle.TestSpec | src/model_manager.py:161-180 | one test run; on a zero exit the model is recorded last with its Ollama name, path and time, else nothing changes; the invariant is kept |
| Lifecycle.TestAttached | src/model_manager.py:161-180 | the test run leaves an attached state |
| Lifecycle.CreateAttached | src/model_manager.py:124-180 | Modelfile, `ollama create` and test run leave an attached state, with the store changed at most by the Modelfile |
| Lifecycle.ListAttached | src/model_manager.py:107-180 | the listing with either branch leaves an attached state |
| Lifecycle.AttachSpec | src/model_manager.py:99-180 | from `_ensure_ollama` on, a load keeps the invariant and only adds commands; on success the model is last in the table and its passing test was the last command; on failure both tables are as they were; the store changes at most by the Modelfile in the model's directory |
| Lifecycle.EvictSpec | src/model_manager.py:94-97 | eviction keeps the invariant and the store, only adds commands, and either leaves the order alone or drops its oldest model when the table was full |
| Lifecycle.EvictOldest | src/model_manager.py:94-97 | a table below the limit is left alone; a full table loses its oldest model exactly when the `ollama rm` of that model does not raise, and otherwise keeps both tables as they were |
| Lifecycle.LoadGuards | src/model_manager.py:84-97 | false and no change when not downloaded; true and no change when already loaded; `StopIteration` exactly when a downloaded, unloaded model meets an empty table with a maximum of 0 or less |
| Lifecycle.LoadSpec | src/model_manager.py:84-187 | a load keeps the invariant, and a new model reported loaded is in the table with its Ollama name, path and load time, its test run being the last command |
| Lifecycle.LoadTable | src/model_manager.py:94-177 | the new model is appended exactly when it is newly loaded; a load past its guards with a full table drops the oldest model exactly when its `ollama rm` does not raise, even if the attach then fails; without eviction the rest of the order is unchanged |
| Lifecycle.LoadBound | src/model_manager.py:94-97 | from a table within a positive maximum, a load stays within it, or ends one past it only when the table was full and the `ollama rm` of its oldest model raised, that model then still first |
| Lifecycle.LoadTwiceKeepsLast | src/model_manager.py:94-177 | with room for one model, loading `a` and then `b`, when no `ollama rm` raises, leaves `[a]` and then only `[b]` loaded |
| Lifecycle.LoadStore | src/model_manager.py:124-159 | a load only adds commands and changes the store at most by writing the Modelfile into the model's resolved directory |
| Lifecycle.GenerateSpec | src/model_manager.py:214-257 | nothing and no change for a model that is not loaded; otherwise exactly the built command is sent, and the reply is its stripped output exactly when it exits with 0 |
| Lifecycle.ChatSpec | src/model_manager.py:259-301 | nothing for a model that is not loaded; otherwise one command whose last word is the formatted prompt ending with the cue; a completion carries the model, the time, a non-empty stripped reply and the usage of prompt and reply |
| Listings.Relabelled | src/model_manager.py:60-63 | one item per listed model |
| Listings.RelabelledSpec | src/model_manager.py:60-63 | item `i` is listed entry `i` with status `downloaded` |
| Listings.AbsentSpec | src/model_manager.py:65-72 | the added items are exactly the registry names no listed entry has, each once, as `not_downloaded` with the registry's type |
| Listings.AvailableSpec | src/model_manager.py:56-74 | the list is the relabelled listing followed by `not_downloaded` items; every registry name missing from the listing is added; every listed or registry name appears |
| Listings.ListAvailable | src/model_manager.py:56-74 | the two loops, with the `any` test over the growing list, build the specified list |
| Listings.NamedBefore | src/model_manager.py:66-67 | the `any` test over the list built so far holds exactly when the listing names the registry model |
| Listings.ByNameSpec | src/model_manager.py:335-338 | the table's keys are the listed names, and each maps to the last listed entry with that name |
| Manager.ModelManager.constructor | src/model_manager.py:18-22 | a new downloader over the given root, both tables empty, no commands sent |
| Manager.ModelManager.Run | src/model_manager.py:28-33 | one command: the oracle's answer for the next call index, and the command logged |
| Manager.ModelManager.EnsureOllama | src/model_manager.py:24-54 | the answer and new state are `_ensure_ollama`'s |
| Manager.ModelManager.ListAvailableModels | src/model_manager.py:56-74 | the downloader's listing, relabelled, then the missing registry models |
| Manager.ModelManager.DownloadedModels | src/model_manager.py:335-338 | the by-name table of the listing, whose keys are the downloadable names and whose entries describe their directories |
| Manager.ModelManager.DownloadModel | src/model_manager.py:76-82 | false with no change outside the registry; otherwise the downloader's safetensors download |
| Manager.ModelManager.UnloadModel | src/model_manager.py:189-212 | ends as the unload step says and keeps the invariant |
| Manager.ModelManager.CreateModel | src/model_manager.py:124-159 | the Modelfile is written into the directory, then `ollama create`; the progress table is unchanged |
| Manager.ModelManager.TestModel | src/model_manager.py:161-180 | ends as the test step says |
| Manager.ModelManager.ListAndTest | src/model_manager.py:107-180 | the listing, the scan of its lines, then the test or the create-and-test, as specified |
| Manager.ModelManager.CreateAndTest | src/model_manager.py:124-180 | false with no change for a missing path; otherwise create, then test, as specified |
| Manager.ModelManager.Attach | src/model_manager.py:99-187 | `_ensure_ollama`, path resolution and the rest end as the attach step says for the resolved path |
| Manager.ModelManager.LoadModel | src/model_manager.py:84-187 | ends as the load step says for whether the model is downloaded and its resolved path, and keeps the invariant |
| Manager.ModelManager.Generate | src/model_manager.py:214-257 | ends as the generate step says |
| Manager.ModelManager.ChatCompletion | src/model_manager.py:259-301 | ends as the chat step says |
| Manager.ModelManager.GetLoadedModels | src/model_manager.py:323-333 | one record per loaded model, in load order, with its name, Ollama name, path and load time; the names are distinct |

## Left out

- The HTTP API (`src/server.py`), the command-line tools and the configuration loader are not part of this model. The configuration values arrive as parameters.
- Logging, the Llama access warnings and the `.env` token loading are left out, because they change no state the model tracks.
- `progress_callback` is left out: it is a foreign call with no effect on the downloader.
- `size_gb` is left out. It is a floating-point rounding of `size_bytes`, which is modelled.
- Listing paths are directory names under the storage root, not absolute paths. The `ollama create` command names `<dir>/Modelfile`, relative in the same way.
- Files at the top of the storage root, and the `is_dir()` checks that skip them, are left out: a `Store` holds only directories. Subdirectories inside a model directory are paths in its `Dir`. `rglob` non-emptiness is modelled as a non-empty `Dir`.
- Concurrency is left out. Every operation runs to completion alone.
- Fetching.Pct: computes `k * 100 / total` in integers. Python computes `int((k / total) * 100)` in floating point, and the two can differ by one (29 of 50 gives 57 in floating point, 58 here). For the registry's manifest sizes (1, 6 and 7 files) the two coincide.
- Downloader.ModelDownloader.RemoveModel: does not model `rmtree` raising (the `except` branch that returns false). A removal that finds its target always succeeds here.
- `mkdir` and `rmtree` failures during `download_model` are left out. So are hub failures other than a raising fetch or listing.
- Lifecycle.WriteModelfile: the Modelfile's recorded size is its length in characters, not in encoded bytes. Failures of `open()` other than a missing path or directory (permissions, a full disk) are left out.
- The loaded record's `path` is `str(model_path)`. A model can be loaded without a resolved path when Ollama already lists it; the source then stores the text `None`. The model stores `Option.None` instead.
- Manager.ModelManager.ChatCompletion: the constant fields of the completion are not modelled: `object`, the single `choices` entry with role `assistant` and finish reason `stop`, and the `chatcmpl-<time>` id. The model keeps `created`, `model`, the reply text and `usage`.
- `created` and the load time are one `now` parameter. The source reads the clock separately each time.
- Options passed to `generate` arrive as the text `str()` gives them. The model holds no typed values.
- Text.Lower: folds ASCII letters only. Python's `str.lower()` also folds other Unicode letters. The registry's names are ASCII.
- Subprocess timeouts are not modelled as durations. A timeout is one of the ways a call can raise (`Threw`).
