/**
 * `ModelDownloader.MODEL_REGISTRY`: the fixed catalogue of known models, each
 * with its Hugging Face repository, its ordered file manifest and its weight
 * type, and the table of GGUF repositories `download_model` consults.
 */
module Registry {

  datatype ModelConfig = ModelConfig(
    repoId: string,
    files: seq<string>,      // the manifest, in download order
    weightType: string,      // "safetensors" or "gguf"
    description: string,
    ollamaBase: string)

  const FourShards: seq<string> := [
    "model-00001-of-00004.safetensors",
    "model-00002-of-00004.safetensors",
    "model-00003-of-00004.safetensors",
    "model-00004-of-00004.safetensors",
    "model.safetensors.index.json",
    "config.json",
    "tokenizer.json"
  ]

  const ThreeShards: seq<string> := [
    "model-00001-of-00003.safetensors",
    "model-00002-of-00003.safetensors",
    "model-00003-of-00003.safetensors",
    "model.safetensors.index.json",
    "config.json",
    "tokenizer.json"
  ]

  /** The registry's keys in dict (insertion) order. */
  const Names: seq<string> := [
    "gemma-2-9b", "gemma-2-9b-it", "qwen2.5-7b", "qwen2.5-7b-instruct",
    "llama-3.1-8b", "llama-3.1-8b-instruct", "mistral-7b", "phi-3-mini"
  ]

  const Catalogue: map<string, ModelConfig> := map[
    "gemma-2-9b" := ModelConfig("google/gemma-2-9b-it", FourShards, "safetensors",
      "Google Gemma 2 - 9B parameters", "gemma2:9b"),
    "gemma-2-9b-it" := ModelConfig("google/gemma-2-9b-it", FourShards, "safetensors",
      "Google Gemma 2 Instruct - 9B parameters", "gemma2:9b"),
    "qwen2.5-7b" := ModelConfig("Qwen/Qwen2.5-7B-Instruct", FourShards, "safetensors",
      "Alibaba Qwen 2.5 - 7B parameters", "qwen2.5:7b"),
    "qwen2.5-7b-instruct" := ModelConfig("Qwen/Qwen2.5-7B-Instruct", FourShards, "safetensors",
      "Alibaba Qwen 2.5 Instruct - 7B parameters", "qwen2.5:7b-instruct"),
    "llama-3.1-8b" := ModelConfig("meta-llama/Llama-3.1-8B", FourShards, "safetensors",
      "Meta Llama 3.1 - 8B parameters (requires HF access)", "llama3.1:8b"),
    "llama-3.1-8b-instruct" := ModelConfig("meta-llama/Llama-3.1-8B-Instruct", FourShards, "safetensors",
      "Meta Llama 3.1 Instruct - 8B parameters (requires HF access)", "llama3.1:8b-instruct"),
    "mistral-7b" := ModelConfig("mistralai/Mistral-7B-Instruct-v0.3", ThreeShards, "safetensors",
      "Mistral 7B Instruct - 7B parameters", "mistral:7b-instruct"),
    "phi-3-mini" := ModelConfig("microsoft/Phi-3-mini-4k-instruct-gguf", ["phi-3-mini-4k-instruct.q4.gguf"], "gguf",
      "Microsoft Phi-3 Mini - 3.8B parameters (GGUF format)", "phi3:mini")
  ]

  /** The GGUF repositories `download_model` knows (phi-3-mini has none). */
  const GgufRepos: map<string, string> := map[
    "gemma-2-9b" := "bartowski/gemma-2-9b-it-GGUF",
    "gemma-2-9b-it" := "bartowski/gemma-2-9b-it-GGUF",
    "llama-3.1-8b" := "bartowski/Llama-3.1-8B-Instruct-GGUF",
    "llama-3.1-8b-instruct" := "bartowski/Llama-3.1-8B-Instruct-GGUF",
    "qwen2.5-7b" := "bartowski/Qwen2.5-7B-Instruct-GGUF",
    "qwen2.5-7b-instruct" := "bartowski/Qwen2.5-7B-Instruct-GGUF",
    "mistral-7b" := "TheBloke/Mistral-7B-Instruct-v0.3-GGUF"
  ]

  /** `list_available_models` of the downloader: the registry keys in order. */
  function AvailableNames(): (r: seq<string>)
    ensures forall n :: n in r <==> n in Catalogue
    ensures forall i, j :: 0 <= i < j < |r| ==> r[i] != r[j]
  {
    Names
  }
}
