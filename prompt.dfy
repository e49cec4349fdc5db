/**
 * The pure helpers of `ModelManager`: the chat prompt built from a message
 * list (`_format_messages`), the token estimate (`_estimate_tokens`) and the
 * usage block of `chat_completion`, the Ollama base model a Modelfile names,
 * and the `ollama run` command line `generate` builds.
 */
module Prompt {
  import opened Wrappers
  import opened Text

  // ---------------------------------------------------------------------
  // Chat messages (`_format_messages`)

  /** A chat message; either key may be missing from the dict. */
  datatype Message = Message(role: Option<string>, content: Option<string>)

  /** `message.get("role", "user")`. */
  function RoleOf(m: Message): string {
    if m.role.Some? then m.role.value else "user"
  }

  /** `message.get("content", "")`. */
  function ContentOf(m: Message): string {
    if m.content.Some? then m.content.value else ""
  }

  const AssistantCue: string := "Assistant: "

  /** The line a message contributes: none for a role other than `system`,
      `user` and `assistant`. */
  function LineOf(m: Message): (r: seq<string>)
    ensures |r| <= 1
    ensures m.role == None ==> r == ["Human: " + ContentOf(m)]
    ensures m.role == Some("system") ==> r == ["System: " + ContentOf(m)]
    ensures m.role == Some("user") ==> r == ["Human: " + ContentOf(m)]
    ensures m.role == Some("assistant") ==> r == [AssistantCue + ContentOf(m)]
    ensures r == [] <==> m.role.Some? && m.role.value !in {"system", "user", "assistant"}
  {
    var role := RoleOf(m);
    if role == "system" then ["System: " + ContentOf(m)]
    else if role == "user" then ["Human: " + ContentOf(m)]
    else if role == "assistant" then [AssistantCue + ContentOf(m)]
    else []
  }

  /** The lines of the messages, in order. */
  function Lines(ms: seq<Message>): (r: seq<string>)
    ensures |r| <= |ms|
  {
    if ms == [] then [] else Lines(ms[..|ms| - 1]) + LineOf(ms[|ms| - 1])
  }

  /** The prompt: the lines, then the assistant cue, joined by newlines. */
  function Formatted(ms: seq<Message>): string {
    Join(Lines(ms) + [AssistantCue], "\n")
  }

  /** `_format_messages`: the loop appending one line per message with a known
      role, then the cue, then the join. */
  method FormatMessages(messages: seq<Message>) returns (prompt: string)
    ensures prompt == Formatted(messages)
  {
    var formatted: seq<string> := [];
    var i := 0;
    while i < |messages|
      invariant 0 <= i <= |messages|
      invariant formatted == Lines(messages[..i])
    {
      var m := messages[i];
      var role := if m.role.Some? then m.role.value else "user";
      var content := if m.content.Some? then m.content.value else "";
      if role == "system" {
        formatted := formatted + ["System: " + content];
      } else if role == "user" {
        formatted := formatted + ["Human: " + content];
      } else if role == "assistant" {
        formatted := formatted + [AssistantCue + content];
      }
      assert messages[..i + 1][..i] == messages[..i];
      i := i + 1;
    }
    assert messages[..i] == messages;
    formatted := formatted + [AssistantCue];
    prompt := Join(formatted, "\n");
  }

  /** Every prompt ends with the assistant cue. */
  lemma PromptEndsWithCue(ms: seq<Message>)
    ensures EndsWith(Formatted(ms), AssistantCue)
  {
    var lines := Lines(ms);
    JoinSnoc(lines, AssistantCue, "\n");
    if lines != [] {
      EndsWithAppend(Join(lines, "\n") + "\n", AssistantCue);
    }
  }

  /** A line holds a newline only if the message content does. */
  lemma {:induction false} LinesSingle(ms: seq<Message>)
    requires forall m :: m in ms ==> '\n' !in ContentOf(m)
    ensures forall i :: 0 <= i < |Lines(ms)| ==> '\n' !in Lines(ms)[i]
  {
    if ms != [] {
      var init := ms[..|ms| - 1];
      forall m | m in init ensures '\n' !in ContentOf(m) {
        assert m in ms;
      }
      LinesSingle(init);
      var m := ms[|ms| - 1];
      var tail := LineOf(m);
      forall i | 0 <= i < |tail| ensures '\n' !in tail[i] {
        var role := RoleOf(m);
        var c := ContentOf(m);
        assert tail[i] in {"System: " + c, "Human: " + c, AssistantCue + c};
        assert '\n' !in "System: " && '\n' !in "Human: " && '\n' !in AssistantCue;
      }
      forall i | 0 <= i < |Lines(ms)| ensures '\n' !in Lines(ms)[i] {
        if i < |Lines(init)| {
          assert Lines(ms)[i] == Lines(init)[i];
        } else {
          assert Lines(ms)[i] == tail[i - |Lines(init)|];
        }
      }
    }
  }

  /** When no content spans several lines, the prompt's lines are exactly the
      message lines followed by the cue. */
  lemma PromptLines(ms: seq<Message>)
    requires forall m :: m in ms ==> '\n' !in ContentOf(m)
    ensures Split(Formatted(ms), '\n') == Lines(ms) + [AssistantCue]
  {
    var parts := Lines(ms) + [AssistantCue];
    LinesSingle(ms);
    forall i | 0 <= i < |parts| ensures '\n' !in parts[i] {
      if i < |Lines(ms)| {
        assert parts[i] == Lines(ms)[i];
      } else {
        assert parts[i] == AssistantCue;
      }
    }
    SplitOfJoin(parts, '\n');
  }

  // ---------------------------------------------------------------------
  // Token estimate and usage

  /** `_estimate_tokens`: about four characters per token, never below one. */
  function EstimateTokens(text: string): (n: nat)
    ensures n >= 1
    ensures |text| < 8 ==> n == 1
    ensures |text| >= 4 ==> 4 * n <= |text| < 4 * n + 4
  {
    var q := |text| / 4;
    if q < 1 then 1 else q
  }

  /** A longer text never gets a smaller estimate. */
  lemma EstimateMonotone(a: string, b: string)
    requires |a| <= |b|
    ensures EstimateTokens(a) <= EstimateTokens(b)
  {
    if |a| >= 4 {
      assert 4 * EstimateTokens(a) <= |a| <= |b| < 4 * EstimateTokens(b) + 4;
    }
  }

  /** The `usage` block of a chat completion. */
  datatype Usage = Usage(promptTokens: nat, completionTokens: nat, totalTokens: nat)

  function UsageOf(prompt: string, reply: string): (u: Usage)
    ensures u.promptTokens == EstimateTokens(prompt)
    ensures u.completionTokens == EstimateTokens(reply)
    ensures u.totalTokens == u.promptTokens + u.completionTokens
    ensures u.totalTokens >= 2
  {
    var p := EstimateTokens(prompt);
    var c := EstimateTokens(reply);
    Usage(p, c, p + c)
  }

  // ---------------------------------------------------------------------
  // Modelfile base model

  /** The `FROM` line's base model: the first family whose name occurs in the
      lower-cased model name, falling back to `llama3.1`. */
  function BaseModelFor(name: string): (b: string)
    ensures b in {"gemma2", "qwen2.5", "llama3.1", "mistral"}
    ensures Contains(Lower(name), "gemma") <==> b == "gemma2"
    ensures b == "qwen2.5" <==> !Contains(Lower(name), "gemma") && Contains(Lower(name), "qwen")
    ensures b == "mistral" <==>
      !Contains(Lower(name), "gemma") && !Contains(Lower(name), "qwen") &&
      !Contains(Lower(name), "llama") && Contains(Lower(name), "mistral")
  {
    var l := Lower(name);
    if Contains(l, "gemma") then "gemma2"
    else if Contains(l, "qwen") then "qwen2.5"
    else if Contains(l, "llama") then "llama3.1"
    else if Contains(l, "mistral") then "mistral"
    else "llama3.1"
  }

  // ---------------------------------------------------------------------
  // The `generate` command line

  /** The keyword arguments `generate` forwards, as the text `str()` gives. */
  datatype GenOptions = GenOptions(temperature: Option<string>, maxTokens: Option<string>, contextSize: Option<string>)

  const NoOptions := GenOptions(None, None, None)

  function Flag(flag: string, value: Option<string>): seq<string> {
    if value.Some? then [flag, value.value] else []
  }

  /** The flags, in the order `--temperature`, `--num-predict`, `--num-ctx`. */
  function Flags(o: GenOptions): seq<string> {
    Flag("--temperature", o.temperature) + Flag("--num-predict", o.maxTokens) + Flag("--num-ctx", o.contextSize)
  }

  /** How many options were given. */
  function Given(o: GenOptions): nat {
    (if o.temperature.Some? then 1 else 0) + (if o.maxTokens.Some? then 1 else 0) +
    (if o.contextSize.Some? then 1 else 0)
  }

  /** `generate`'s command: `ollama run`, the flags, the model, the prompt. */
  method GenerateCommand(ollamaName: string, prompt: string, o: GenOptions) returns (cmd: seq<string>)
    ensures cmd == ["ollama", "run"] + Flags(o) + [ollamaName, prompt]
  {
    cmd := ["ollama", "run", ollamaName, prompt];
    var params: seq<string> := [];
    if o.temperature.Some? {
      params := params + ["--temperature", o.temperature.value];
    }
    if o.maxTokens.Some? {
      params := params + ["--num-predict", o.maxTokens.value];
    }
    if o.contextSize.Some? {
      params := params + ["--num-ctx", o.contextSize.value];
    }
    if params != [] {
      cmd := ["ollama", "run"] + params + [ollamaName, prompt];
    }
  }

  /** The command's shape: two words per option between `ollama run` and the
      model and prompt; with no option it is the four-word form; a given
      temperature comes first. */
  lemma CommandShape(ollamaName: string, prompt: string, o: GenOptions)
    ensures var cmd := ["ollama", "run"] + Flags(o) + [ollamaName, prompt];
      && |cmd| == 4 + 2 * Given(o)
      && cmd[..2] == ["ollama", "run"]
      && cmd[|cmd| - 2..] == [ollamaName, prompt]
      && (o == NoOptions ==> cmd == ["ollama", "run", ollamaName, prompt])
      && (o.temperature.Some? ==> cmd[2..4] == ["--temperature", o.temperature.value])
  {
    var cmd := ["ollama", "run"] + Flags(o) + [ollamaName, prompt];
    assert |Flags(o)| == 2 * Given(o);
    assert cmd[|cmd| - 2..] == [ollamaName, prompt];
    if o.temperature.Some? {
      assert Flags(o)[..2] == ["--temperature", o.temperature.value];
      assert cmd[2..4] == Flags(o)[..2];
    }
  }
}
