/**
 * `create_model_config`: the thread count chosen from the number of CPU
 * cores, and the YAML text written to `<config_dir>/<model_name>.yaml` for
 * the LocalAI llama-cpp backend. The configuration directory is a map from
 * file name to file contents.
 */
module ModelConfig {
  import opened Text
  import opened ConfigTemplate

  /**
   * `max(2, min(cpu_cores // 2, 8))`: half the cores, but never fewer than
   * two threads and never more than eight.
   */
  function RecommendedThreads(cores: nat): (t: nat)
    ensures 2 <= t <= 8
    ensures cores < 4 ==> t == 2
    ensures 4 <= cores < 18 ==> t == cores / 2
    ensures cores >= 16 ==> t == 8
    ensures cores >= 4 ==> 2 * t <= cores
  {
    var half := cores / 2;
    var capped := if half < 8 then half else 8;
    if capped > 2 then capped else 2
  }

  /** More cores never mean fewer threads. */
  lemma {:induction false} RecommendedThreadsMonotone(c1: nat, c2: nat)
    ensures c1 <= c2 ==> RecommendedThreads(c1) <= RecommendedThreads(c2)
  {
    if c1 <= c2 {
      assert c1 / 2 <= c2 / 2;
    }
  }

  /** The context window every generated configuration starts with. */
  const DefaultContextSize: string := "2048"

  /** The backend and the `parameters:` block. */
  function ParameterLines(file: string, threads: string, contextSize: string): seq<string> {
    [
      "backend: llama-cpp",
      "parameters:",
      "  model: /models/" + file,
      "  context_size: " + contextSize,
      "  threads: " + threads,
      "  f16: true"
    ]
  }

  /** The lines of a configuration, with the numeric fields already rendered as text. */
  function ConfigLines(name: string, file: string, threads: string, contextSize: string): seq<string> {
    ["name: " + name] + (ParameterLines(file, threads, contextSize) + TemplateLines)
  }

  /** The text of a configuration file. */
  function ConfigText(name: string, file: string, threads: string, contextSize: string): string {
    Unlines(ConfigLines(name, file, threads, contextSize))
  }

  /** The `config_content` f-string of `create_model_config`. */
  function RenderConfig(name: string, file: string, cores: nat): string {
    ConfigText(name, file, NatToDecimal(RecommendedThreads(cores)), DefaultContextSize)
  }

  /** `f"{model_name}.yaml"` */
  function ConfigFileName(name: string): string {
    name + ".yaml"
  }

  /**
   * Round trip: splitting the written file at its newlines gives back the
   * configuration's lines (and the empty piece after the last newline), so
   * reading a field line back yields exactly the value that was rendered.
   */
  lemma {:induction false} ConfigTextRoundTrip(name: string, file: string, threads: string, contextSize: string)
    requires '\n' !in name && '\n' !in file && '\n' !in threads && '\n' !in contextSize
    ensures Split(ConfigText(name, file, threads, contextSize), "\n") == ConfigLines(name, file, threads, contextSize) + [""]
  {
    var params := ParameterLines(file, threads, contextSize);
    assert forall l | l in params :: '\n' !in l;
    TemplateLinesSingle();
    var ls := ConfigLines(name, file, threads, contextSize);
    assert forall l | l in ls :: l == "name: " + name || l in params || l in TemplateLines;
    SplitUnlines(ls);
  }

  /** The rendered thread count reads back as the number that was chosen. */
  lemma RenderedThreadsRoundTrip(cores: nat)
    ensures DecimalValue(NatToDecimal(RecommendedThreads(cores))) == RecommendedThreads(cores)
    ensures '\n' !in NatToDecimal(RecommendedThreads(cores))
  {
    DecimalRoundTrip(RecommendedThreads(cores));
    var t := NatToDecimal(RecommendedThreads(cores));
    assert forall i | 0 <= i < |t| :: IsAsciiDigit(t[i]);
  }

  /**
   * `create_model_config(model_name, model_file, config_dir)`: the file
   * `<model_name>.yaml` now holds the rendered configuration, overwriting
   * any earlier one; every other file is left as it was.
   */
  function CreateModelConfig(configs: map<string, string>, name: string, file: string, cores: nat)
    : (r: map<string, string>)
    ensures r.Keys == configs.Keys + {ConfigFileName(name)}
    ensures r[ConfigFileName(name)] == RenderConfig(name, file, cores)
    ensures forall k | k in configs && k != ConfigFileName(name) :: r[k] == configs[k]
  {
    configs[ConfigFileName(name) := RenderConfig(name, file, cores)]
  }
}
