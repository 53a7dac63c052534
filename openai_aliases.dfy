/**
 * `create_openai_aliases`: copy the configuration of the first small model
 * to `gpt-3.5-turbo.yaml` and that of the first larger model to
 * `gpt-4.yaml`, renaming the model inside the copy (and, for `gpt-4`,
 * doubling the context window), so that OpenAI clients find models under
 * the names they expect.
 */
module OpenAiAliases {
  import opened Wrappers
  import opened Text
  import opened ConfigTemplate
  import opened ModelConfig

  /** Name fragments of models good enough to stand in for `gpt-3.5-turbo`. */
  const SmallKeywords: seq<string> := ["phi", "gemma-2", "mistral", "llama-3-1b"]

  /** Name fragments of models good enough to stand in for `gpt-4`. */
  const LargeKeywords: seq<string> := ["llama-3-8", "mistral-7", "llama-3.1-8"]

  const SmallAlias: string := "gpt-3.5-turbo"
  const LargeAlias: string := "gpt-4"

  const DefaultContextField: string := "context_size: 2048"
  const LargeContextField: string := "context_size: 4096"

  /** `any(x in m.lower() for x in keywords)` */
  predicate Suits(name: string, keywords: seq<string>) {
    ContainsAny(Lower(name), keywords)
  }

  /**
   * The position of `[m for m in names if Suits(m)][0]` in `names`: the
   * first name that suits, or `None` when the filtered list is empty.
   */
  function FirstSuited(names: seq<string>, keywords: seq<string>): (r: Option<nat>)
    ensures r.None? <==> forall k | 0 <= k < |names| :: !Suits(names[k], keywords)
    ensures r.Some? ==> r.value < |names| && Suits(names[r.value], keywords)
    ensures r.Some? ==> forall k | 0 <= k < r.value :: !Suits(names[k], keywords)
    decreases |names|
  {
    if |names| == 0 then None
    else if Suits(names[0], keywords) then Some(0)
    else
      var rest := FirstSuited(names[1..], keywords);
      assert forall k | 1 <= k < |names| :: names[k] == names[1..][k - 1];
      match rest
      case None => None
      case Some(i) => Some(i + 1)
  }

  /**
   * The model an alias is made from: the first suitable name, provided its
   * configuration file exists (otherwise the alias is silently skipped).
   */
  function AliasSource(configs: map<string, string>, names: seq<string>, keywords: seq<string>): (r: Option<string>)
    ensures r.Some? ==> ConfigFileName(r.value) in configs
    ensures r.Some? ==> exists i | 0 <= i < |names| ::
      (names[i] == r.value && Suits(names[i], keywords) && forall j | 0 <= j < i :: !Suits(names[j], keywords))
    ensures r.None? ==> forall i | 0 <= i < |names| && Suits(names[i], keywords) && ConfigFileName(names[i]) in configs ::
      (exists j | 0 <= j < i :: Suits(names[j], keywords))
  {
    match FirstSuited(names, keywords)
    case None => None
    case Some(i) => if ConfigFileName(names[i]) in configs then Some(names[i]) else None
  }

  /** `config.replace(f"name: {model}", f"name: {alias}")` */
  function Rename(config: string, model: string, alias: string): string {
    Replace(config, "name: " + model, "name: " + alias)
  }

  /** The `gpt-4` copy: renamed, then `context_size: 2048` raised to 4096. */
  function LargeAliasText(config: string, model: string): string {
    Replace(Rename(config, model, LargeAlias), DefaultContextField, LargeContextField)
  }

  /**
   * `create_openai_aliases(config_dir, downloaded_models)`. Nothing happens
   * for an empty list; otherwise each alias file is written from the first
   * suitable model whose configuration exists, and no other file changes.
   * The `gpt-4` source is looked up after `gpt-3.5-turbo.yaml` is written,
   * as in the source; `LargeSourceUnaffected` shows this cannot matter.
   */
  function CreateOpenAiAliases(configs: map<string, string>, names: seq<string>): (r: map<string, string>)
    ensures |names| == 0 ==> r == configs
    ensures r.Keys <= configs.Keys + {ConfigFileName(SmallAlias), ConfigFileName(LargeAlias)}
    ensures configs.Keys <= r.Keys
    ensures forall k | k in configs && k != ConfigFileName(SmallAlias) && k != ConfigFileName(LargeAlias) :: r[k] == configs[k]
  {
    if |names| == 0 then configs
    else
      var afterSmall :=
        match AliasSource(configs, names, SmallKeywords)
        case None => configs
        case Some(m) => configs[ConfigFileName(SmallAlias) := Rename(configs[ConfigFileName(m)], m, SmallAlias)];
      match FirstSuited(names, LargeKeywords)
      case None => afterSmall
      case Some(j) =>
        var src := ConfigFileName(names[j]);
        LargeSourceUnaffected(names[j]);
        if src in afterSmall then afterSmall[ConfigFileName(LargeAlias) := LargeAliasText(afterSmall[src], names[j])]
        else afterSmall
  }

  /**
   * Each alias file is written exactly when a source for it exists: it then
   * holds the source's configuration with the model renamed (and, for
   * `gpt-4`, the larger context); otherwise it is left as it was.
   */
  lemma AliasContents(configs: map<string, string>, names: seq<string>)
    requires |names| > 0
    ensures var r := CreateOpenAiAliases(configs, names);
      && (AliasSource(configs, names, SmallKeywords).None? ==>
            (ConfigFileName(SmallAlias) in r <==> ConfigFileName(SmallAlias) in configs))
      && (AliasSource(configs, names, SmallKeywords).None? && ConfigFileName(SmallAlias) in configs ==>
            r[ConfigFileName(SmallAlias)] == configs[ConfigFileName(SmallAlias)])
      && (AliasSource(configs, names, SmallKeywords).Some? ==>
            var m := AliasSource(configs, names, SmallKeywords).value;
            ConfigFileName(SmallAlias) in r && r[ConfigFileName(SmallAlias)] == Rename(configs[ConfigFileName(m)], m, SmallAlias))
      && (AliasSource(configs, names, LargeKeywords).None? ==>
            (ConfigFileName(LargeAlias) in r <==> ConfigFileName(LargeAlias) in configs))
      && (AliasSource(configs, names, LargeKeywords).None? && ConfigFileName(LargeAlias) in configs ==>
            r[ConfigFileName(LargeAlias)] == configs[ConfigFileName(LargeAlias)])
      && (AliasSource(configs, names, LargeKeywords).Some? ==>
            var m := AliasSource(configs, names, LargeKeywords).value;
            ConfigFileName(LargeAlias) in r && r[ConfigFileName(LargeAlias)] == LargeAliasText(configs[ConfigFileName(m)], m))
  {
    AliasFileNamesDistinct();
    match FirstSuited(names, LargeKeywords)
    case None =>
    case Some(j) => LargeSourceUnaffected(names[j]);
  }

  lemma AliasFileNamesDistinct()
    ensures ConfigFileName(SmallAlias) != ConfigFileName(LargeAlias)
  {
    ConfigFileNameInjective(SmallAlias, LargeAlias);
  }

  /** Appending `.yaml` keeps distinct names distinct. */
  lemma ConfigFileNameInjective(a: string, b: string)
    ensures ConfigFileName(a) == ConfigFileName(b) ==> a == b
  {
    if ConfigFileName(a) == ConfigFileName(b) {
      assert a == ConfigFileName(a)[..|a|];
    }
  }

  /**
   * A model suitable for `gpt-4` is never the `gpt-3.5-turbo` alias itself,
   * so writing that alias first cannot change what the `gpt-4` alias is
   * made from.
   */
  lemma LargeSourceUnaffected(name: string)
    ensures Suits(name, LargeKeywords) ==> ConfigFileName(name) != ConfigFileName(SmallAlias)
  {
    ConfigFileNameInjective(name, SmallAlias);
    if name == SmallAlias {
      AliasNameFacts();
      var low := Lower(name);
      assert 'l' !in low && 'm' !in low by {
        forall c | c in low && IsAsciiLower(c) ensures c != 'l' && c != 'm' {
          LowerCharIn(name, c);
        }
      }
      MissingCharNotContained(low, LargeKeywords[0], 'l');
      MissingCharNotContained(low, LargeKeywords[1], 'm');
      MissingCharNotContained(low, LargeKeywords[2], 'l');
    }
  }

  lemma AliasNameFacts()
    ensures forall c | c in SmallAlias :: c !in "lmLM"
  {
  }

  // ---------------------------------------------------------------------
  // The two rewrites applied to a configuration this program generated

  /** `AllDigits` in the membership form the character lemmas use. */
  lemma DigitsOnly(s: string)
    ensures AllDigits(s) ==> forall c | c in s :: IsAsciiDigit(c)
  {
  }

  /** The backend line cut around its only `n`, for `BackendLineAvoidsName`. */
  lemma BackendLineSplit()
    ensures "backend: llama-cpp" + "\n" == "backe" + "n" + "d: llama-cpp\n"
  {
  }

  /** The only `n` of the backend line is followed by `d`, so no `name: ` starts there. */
  lemma BackendLineAvoidsName(model: string)
    ensures !Contains("backend: llama-cpp" + "\n", "name: " + model)
  {
    BackendLineSplit();
    var p := "name: " + model;
    assert p[0] == 'n' && p[1] == 'a';
    NotContainsAtLoneStart("backe", 'n', "d: llama-cpp\n", p);
  }

  /** The only `n` of the `range` line is followed by `g`. */
  lemma RangeLineAvoidsName(model: string)
    ensures !Contains(ChatIndent + RangeAction + "\n", "name: " + model)
  {
    RangeTailFacts();
    IndentFacts();
    var a := ChatIndent + "{{- ra";
    var b := "ge $i, $message := .Messages }}" + "\n";
    assert ChatIndent + RangeAction + "\n" == a + ['n'] + b;
    var p := "name: " + model;
    assert p[0] == 'n' && p[1] == 'a';
    NotContainsAtLoneStart(a, 'n', b, p);
  }

  lemma RangeLineAvoidsContext()
    ensures !Contains(ChatIndent + RangeAction + "\n", DefaultContextField)
  {
    ChatTemplateFacts();
    IndentFacts();
    LacksCharNotContained(ChatIndent + RangeAction + "\n", DefaultContextField, 'x');
  }

  lemma HeaderLinesAvoid(p: string)
    requires 'n' in p || 'x' in p
    ensures forall l | l in TemplateHeader :: !Contains(l + "\n", p)
  {
    HeaderLineFacts();
    forall l | l in TemplateHeader ensures !Contains(l + "\n", p) {
      if 'n' in p {
        LacksCharNotContained(l + "\n", p, 'n');
      } else {
        LacksCharNotContained(l + "\n", p, 'x');
      }
    }
  }

  lemma ChatLinesAvoid(p: string)
    requires ':' in p
    requires !Contains(ChatIndent + RangeAction + "\n", p)
    ensures forall b | b in ChatTemplate :: !Contains(ChatIndent + b + "\n", p)
  {
    IndentFacts();
    ChatTemplateFacts();
    forall b | b in ChatTemplate && b != RangeAction ensures !Contains(ChatIndent + b + "\n", p) {
      LacksCharNotContained(ChatIndent + b + "\n", p, ':');
    }
  }

  /**
   * No line of the template section holds a field pattern `p`: the header
   * lines lack `n` and `x`, the chat lines but one lack `:`, and the `range`
   * line is dealt with by the caller.
   */
  lemma TemplateLinesAvoid(p: string)
    requires ':' in p && ('n' in p || 'x' in p)
    requires !Contains(ChatIndent + RangeAction + "\n", p)
    ensures forall l | l in TemplateLines :: !Contains(l + "\n", p)
  {
    HeaderLinesAvoid(p);
    ChatLinesAvoid(p);
    var chat := Indented(ChatTemplate);
    forall l | l in chat ensures !Contains(l + "\n", p) {
      var k :| 0 <= k < |chat| && chat[k] == l;
      assert ChatTemplate[k] in ChatTemplate;
    }
  }

  /** Below the `name:` line, only the model file name could hold `name: <model>`. */
  lemma ParameterLinesAvoidName(model: string, file: string, threads: string, contextSize: string)
    requires '\n' !in model && !Contains(file, "name: " + model)
    requires AllDigits(threads) && AllDigits(contextSize)
    ensures forall l | l in ParameterLines(file, threads, contextSize) :: !Contains(l + "\n", "name: " + model)
  {
    var p := "name: " + model;
    DigitsOnly(threads);
    DigitsOnly(contextSize);
    BackendLineAvoidsName(model);
    LacksCharNotContained("parameters:" + "\n", p, 'n');
    FieldLineAvoids("  model: /models/", file, p);
    LacksCharNotContained("  context_size: " + contextSize + "\n", p, 'a');
    LacksCharNotContained("  threads: " + threads + "\n", p, 'n');
    LacksCharNotContained("  f16: true" + "\n", p, 'n');
  }

  /**
   * The rename pass on a generated configuration rewrites its `name:` line
   * and nothing else: the result is the configuration generated under the
   * new name.
   */
  lemma {:induction false} RenameRendered(model: string, alias: string, file: string, threads: string, contextSize: string)
    requires '\n' !in model && !Contains(file, "name: " + model)
    requires AllDigits(threads) && AllDigits(contextSize)
    ensures Rename(ConfigText(model, file, threads, contextSize), model, alias) == ConfigText(alias, file, threads, contextSize)
  {
    var p := "name: " + model;
    var q := "name: " + alias;
    var rest := ParameterLines(file, threads, contextSize) + TemplateLines;
    assert ConfigLines(model, file, threads, contextSize) == [p] + rest;
    assert ConfigLines(alias, file, threads, contextSize) == [q] + rest;
    assert p[0] == 'n' && p[4] == ':';
    ReplaceUnlinesCons(p, rest, p, q);
    ReplaceHere(p, "\n", q);
    LacksCharNotContained("\n", p, 'n');
    ReplaceAbsent("\n", p, q);
    ParameterLinesAvoidName(model, file, threads, contextSize);
    RangeLineAvoidsName(model);
    TemplateLinesAvoid(p);
    ReplaceUnlinesUnchanged(rest, p, q);
  }

  /** Above the `context_size:` line, only the name and the model file name could hold the field. */
  lemma HeadLinesAvoidContext(name: string, file: string)
    requires !Contains(name, DefaultContextField) && !Contains(file, DefaultContextField)
    ensures forall l | l in ["name: " + name, "backend: llama-cpp", "parameters:", "  model: /models/" + file] ::
      !Contains(l + "\n", DefaultContextField)
  {
    var p := DefaultContextField;
    FieldLineAvoids("name: ", name, p);
    LacksCharNotContained("backend: llama-cpp" + "\n", p, 'x');
    LacksCharNotContained("parameters:" + "\n", p, 'x');
    FieldLineAvoids("  model: /models/", file, p);
  }

  lemma TailLinesAvoidContext(threads: string)
    requires AllDigits(threads)
    ensures forall l | l in ["  threads: " + threads, "  f16: true"] + TemplateLines :: !Contains(l + "\n", DefaultContextField)
  {
    var p := DefaultContextField;
    DigitsOnly(threads);
    LacksCharNotContained("  threads: " + threads + "\n", p, 'x');
    LacksCharNotContained("  f16: true" + "\n", p, 'x');
    RangeLineAvoidsContext();
    TemplateLinesAvoid(p);
  }

  lemma ContextFieldSplit()
    ensures "  context_size: " + DefaultContextSize == "  " + DefaultContextField
    ensures "  " + LargeContextField == "  context_size: " + "4096"
  {
  }

  /** The context line is the only place the default context field occurs. */
  lemma ContextLineRewrite()
    ensures Replace("  context_size: " + DefaultContextSize + "\n", DefaultContextField, LargeContextField)
      == "  context_size: " + "4096" + "\n"
  {
    ContextFieldSplit();
    FieldLineReplace("  ", DefaultContextField, LargeContextField);
  }

  /** A configuration's lines, cut around its `context_size:` line. */
  lemma ContextLineLayout(name: string, file: string, threads: string, contextSize: string)
    ensures ConfigLines(name, file, threads, contextSize) ==
      ["name: " + name, "backend: llama-cpp", "parameters:", "  model: /models/" + file]
      + (["  context_size: " + contextSize] + (["  threads: " + threads, "  f16: true"] + TemplateLines))
  {
  }

  /**
   * The context pass on a generated configuration with the default window
   * rewrites its `context_size:` line and nothing else.
   */
  lemma {:induction false} RaiseContextRendered(name: string, file: string, threads: string)
    requires !Contains(name, DefaultContextField) && !Contains(file, DefaultContextField)
    requires AllDigits(threads)
    ensures Replace(ConfigText(name, file, threads, DefaultContextSize), DefaultContextField, LargeContextField)
      == ConfigText(name, file, threads, "4096")
  {
    var p := DefaultContextField;
    var r := LargeContextField;
    var head := ["name: " + name, "backend: llama-cpp", "parameters:", "  model: /models/" + file];
    var tail := ["  threads: " + threads, "  f16: true"] + TemplateLines;
    var before := "  context_size: " + DefaultContextSize;
    var after := "  context_size: " + "4096";
    ContextLineLayout(name, file, threads, DefaultContextSize);
    ContextLineLayout(name, file, threads, "4096");
    UnlinesAppend(head, [before] + tail);
    UnlinesAppend(head, [after] + tail);
    assert ([after] + tail)[0] == after && ([after] + tail)[1..] == tail;
    ReplaceUnlinesAppend(head, [before] + tail, p, r);
    ReplaceUnlinesCons(before, tail, p, r);
    HeadLinesAvoidContext(name, file);
    ReplaceUnlinesUnchanged(head, p, r);
    ContextLineRewrite();
    TailLinesAvoidContext(threads);
    ReplaceUnlinesUnchanged(tail, p, r);
  }

  lemma DefaultContextDigits()
    ensures AllDigits(DefaultContextSize) && !Contains(LargeAlias, DefaultContextField)
  {
    LacksCharNotContained(LargeAlias, DefaultContextField, 'x');
  }

  /**
   * The `gpt-3.5-turbo` copy of a generated configuration is exactly the
   * configuration generated for the alias name, with the same file and
   * thread count.
   */
  lemma SmallAliasOfRendered(model: string, file: string, cores: nat)
    requires '\n' !in model && !Contains(file, "name: " + model)
    ensures Rename(RenderConfig(model, file, cores), model, SmallAlias) == RenderConfig(SmallAlias, file, cores)
  {
    DefaultContextDigits();
    RenameRendered(model, SmallAlias, file, NatToDecimal(RecommendedThreads(cores)), DefaultContextSize);
  }

  /**
   * The `gpt-4` copy of a generated configuration is the configuration
   * generated for `gpt-4` with the same file and thread count, except that
   * its context window is 4096: `name: <model>` became `name: gpt-4`,
   * `context_size: 2048` became `context_size: 4096`, and nothing else
   * changed.
   */
  lemma LargeAliasOfRendered(model: string, file: string, cores: nat)
    requires '\n' !in model && !Contains(file, "name: " + model) && !Contains(file, DefaultContextField)
    ensures LargeAliasText(RenderConfig(model, file, cores), model)
      == ConfigText(LargeAlias, file, NatToDecimal(RecommendedThreads(cores)), "4096")
  {
    var threads := NatToDecimal(RecommendedThreads(cores));
    DefaultContextDigits();
    RenameRendered(model, LargeAlias, file, threads, DefaultContextSize);
    RaiseContextRendered(LargeAlias, file, threads);
  }
}
