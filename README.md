# Auto-updating LocalAI models, in Dafny

`scripts/models/auto-update-models.py` keeps a LocalAI installation supplied
with CPU-friendly models from the Hugging Face hub. It works in five steps:

1. It takes the most downloaded GGUF repositories and keeps those of the
   wanted categories and, on request, of small size, up to `--num-models`.
2. In each repository it picks one weight file, preferring the `Q4_K_M`
   quantisation.
3. It derives a LocalAI model name from the repository id.
4. It downloads the file unless it is already present, and writes a
   `<name>.yaml` configuration for the llama-cpp backend. The thread count
   depends on the number of CPU cores.
5. On request it copies one small model's configuration to
   `gpt-3.5-turbo.yaml` and one larger model's to `gpt-4.yaml`, renaming the
   model inside the copy and, for `gpt-4`, raising the context window from
   2048 to 4096.

This project models those steps and proves what they guarantee.

The hub, the download command and the host are parameters of the model:

- the list of repository ids, most downloaded first, is an input;
- `listing(id)` is the file list of a repository, or `None` when listing it
  raises;
- `cli(id, file)` says whether `huggingface-cli download` succeeds;
- `cores` is the CPU count.

The configuration directory is a `map` from file name to file contents. The
output directory is the `set` of file names in it. Python strings are
`seq<char>`, and a string operation the script uses is defined once in
`Text`, with the properties the proofs need:

- `in`, `endswith` and `lower()`;
- `split(sep)` and `sep.join`;
- `replace(old, new)`, left to right and without overlap;
- `strip(chars)` and `str(n)`.

`sorted(xs)[0]` is the least element under Python's code-point order
(`LexOrder`).

Modules, following the script's functions:

| module | models |
|---|---|
| `TrendingFilter` | the filter loop of `get_trending_gguf_models` (`SelectTrending`, a `while` loop proved equal to the reference `Trending`) |
| `GgufSelection` | `find_best_gguf_file` |
| `ConfigTemplate`, `ModelConfig` | the thread formula and the YAML text of `create_model_config` |
| `ModelName` | the name cleanup in `main` |
| `OpenAiAliases` | `create_openai_aliases` |
| `AutoUpdate` | the rest of `main`: `--include-categories` and the loop that accumulates `downloaded_model_names` |

The `main` loop is a `for` loop in `DownloadAndConfigure`. Its body,
`ProvisionModel`, reassigns the model name step by step as the script
does. Both are proved equal to the reference functions `ProvisionOne` and
`Provisioned`.

Some consequences of the code as written, all proved in the model:

- The `gpt-4` keyword `llama-3.1-8` can never match, because the name
  cleanup turns every `.` into `-` (`DottedKeywordNeverMatches`).
- A `max_models` of zero or less still lets one model through, because the
  cap test runs after the append (`Cap`).
- An empty category string, as in `--include-categories "llama,"`, lets
  every model through (`EmptyCategoryMatchesAll`).
- Writing `gpt-3.5-turbo.yaml` before the `gpt-4` source is read cannot
  change the `gpt-4` alias (`LargeSourceUnaffected`).
- Each alias file, when written, is exactly the configuration the script
  would have generated for the alias name. It has the copied model's
  weight file and thread count, and for `gpt-4` a 4096 context
  (`SmallAliasOfRun`, `LargeAliasOfRun`). This holds unless the weight
  file's own name contains `name: <model>`, or for `gpt-4` contains
  `context_size: 2048`. The replacements of lines 192 and 211-213 would
  then rewrite the `model:` line too.

The `llama`/`mistral` stem keeps whatever follows the last occurrence of the
family name. For a hyphenated id such as `Meta-Llama-3-8B` the name is
therefore `llama--3-8b`, which the keyword `llama-3-8` does not match. A
derived name may also be empty (an id made only of punctuation), and the
script does not reject it. The model follows the code in both cases. The
thread count comes from the one formula of line 115 for models of every
size.

## Model

All source cells refer to one file.

| member | source | states |
|---|---|---|
| `LexOrder.LexLeTotal` | scripts/models/auto-update-models.py:93 | any two strings are ordered one way or the other under the order `sorted` uses |
| `LexOrder.LexLeAntisymmetric` | scripts/models/auto-update-models.py:93 | two strings ordered both ways are equal |
| `LexOrder.LexLeTransitive` | scripts/models/auto-update-models.py:93 | the order is transitive |
| `LexOrder.Min` | scripts/models/auto-update-models.py:93 | `sorted(xs)[0]` is an element of `xs` that is below or equal to every element |
| `LexOrder.MinUnique` | scripts/models/auto-update-models.py:102-103 | any element below or equal to all others is that minimum, so the choice does not depend on the listing's order |
| `LexOrder.MinOfSameElements` | scripts/models/auto-update-models.py:102-103 | two lists with the same members have the same minimum |
| `Seqs.Filter` | scripts/models/auto-update-models.py:91 | a comprehension keeps exactly the members that pass the test, and is no longer than its input |
| `Seqs.FilterAppend` | scripts/models/auto-update-models.py:60-80 | filtering a concatenation filters each part |
| `Seqs.FilterIsSubsequence` | scripts/models/auto-update-models.py:60-80 | the filtered list is an order-preserving subsequence of its input |
| `Seqs.PrefixOfSubsequence` | scripts/models/auto-update-models.py:77-78 | cutting a subsequence short leaves a subsequence |
| `Text.Contains` | scripts/models/auto-update-models.py:64 | `p in s`, scanning start positions left to right; `ContainsIffOccurs` states what it means |
| `Text.ContainsIffOccurs` | scripts/models/auto-update-models.py:64 | `p in s` holds exactly when `p` occurs at some index of `s` |
| `Text.ContainsAnyIff` | scripts/models/auto-update-models.py:70 | `any(x in s for x in subs)` holds exactly when one of `subs` occurs in `s` |
| `Text.Lower` | scripts/models/auto-update-models.py:258 | `lower()` keeps the length and lower-cases each character |
| `Text.LowerIdempotent` | scripts/models/auto-update-models.py:258 | lower-casing twice is lower-casing once, and leaves no upper-case letter |
| `Text.Split` | scripts/models/auto-update-models.py:230 | `split` yields at least one piece, the first a prefix of the string |
| `Text.Join` | scripts/models/auto-update-models.py:230 | `sep.join(xs)`; `JoinSplit` shows it undoes `split` |
| `Text.JoinSplit` | scripts/models/auto-update-models.py:230 | joining the pieces of a split with the separator gives back the string |
| `Text.SplitPiecesAvoidSep` | scripts/models/auto-update-models.py:230 | no piece of a split contains the separator |
| `Text.AfterLast` | scripts/models/auto-update-models.py:258 | `s.split(sep)[-1]` is what follows the last `sep`: `s` ends with `sep` and the result, which holds no `sep`; it is `s` itself when `sep` does not occur |
| `Text.SplitUnlines` | scripts/models/auto-update-models.py:119-139 | splitting a text of newline-terminated lines at `\n` gives the lines back, then an empty piece |
| `Text.Replace` | scripts/models/auto-update-models.py:265 | `s.replace(p, r)`, left to right without overlap; `ReplaceIsJoinOfSplit` ties it to `split` and `join`, and the `Replace…` lemmas below give what it leaves alone |
| `Text.ReplaceIsJoinOfSplit` | scripts/models/auto-update-models.py:265 | `s.replace(p, r) == r.join(s.split(p))` |
| `Text.ReplaceAbsent` | scripts/models/auto-update-models.py:192 | replacing a pattern that does not occur changes nothing |
| `Text.ReplaceSkip` | scripts/models/auto-update-models.py:192 | no occurrence starts inside a prefix that lacks the pattern's first character |
| `Text.ReplaceConcat` | scripts/models/auto-update-models.py:211-213 | when the first part ends with a character outside the pattern, the two parts are rewritten separately |
| `Text.ReplaceUnlinesUnchanged` | scripts/models/auto-update-models.py:211-213 | lines that do not hold the pattern survive a replace unchanged |
| `Text.ReplaceByEmptyChars` | scripts/models/auto-update-models.py:265 | deleting a pattern introduces no character |
| `Text.Strip` | scripts/models/auto-update-models.py:267 | `strip(chars)` is a slice of the string with only `chars` outside it, and neither of its ends is in `chars` |
| `Text.StripUnchanged` | scripts/models/auto-update-models.py:230 | a string whose ends are not stripped characters is unchanged |
| `Text.NatToDecimal` | scripts/models/auto-update-models.py:124 | `str(n)` is a non-empty string of digits that starts with `0` only for zero |
| `Text.DecimalRoundTrip` | scripts/models/auto-update-models.py:124 | reading `str(n)` back as a number gives `n` |
| `GgufSelection.Matches` | scripts/models/auto-update-models.py:100 | the matches are exactly the files that contain the pattern |
| `GgufSelection.GgufFiles` | scripts/models/auto-update-models.py:96 | the `.gguf` files are exactly the files ending in `.gguf` |
| `GgufSelection.FirstPatternMatch` | scripts/models/auto-update-models.py:99-102 | no result exactly when no pattern matches; otherwise the least file matching the first pattern that matches anything |
| `GgufSelection.SelectGgufFile` | scripts/models/auto-update-models.py:91-103 | no file exactly when no file ends in `.gguf`; otherwise one of the `.gguf` files |
| `GgufSelection.FirstHitOf` | scripts/models/auto-update-models.py:99-101 | when some pattern matches, there is a first one |
| `GgufSelection.PreferredFileWins` | scripts/models/auto-update-models.py:91-93 | with a `Q4_K_M` `.gguf` file present, the choice is the least such file |
| `GgufSelection.FallbackPatternWins` | scripts/models/auto-update-models.py:96-102 | without one, the first fallback pattern matched by a `.gguf` file decides, and its least file is chosen |
| `GgufSelection.AnyGgufLastResort` | scripts/models/auto-update-models.py:103 | without any pattern match, the least `.gguf` file is chosen |
| `GgufSelection.FindBestGgufFile` | scripts/models/auto-update-models.py:86-108 | a failed listing gives no file; otherwise no file exactly when none ends in `.gguf`, and any file returned is a listed `.gguf` file |
| `TrendingFilter.MatchesCategory` | scripts/models/auto-update-models.py:63-65 | the category test, skipped when no categories are given; `MatchesCategoryIff` and `EmptyCategoryMatchesAll` state what it accepts |
| `TrendingFilter.MatchesCategoryIff` | scripts/models/auto-update-models.py:63-65 | with categories given, an id passes exactly when one category occurs in it, ignoring case |
| `TrendingFilter.AnyCategoryIff` | scripts/models/auto-update-models.py:64 | the `any(...)` over categories holds exactly when one of them occurs |
| `TrendingFilter.EmptyCategoryMatchesAll` | scripts/models/auto-update-models.py:64 | an empty category lets every id through |
| `TrendingFilter.LooksSmall` | scripts/models/auto-update-models.py:68-74 | the small-size test of the two `continue`s; `LooksSmallIff` states what it accepts |
| `TrendingFilter.LooksSmallIff` | scripts/models/auto-update-models.py:68-74 | an id looks small exactly when no large marker and some small marker occurs in its lower-cased form |
| `TrendingFilter.Cap` | scripts/models/auto-update-models.py:76-78 | the loop keeps `max_models` ids, but at least one |
| `TrendingFilter.Trending` | scripts/models/auto-update-models.py:60-80 | the reference selection: every id passing both tests, in order, cut to the cap; `TrendingSound`, `TrendingComplete` and `SelectTrending` are its partners |
| `TrendingFilter.TrendingSound` | scripts/models/auto-update-models.py:60-80 | the selection is an order-preserving subsequence of the hub's list, every member passes both tests, and it is no longer than the cap |
| `TrendingFilter.TrendingComplete` | scripts/models/auto-update-models.py:60-80 | every id that passes the tests is selected unless the cap is full |
| `TrendingFilter.CapReached` | scripts/models/auto-update-models.py:77-78 | once the cap is reached, the rest of the list does not matter |
| `TrendingFilter.SelectTrending` | scripts/models/auto-update-models.py:60-80 | the loop, with its `continue`s and its `break`, computes exactly the reference selection |
| `ConfigTemplate.Indented` | scripts/models/auto-update-models.py:129-138 | each template line is indented by six spaces |
| `ConfigTemplate.ChatTemplateFacts` | scripts/models/auto-update-models.py:129-138 | no chat template line holds a newline, and only the `range` line holds a `:` |
| `ConfigTemplate.TemplateLinesSingle` | scripts/models/auto-update-models.py:126-138 | no line of the template section holds a newline |
| `ModelConfig.RecommendedThreads` | scripts/models/auto-update-models.py:115 | the thread count is between 2 and 8, half the cores in between, and never more than half the cores when there are at least four |
| `ModelConfig.RecommendedThreadsMonotone` | scripts/models/auto-update-models.py:115 | more cores never mean fewer threads |
| `ModelConfig.ConfigText` | scripts/models/auto-update-models.py:119-139 | the configuration as text, one field line after another, each ended by a newline; `ConfigTextRoundTrip` reads the lines back |
| `ModelConfig.RenderConfig` | scripts/models/auto-update-models.py:115-139 | `config_content` for a name, a weight file and the host's cores; `RenderedThreadsRoundTrip` reads the thread count back |
| `ModelConfig.ConfigFileName` | scripts/models/auto-update-models.py:117 | `f"{model_name}.yaml"`; `OpenAiAliases.ConfigFileNameInjective` shows distinct names get distinct files |
| `ModelConfig.ConfigTextRoundTrip` | scripts/models/auto-update-models.py:119-139 | the written text splits back into the configuration's lines, so every field reads back as rendered |
| `ModelConfig.RenderedThreadsRoundTrip` | scripts/models/auto-update-models.py:124 | the `threads:` value reads back as the chosen count |
| `ModelConfig.CreateModelConfig` | scripts/models/auto-update-models.py:117-142 | `<name>.yaml` now holds the rendered configuration, and every other file is unchanged |
| `ModelName.RepoName` | scripts/models/auto-update-models.py:258 | the lower-cased id ends with `/` and the result, which holds no `/` and no upper-case letter; without a `/` it is the whole id lower-cased |
| `ModelName.Stem` | scripts/models/auto-update-models.py:259-262 | with `llama` (else `mistral`) in the name, the result is the family, a dash, and what follows the family's last occurrence in the name; otherwise the name unchanged |
| `ModelName.MapNameChars` | scripts/models/auto-update-models.py:266 | kept characters stay in place and every other character becomes `-` |
| `ModelName.MapNameCharsKeeps` | scripts/models/auto-update-models.py:266 | a string of kept characters is mapped to itself |
| `ModelName.Sanitize` | scripts/models/auto-update-models.py:266-267 | the result is clean: kept characters only, and no `-` or `_` at either end |
| `ModelName.SanitizeKeepsClean` | scripts/models/auto-update-models.py:266-267 | a clean name passes through the cleanup unchanged |
| `ModelName.SanitizeIdempotent` | scripts/models/auto-update-models.py:266-267 | cleaning twice is cleaning once |
| `ModelName.DeriveModelName` | scripts/models/auto-update-models.py:258-267 | the derived name is clean and has no upper-case letter |
| `ModelName.CleanNameLacks` | scripts/models/auto-update-models.py:266 | a clean name holds no newline, `.`, `:`, `/` or space |
| `ModelName.DerivedNameLower` | scripts/models/auto-update-models.py:258-267 | lower-casing a derived name changes nothing |
| `OpenAiAliases.Suits` | scripts/models/auto-update-models.py:182 | the keyword test of both list comprehensions; `Text.ContainsAnyIff` states what it accepts, and `AutoUpdate.DottedKeywordNeverMatches` what it accepts for `gpt-4` |
| `OpenAiAliases.FirstSuited` | scripts/models/auto-update-models.py:182-184 | the index of the first name that holds a keyword, or none exactly when no name does |
| `OpenAiAliases.AliasSource` | scripts/models/auto-update-models.py:182-188 | an alias source is the first suitable name and has a configuration; without one, no suitable name with a configuration comes first |
| `OpenAiAliases.CreateOpenAiAliases` | scripts/models/auto-update-models.py:173-218 | an empty list changes nothing; at most the two alias files are added or rewritten, and every other file is kept |
| `OpenAiAliases.AliasContents` | scripts/models/auto-update-models.py:181-218 | each alias file is written exactly when its source exists, with the renamed copy (and, for `gpt-4`, the larger context); otherwise it keeps its old state |
| `OpenAiAliases.ConfigFileNameInjective` | scripts/models/auto-update-models.py:186 | distinct names have distinct configuration files |
| `OpenAiAliases.LargeSourceUnaffected` | scripts/models/auto-update-models.py:199-206 | a `gpt-4` source is never the `gpt-3.5-turbo` alias file written just before |
| `OpenAiAliases.Rename` | scripts/models/auto-update-models.py:192 | the `name:` replacement; `RenameRendered` shows what it does to a generated configuration |
| `OpenAiAliases.LargeAliasText` | scripts/models/auto-update-models.py:211-213 | the two replacements of the `gpt-4` copy; `LargeAliasOfRendered` shows what they make of a generated configuration |
| `OpenAiAliases.RenameRendered` | scripts/models/auto-update-models.py:192 | renaming a generated configuration gives the configuration generated under the new name |
| `OpenAiAliases.RaiseContextRendered` | scripts/models/auto-update-models.py:213 | raising the context of a generated configuration rewrites only its `context_size:` line |
| `OpenAiAliases.SmallAliasOfRendered` | scripts/models/auto-update-models.py:181-197 | the `gpt-3.5-turbo` copy is the configuration generated for that name, with the same file and threads |
| `OpenAiAliases.LargeAliasOfRendered` | scripts/models/auto-update-models.py:199-218 | the `gpt-4` copy is the configuration generated for `gpt-4`, with the same file and threads and a 4096 context |
| `AutoUpdate.ParseCategories` | scripts/models/auto-update-models.py:228-230 | no categories exactly when the option is absent or empty; otherwise one stripped category per comma-separated piece, none holding a comma |
| `AutoUpdate.StripEach` | scripts/models/auto-update-models.py:230 | one stripped piece per piece, each stripped as `Text.Strip` states, and none holding a character its piece lacked |
| `AutoUpdate.ParseCategoriesRoundTrip` | scripts/models/auto-update-models.py:230 | without whitespace, joining the categories with commas gives back the option |
| `AutoUpdate.Basename` | scripts/models/auto-update-models.py:275 | the base name is what follows the last `/`: the path ends with `/` and the base name, which holds no `/`; it is the path when it has no `/` |
| `AutoUpdate.ProvisionOne` | scripts/models/auto-update-models.py:250-278 | the reference pass of the loop body for one model; `ProvisionOneCases` states what it can change, and `ProvisionModel` is proved to compute it |
| `AutoUpdate.Provisioned` | scripts/models/auto-update-models.py:248-278 | the reference run: the passes over the selected models in order; `ProvisionedNames`, `ProvisionedFrame` and `ProvisionedConfigured` state what it guarantees, and `DownloadAndConfigure` is proved to compute it |
| `AutoUpdate.ProvisionOneCases` | scripts/models/auto-update-models.py:250-278 | one pass either changes nothing or adds exactly one name, its configuration and its weight file |
| `AutoUpdate.ProvisionedNames` | scripts/models/auto-update-models.py:248-278 | at most one name per model, every name clean |
| `AutoUpdate.ProvisionedFrame` | scripts/models/auto-update-models.py:248-278 | configuration files are added or rewritten only under collected names, and the output directory only grows |
| `AutoUpdate.ProvisionedConfigured` | scripts/models/auto-update-models.py:252-278 | every collected name's file holds the rendered configuration of a model that led to that name, with its weight file in the output directory |
| `AutoUpdate.ProvisionModel` | scripts/models/auto-update-models.py:250-278 | the loop body, reassigning the name step by step, performs exactly one reference pass |
| `AutoUpdate.DownloadAndConfigure` | scripts/models/auto-update-models.py:248-278 | the loop computes the reference run over the selected models |
| `AutoUpdate.FinalConfigs` | scripts/models/auto-update-models.py:281-282 | aliases are made only when requested and some model made it, and no configuration is removed |
| `AutoUpdate.UpdateModels` | scripts/models/auto-update-models.py:228-282 | list-only mode changes nothing; otherwise the result is the reference run over the selection, with aliases when requested |
| `AutoUpdate.SmallAliasOfRun` | scripts/models/auto-update-models.py:181-197 | after a run, a written `gpt-3.5-turbo.yaml` copies a model of the run whose weight file is in the output directory; unless that file's name holds `name: <model>`, it is the configuration generated for `gpt-3.5-turbo` with that file |
| `AutoUpdate.LargeAliasOfRun` | scripts/models/auto-update-models.py:199-218 | after a run, a written `gpt-4.yaml` copies a model of the run whose weight file is in the output directory; unless that file's name holds `name: <model>` or `context_size: 2048`, it is the configuration generated for `gpt-4` with that file and a 4096 context |
| `AutoUpdate.DottedKeywordNeverMatches` | scripts/models/auto-update-models.py:200 | a derived name suits `gpt-4` exactly when it holds `llama-3-8` or `mistral-7`; `llama-3.1-8` never matches |

## Left out

- The hub query itself (`HfApi().list_models` with library `gguf`, sorted by downloads, limit 100) is not modelled. Its result is the input list of ids.
- `api.list_repo_files` is not modelled. Its result is the `listing` parameter, and `None` stands for the exception that `find_best_gguf_file` catches and reports.
- `subprocess.run` of `huggingface-cli` is not modelled. Its success is the `cli` parameter, and a failure is `False`.
- `multiprocessing.cpu_count()` is not modelled. It is the `cores` parameter.
- Files are a map, a set of names and membership tests. This stands in for `os.makedirs`, `os.path.exists`, `os.path.join` and reading or writing files. The config and output directory paths are not modelled.
- AutoUpdate.ProvisionOne: the output directory records the weight file under its base name, the path `download_model` checks. `huggingface-cli` saves files from a repository sub-folder under that sub-folder, so those files are downloaded again on every run, and that is not tracked.
- AutoUpdate.SmallAliasOfRun: when the copied model's weight file name itself holds `name: <model>`, the replacement of line 192 also rewrites the `model:` line. The lemma does not say what the alias then holds.
- AutoUpdate.LargeAliasOfRun: the same holds when the weight file name holds `name: <model>` or `context_size: 2048`, which lines 211 and 213 would rewrite too.
- Argument parsing (`argparse`) and its defaults are not modelled. The options are parameters of `UpdateModels`.
- All printing is left out: the progress messages, the found-models list and the summary. None of it affects the state.
- `Text.Lower`: `lower()`, `isalnum()` and the argument-less `strip()` are modelled on ASCII only. Unicode case mapping, non-ASCII letters and digits, and non-ASCII whitespace are outside the model.
- Only the script's own core is modelled. The other files of the repository are not part of this model.
