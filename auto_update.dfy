/**
 * `main`: parse the categories, pick the trending models, and for each one
 * find its weight file, derive its name, download it and write its
 * configuration, collecting the names of the models that made it; then,
 * when asked, write the OpenAI aliases. The hub, the download command and
 * the host are parameters: `listing(id)` is what listing the repository
 * returns (`None` when that raises), `cli(id, file)` whether
 * `huggingface-cli download` succeeds, and `cores` the CPU count. The
 * configuration directory is a map from file name to contents, the output
 * directory the set of file names in it.
 */
module AutoUpdate {
  import opened Wrappers
  import opened Text
  import opened GgufSelection
  import opened TrendingFilter
  import opened ModelConfig
  import opened OpenAiAliases
  import opened ModelName

  // ---------------------------------------------------------------------
  // --include-categories

  /** The characters Python's argument-less `strip()` removes, restricted to ASCII. */
  const Whitespace: set<char> :=
    {' ', '\t', '\n', '\r', '\U{0B}', '\U{0C}', '\U{1C}', '\U{1D}', '\U{1E}', '\U{1F}'}

  /**
   * `[c.strip() for c in arg.split(',')]` when the option is given and not
   * empty; otherwise no categories (`None`, which the filter treats like
   * an empty list).
   */
  function ParseCategories(arg: Option<string>): (r: seq<string>)
    ensures |r| == 0 <==> arg.None? || arg.value == ""
    ensures arg.Some? && arg.value != "" ==> |r| == |Split(arg.value, ",")|
    ensures forall k | 0 <= k < |r| :: ',' !in r[k]
    ensures forall k | 0 <= k < |r| :: |r[k]| == 0 || (r[k][0] !in Whitespace && r[k][|r[k]| - 1] !in Whitespace)
  {
    if arg.None? || arg.value == "" then []
    else
      CommaPiecesLackComma(arg.value);
      StripEach(Split(arg.value, ","))
  }

  /** `[c.strip() for c in pieces]`, stripping each piece and keeping no character it lacked. */
  function StripEach(pieces: seq<string>): (r: seq<string>)
    ensures |r| == |pieces|
    ensures forall k | 0 <= k < |r| :: r[k] == Strip(pieces[k], Whitespace)
    ensures forall k, c | 0 <= k < |r| && c !in pieces[k] :: c !in r[k]
  {
    seq(|pieces|, k requires 0 <= k < |pieces| => Strip(pieces[k], Whitespace))
  }

  /** No piece of a split at commas holds a comma. */
  lemma CommaPiecesLackComma(s: string)
    ensures forall k | 0 <= k < |Split(s, ",")| :: ',' !in Split(s, ",")[k]
  {
    var pieces := Split(s, ",");
    SplitPiecesAvoidSep(s, ",");
    forall k | 0 <= k < |pieces| ensures ',' !in pieces[k] {
      ContainsSingleChar(pieces[k], ',');
    }
  }

  /**
   * Round trip: when the option holds no whitespace, joining the parsed
   * categories with commas gives it back.
   */
  lemma ParseCategoriesRoundTrip(s: string)
    requires s != "" && forall c | c in s :: c !in Whitespace
    ensures Join(ParseCategories(Some(s)), ",") == s
  {
    var pieces := Split(s, ",");
    JoinSplit(s, ",");
    forall k | 0 <= k < |pieces| ensures Strip(pieces[k], Whitespace) == pieces[k] {
      PieceUnstripped(pieces, k, s);
    }
    StripEachUnchanged(pieces);
  }

  /** A piece of a whitespace-free string has no whitespace to strip. */
  lemma PieceUnstripped(pieces: seq<string>, k: int, s: string)
    requires 0 <= k < |pieces| && Join(pieces, ",") == s
    requires forall c | c in s :: c !in Whitespace
    ensures Strip(pieces[k], Whitespace) == pieces[k]
  {
    if |pieces[k]| > 0 {
      JoinPieceChars(pieces, ",", k, pieces[k][0]);
      JoinPieceChars(pieces, ",", k, pieces[k][|pieces[k]| - 1]);
    }
    StripUnchanged(pieces[k], Whitespace);
  }

  lemma StripEachUnchanged(pieces: seq<string>)
    requires forall k | 0 <= k < |pieces| :: Strip(pieces[k], Whitespace) == pieces[k]
    ensures StripEach(pieces) == pieces
  {
  }

  // ---------------------------------------------------------------------
  // The download-and-configure loop

  /** `os.path.basename(path)` */
  function Basename(path: string): (r: string)
    ensures '/' !in r
    ensures EndsWith(path, r)
    ensures '/' !in path ==> r == path
    ensures '/' in path ==> EndsWith(path, "/" + r)
  {
    var r := AfterLast(path, "/");
    ContainsSingleChar(r, '/');
    ContainsSingleChar(path, '/');
    r
  }

  /** What the loop has built so far: the collected names and both directories. */
  datatype Run = Run(names: seq<string>, configs: map<string, string>, present: set<string>)

  /**
   * One pass of the loop body. A model without a `.gguf` file is skipped;
   * `download_model` succeeds at once when the file is already in the output
   * directory and otherwise when the command does, and on failure the model
   * is skipped; on success its configuration is written and its name kept.
   */
  function ProvisionOne(run: Run, id: string, listing: string -> Option<seq<string>>,
                        cli: (string, string) -> bool, cores: nat): Run
  {
    match FindBestGgufFile(listing(id))
    case None => run
    case Some(file) =>
      var destination := Basename(file);
      if destination !in run.present && !cli(id, file) then run
      else
        var name := DeriveModelName(id);
        Run(run.names + [name], CreateModelConfig(run.configs, name, destination, cores), run.present + {destination})
  }

  /** Reference definition of the loop: the passes over `ids`, in order. */
  function Provisioned(ids: seq<string>, listing: string -> Option<seq<string>>, cli: (string, string) -> bool,
                       cores: nat, configs: map<string, string>, present: set<string>): Run
    decreases |ids|
  {
    if |ids| == 0 then Run([], configs, present)
    else ProvisionOne(Provisioned(ids[..|ids| - 1], listing, cli, cores, configs, present), ids[|ids| - 1], listing, cli, cores)
  }

  /** `ids[k]` was listed with a weight file, downloaded, and configured under `name`. */
  predicate ConfiguredFrom(ids: seq<string>, k: int, listing: string -> Option<seq<string>>, name: string,
                           run: Run, cores: nat)
  {
    && 0 <= k < |ids|
    && FindBestGgufFile(listing(ids[k])).Some?
    && DeriveModelName(ids[k]) == name
    && Basename(FindBestGgufFile(listing(ids[k])).value) in run.present
    && ConfigFileName(name) in run.configs
    && run.configs[ConfigFileName(name)] == RenderConfig(name, Basename(FindBestGgufFile(listing(ids[k])).value), cores)
  }

  /** One pass either leaves the run as it was or adds exactly one model. */
  lemma ProvisionOneCases(run: Run, id: string, listing: string -> Option<seq<string>>,
                          cli: (string, string) -> bool, cores: nat)
    ensures var r := ProvisionOne(run, id, listing, cli, cores);
      || r == run
      || (&& FindBestGgufFile(listing(id)).Some?
          && var f := Basename(FindBestGgufFile(listing(id)).value);
          && r.names == run.names + [DeriveModelName(id)]
          && r.configs == CreateModelConfig(run.configs, DeriveModelName(id), f, cores)
          && r.present == run.present + {f})
  {
  }

  lemma ProvisionedLast(ids: seq<string>, listing: string -> Option<seq<string>>, cli: (string, string) -> bool,
                        cores: nat, configs: map<string, string>, present: set<string>)
    requires |ids| > 0
    ensures Provisioned(ids, listing, cli, cores, configs, present)
      == ProvisionOne(Provisioned(ids[..|ids| - 1], listing, cli, cores, configs, present), ids[|ids| - 1], listing, cli, cores)
  {
  }

  /** At most one name per model, and every name clean. */
  lemma {:induction false} ProvisionedNames(ids: seq<string>, listing: string -> Option<seq<string>>,
                                            cli: (string, string) -> bool, cores: nat,
                                            configs: map<string, string>, present: set<string>)
    ensures var r := Provisioned(ids, listing, cli, cores, configs, present);
      |r.names| <= |ids| && forall n | n in r.names :: IsCleanName(n)
    decreases |ids|
  {
    if |ids| > 0 {
      var init := ids[..|ids| - 1];
      ProvisionedNames(init, listing, cli, cores, configs, present);
      ProvisionedLast(ids, listing, cli, cores, configs, present);
      ProvisionOneCases(Provisioned(init, listing, cli, cores, configs, present), ids[|ids| - 1], listing, cli, cores);
    }
  }

  /** The configuration files of the collected names. */
  function ConfigFiles(names: seq<string>): set<string> {
    set n | n in names :: ConfigFileName(n)
  }

  lemma ConfigFilesSnoc(names: seq<string>, n: string)
    ensures ConfigFiles(names + [n]) == ConfigFiles(names) + {ConfigFileName(n)}
  {
    assert forall m | m in names + [n] :: m in names || m == n;
  }

  /**
   * Configuration files are only added or rewritten under a collected name,
   * and the output directory only grows.
   */
  lemma {:induction false} ProvisionedFrame(ids: seq<string>, listing: string -> Option<seq<string>>,
                                            cli: (string, string) -> bool, cores: nat,
                                            configs: map<string, string>, present: set<string>)
    ensures var r := Provisioned(ids, listing, cli, cores, configs, present);
      && r.configs.Keys == configs.Keys + ConfigFiles(r.names)
      && (forall key | key in configs && key !in ConfigFiles(r.names) :: r.configs[key] == configs[key])
      && present <= r.present
    decreases |ids|
  {
    if |ids| > 0 {
      var init := ids[..|ids| - 1];
      ProvisionedFrame(init, listing, cli, cores, configs, present);
      ProvisionedLast(ids, listing, cli, cores, configs, present);
      ProvisionOneFrame(Provisioned(init, listing, cli, cores, configs, present), ids[|ids| - 1], listing, cli, cores,
        configs, present);
    }
  }

  /** One pass keeps the frame of `ProvisionedFrame`. */
  lemma ProvisionOneFrame(prev: Run, id: string, listing: string -> Option<seq<string>>,
                          cli: (string, string) -> bool, cores: nat,
                          configs: map<string, string>, present: set<string>)
    requires prev.configs.Keys == configs.Keys + ConfigFiles(prev.names)
    requires forall key | key in configs && key !in ConfigFiles(prev.names) :: prev.configs[key] == configs[key]
    requires present <= prev.present
    ensures var r := ProvisionOne(prev, id, listing, cli, cores);
      && r.configs.Keys == configs.Keys + ConfigFiles(r.names)
      && (forall key | key in configs && key !in ConfigFiles(r.names) :: r.configs[key] == configs[key])
      && present <= r.present
  {
    ProvisionOneCases(prev, id, listing, cli, cores);
    var r := ProvisionOne(prev, id, listing, cli, cores);
    if r != prev {
      AddedModelFrame(prev, r, DeriveModelName(id), Basename(FindBestGgufFile(listing(id)).value), cores,
        configs, present);
    }
  }

  /** Adding one model keeps the frame of `ProvisionedFrame`. */
  lemma AddedModelFrame(prev: Run, r: Run, name: string, file: string, cores: nat,
                        configs: map<string, string>, present: set<string>)
    requires prev.configs.Keys == configs.Keys + ConfigFiles(prev.names)
    requires forall key | key in configs && key !in ConfigFiles(prev.names) :: prev.configs[key] == configs[key]
    requires present <= prev.present
    requires r.names == prev.names + [name]
    requires r.configs == CreateModelConfig(prev.configs, name, file, cores)
    requires r.present == prev.present + {file}
    ensures r.configs.Keys == configs.Keys + ConfigFiles(r.names)
    ensures forall key | key in configs && key !in ConfigFiles(r.names) :: r.configs[key] == configs[key]
    ensures present <= r.present
  {
    ConfigFilesSnoc(prev.names, name);
    forall key | key in configs && key !in ConfigFiles(r.names) ensures r.configs[key] == configs[key] {
      assert key != ConfigFileName(name) && key !in ConfigFiles(prev.names);
    }
  }

  /** A configuration recorded before a pass is still in place after it, unless the pass rewrote it. */
  lemma ConfiguredKept(ids: seq<string>, k: int, listing: string -> Option<seq<string>>, cli: (string, string) -> bool,
                       name: string, prev: Run, cores: nat, id: string)
    requires ConfiguredFrom(ids, k, listing, name, prev, cores)
    requires name != DeriveModelName(id) || ProvisionOne(prev, id, listing, cli, cores) == prev
    ensures ConfiguredFrom(ids + [id], k, listing, name, ProvisionOne(prev, id, listing, cli, cores), cores)
  {
    assert (ids + [id])[k] == ids[k];
    ProvisionOneCases(prev, id, listing, cli, cores);
    ConfigFileNameInjective(name, DeriveModelName(id));
  }

  /**
   * Each name's configuration file is the rendering for a model that led to
   * that name, whose weight file is in the output directory.
   */
  lemma {:induction false} ProvisionedConfigured(ids: seq<string>, listing: string -> Option<seq<string>>,
                                                 cli: (string, string) -> bool, cores: nat,
                                                 configs: map<string, string>, present: set<string>)
    ensures var r := Provisioned(ids, listing, cli, cores, configs, present);
      forall n | n in r.names :: exists k :: ConfiguredFrom(ids, k, listing, n, r, cores)
    decreases |ids|
  {
    if |ids| > 0 {
      var init := ids[..|ids| - 1];
      var id := ids[|ids| - 1];
      assert init + [id] == ids;
      ProvisionedConfigured(init, listing, cli, cores, configs, present);
      ProvisionedLast(ids, listing, cli, cores, configs, present);
      ProvisionedConfiguredStep(init, id, listing, cli, cores, Provisioned(init, listing, cli, cores, configs, present));
    }
  }

  /** One pass keeps every collected name configured from some model, the new one included. */
  lemma ProvisionedConfiguredStep(init: seq<string>, id: string, listing: string -> Option<seq<string>>,
                                  cli: (string, string) -> bool, cores: nat, prev: Run)
    requires forall n | n in prev.names :: exists k :: ConfiguredFrom(init, k, listing, n, prev, cores)
    ensures var r := ProvisionOne(prev, id, listing, cli, cores);
      forall n | n in r.names :: exists k :: ConfiguredFrom(init + [id], k, listing, n, r, cores)
  {
    var r := ProvisionOne(prev, id, listing, cli, cores);
    ProvisionOneNames(prev, id, listing, cli, cores);
    forall n | n in r.names ensures exists k :: ConfiguredFrom(init + [id], k, listing, n, r, cores) {
      if r != prev && n == DeriveModelName(id) {
        ConfiguredAdded(init, id, listing, cli, cores, prev);
      } else {
        assert n in prev.names;
        var k :| ConfiguredFrom(init, k, listing, n, prev, cores);
        ConfiguredKept(init, k, listing, cli, n, prev, cores, id);
      }
    }
  }

  /** A pass extends the names by the model's name exactly when it changes the run. */
  lemma ProvisionOneNames(prev: Run, id: string, listing: string -> Option<seq<string>>,
                          cli: (string, string) -> bool, cores: nat)
    ensures var r := ProvisionOne(prev, id, listing, cli, cores);
      r.names == if r == prev then prev.names else prev.names + [DeriveModelName(id)]
  {
  }

  /** A pass that adds a model records its configuration. */
  lemma ConfiguredAdded(init: seq<string>, id: string, listing: string -> Option<seq<string>>,
                        cli: (string, string) -> bool, cores: nat, prev: Run)
    requires ProvisionOne(prev, id, listing, cli, cores) != prev
    ensures ConfiguredFrom(init + [id], |init|, listing, DeriveModelName(id), ProvisionOne(prev, id, listing, cli, cores), cores)
  {
    ProvisionOneCases(prev, id, listing, cli, cores);
    assert (init + [id])[|init|] == id;
  }

  /**
   * The body of the loop of `main` for one model, reassigning the model
   * name step by step as the source does; an early return stands for
   * `continue`.
   */
  method ProvisionModel(names: seq<string>, configs: map<string, string>, present: set<string>, id: string,
                        listing: string -> Option<seq<string>>, cli: (string, string) -> bool, cores: nat)
    returns (names': seq<string>, configs': map<string, string>, present': set<string>)
    ensures Run(names', configs', present') == ProvisionOne(Run(names, configs, present), id, listing, cli, cores)
  {
    names', configs', present' := names, configs, present;
    var fileName := FindBestGgufFile(listing(id));
    if fileName.None? {
      return;
    }
    var modelName := RepoName(id);
    modelName := Stem(modelName);
    modelName := Replace(modelName, "-gguf", "");
    modelName := Sanitize(modelName);
    var destination := Basename(fileName.value);
    if destination !in present {
      var ok := cli(id, fileName.value);
      if !ok {
        ProvisionOneSkips(Run(names, configs, present), id, listing, cli, cores);
        return;
      }
      present' := present + {destination};
    }
    configs' := CreateModelConfig(configs, modelName, destination, cores);
    names' := names + [modelName];
    ProvisionOneAdds(Run(names, configs, present), id, listing, cli, cores);
  }

  /** The pass for a model whose weight file is new and fails to download changes nothing. */
  lemma ProvisionOneSkips(run: Run, id: string, listing: string -> Option<seq<string>>,
                          cli: (string, string) -> bool, cores: nat)
    requires FindBestGgufFile(listing(id)).Some?
    requires var file := FindBestGgufFile(listing(id)).value; Basename(file) !in run.present && !cli(id, file)
    ensures ProvisionOne(run, id, listing, cli, cores) == run
  {
  }

  /** The pass for a model whose weight file is in place or downloads records the model. */
  lemma ProvisionOneAdds(run: Run, id: string, listing: string -> Option<seq<string>>,
                         cli: (string, string) -> bool, cores: nat)
    requires FindBestGgufFile(listing(id)).Some?
    requires var file := FindBestGgufFile(listing(id)).value; Basename(file) in run.present || cli(id, file)
    ensures var file := FindBestGgufFile(listing(id)).value;
      ProvisionOne(run, id, listing, cli, cores) ==
        Run(run.names + [DeriveModelName(id)], CreateModelConfig(run.configs, DeriveModelName(id), Basename(file), cores),
            run.present + {Basename(file)})
  {
  }

  /**
   * The loop of `main` over the selected models; it computes the reference
   * run, so `ProvisionedNames`, `ProvisionedFrame` and
   * `ProvisionedConfigured` describe its result.
   */
  method DownloadAndConfigure(ids: seq<string>, listing: string -> Option<seq<string>>, cli: (string, string) -> bool,
                              cores: nat, configs0: map<string, string>, present0: set<string>)
    returns (names: seq<string>, configs: map<string, string>, present: set<string>)
    ensures Run(names, configs, present) == Provisioned(ids, listing, cli, cores, configs0, present0)
  {
    names, configs, present := [], configs0, present0;
    for i := 0 to |ids|
      invariant Run(names, configs, present) == Provisioned(ids[..i], listing, cli, cores, configs0, present0)
    {
      assert ids[..i + 1][..i] == ids[..i];
      ProvisionedLast(ids[..i + 1], listing, cli, cores, configs0, present0);
      names, configs, present := ProvisionModel(names, configs, present, ids[i], listing, cli, cores);
    }
    assert ids[..|ids|] == ids;
  }

  // ---------------------------------------------------------------------
  // The whole run

  /** The configuration directory at the end: the loop's, with the aliases added when asked for and possible. */
  function FinalConfigs(run: Run, createAliases: bool): (r: map<string, string>)
    ensures !createAliases || |run.names| == 0 ==> r == run.configs
    ensures run.configs.Keys <= r.Keys
  {
    if createAliases && |run.names| > 0 then CreateOpenAiAliases(run.configs, run.names) else run.configs
  }

  /**
   * `main` after argument parsing. In list-only mode nothing is downloaded
   * or written; otherwise the selected models are provisioned and the
   * aliases created when requested and some model made it.
   */
  method UpdateModels(hubIds: seq<string>, numModels: int, smallOnly: bool, includeCategories: Option<string>,
                      listOnly: bool, createAliases: bool, listing: string -> Option<seq<string>>,
                      cli: (string, string) -> bool, cores: nat,
                      configs0: map<string, string>, present0: set<string>)
    returns (names: seq<string>, configs: map<string, string>, present: set<string>)
    ensures listOnly ==> names == [] && configs == configs0 && present == present0
    ensures !listOnly ==>
      var run := Provisioned(Trending(hubIds, numModels, smallOnly, ParseCategories(includeCategories)),
                             listing, cli, cores, configs0, present0);
      names == run.names && present == run.present && configs == FinalConfigs(run, createAliases)
  {
    var categories := ParseCategories(includeCategories);
    var models := SelectTrending(hubIds, numModels, smallOnly, categories);
    if listOnly {
      return [], configs0, present0;
    }
    names, configs, present := DownloadAndConfigure(models, listing, cli, cores, configs0, present0);
    if createAliases && |names| > 0 {
      configs := CreateOpenAiAliases(configs, names);
    }
  }

  // ---------------------------------------------------------------------
  // The aliases of a run

  /**
   * After a run with aliases, `gpt-3.5-turbo.yaml`, when written, copies the
   * configuration of a model of the run whose weight file is in the output
   * directory. Unless that file's name itself holds `name: <model>` (which
   * the rename would rewrite too), the copy is the configuration generated
   * for `gpt-3.5-turbo` with that weight file and thread count.
   */
  lemma SmallAliasOfRun(ids: seq<string>, listing: string -> Option<seq<string>>, cli: (string, string) -> bool,
                        cores: nat, configs: map<string, string>, present: set<string>)
    requires |Provisioned(ids, listing, cli, cores, configs, present).names| > 0
    ensures var run := Provisioned(ids, listing, cli, cores, configs, present);
      var src := AliasSource(run.configs, run.names, SmallKeywords);
      src.Some? ==>
        exists k | ConfiguredFrom(ids, k, listing, src.value, run, cores) ::
          var f := Basename(FindBestGgufFile(listing(ids[k])).value);
          !Contains(f, "name: " + src.value) ==>
            CreateOpenAiAliases(run.configs, run.names)[ConfigFileName(SmallAlias)] == RenderConfig(SmallAlias, f, cores)
  {
    var run := Provisioned(ids, listing, cli, cores, configs, present);
    var src := AliasSource(run.configs, run.names, SmallKeywords);
    if src.Some? {
      var m := src.value;
      ProvisionedConfigured(ids, listing, cli, cores, configs, present);
      var i :| 0 <= i < |run.names| && run.names[i] == m;
      assert m in run.names;
      var k :| ConfiguredFrom(ids, k, listing, m, run, cores);
      var f := Basename(FindBestGgufFile(listing(ids[k])).value);
      if !Contains(f, "name: " + m) {
        CleanNameLacks(m);
        AliasContents(run.configs, run.names);
        SmallAliasOfRendered(m, f, cores);
      }
    }
  }

  /**
   * After a run with aliases, `gpt-4.yaml`, when written, copies the
   * configuration of a model of the run whose weight file is in the output
   * directory. Unless that file's name itself holds `name: <model>` or
   * `context_size: 2048` (which the two replacements would rewrite too),
   * the copy is the configuration generated for `gpt-4` with that weight
   * file and thread count and a context window of 4096.
   */
  lemma LargeAliasOfRun(ids: seq<string>, listing: string -> Option<seq<string>>, cli: (string, string) -> bool,
                        cores: nat, configs: map<string, string>, present: set<string>)
    requires |Provisioned(ids, listing, cli, cores, configs, present).names| > 0
    ensures var run := Provisioned(ids, listing, cli, cores, configs, present);
      var src := AliasSource(run.configs, run.names, LargeKeywords);
      src.Some? ==>
        exists k | ConfiguredFrom(ids, k, listing, src.value, run, cores) ::
          var f := Basename(FindBestGgufFile(listing(ids[k])).value);
          !Contains(f, "name: " + src.value) && !Contains(f, DefaultContextField) ==>
            CreateOpenAiAliases(run.configs, run.names)[ConfigFileName(LargeAlias)]
              == ConfigText(LargeAlias, f, NatToDecimal(RecommendedThreads(cores)), "4096")
  {
    var run := Provisioned(ids, listing, cli, cores, configs, present);
    var src := AliasSource(run.configs, run.names, LargeKeywords);
    if src.Some? {
      var m := src.value;
      ProvisionedConfigured(ids, listing, cli, cores, configs, present);
      var i :| 0 <= i < |run.names| && run.names[i] == m;
      assert m in run.names;
      var k :| ConfiguredFrom(ids, k, listing, m, run, cores);
      var f := Basename(FindBestGgufFile(listing(ids[k])).value);
      if !Contains(f, "name: " + m) && !Contains(f, DefaultContextField) {
        CleanNameLacks(m);
        AliasContents(run.configs, run.names);
        LargeAliasOfRendered(m, f, cores);
      }
    }
  }

  /**
   * Of the `gpt-4` keywords, `llama-3.1-8` can never match a derived name:
   * the cleanup turns every `.` into `-`.
   */
  lemma DottedKeywordNeverMatches(id: string)
    ensures Suits(DeriveModelName(id), LargeKeywords) <==>
      Contains(DeriveModelName(id), "llama-3-8") || Contains(DeriveModelName(id), "mistral-7")
  {
    var n := DeriveModelName(id);
    DerivedNameLower(id);
    CleanNameLacks(n);
    ContainsAnyIff(n, LargeKeywords);
    MissingCharNotContained(n, LargeKeywords[2], '.');
  }
}
