// generate_jobs: one rendered SLURM script per grid combination, written to
// runs/<cluster>/<experiment>/run_<i:04d>.slurm under the project's output tree.
module Jobs {
  import opened Outcomes
  import opened Dicts
  import opened Values
  import Strings
  import Numerals
  import Grid
  import Command
  import Template
  import ClusterConf

  /** Why generate_jobs stops before writing any script. */
  datatype JobError =
    | ClusterConfig(conf: ClusterConf.ConfError)  // load_cluster_config failed
    | ExperimentConfigNotFound                    // config.yaml is missing
    | GridConfigNotFound                          // grid.yaml is missing
    | ScriptNotString                             // " ".join fails on a non-str "script"

  /** One generated script: where it goes and what it holds. */
  datatype Job = Job(path: string, script: string)

  /** The command used when the experiment config has no "script" entry. */
  const DefaultScript: string := "python main.py"

  /** The SLURM variables, in the order the template mapping lists them. */
  const SlurmKeys: seq<string> :=
    ["JOB_NAME", "ACCOUNT", "PARTITION", "TIME", "GPU_TYPE", "NUM_GPUS", "CPUS", "MEMORY", "MODULES", "CMD"]

  /** The variables a cluster profile may set, each with the value used when it does not. */
  const ClusterDefaults: seq<(string, Value)> := [
    ("ACCOUNT", Str("default_account")),
    ("PARTITION", Str("debug")),
    ("TIME", Str("00:10:00")),
    ("GPU_TYPE", Str("")),
    ("NUM_GPUS", Int(0)),
    ("CPUS", Int(1)),
    ("MEMORY", Str("4G")),
    ("MODULES", Str(""))
  ]

  /** The run id f"{i:04d}". */
  function RunId(i: nat): string {
    Numerals.ZeroPad(i, 4)
  }

  /** The script's file name. */
  function FileName(i: nat): string {
    "run_" + RunId(i) + ".slurm"
  }

  /** The directory the scripts of one experiment on one cluster go to. */
  function RunsDir(project: string, cluster: string, experiment: string): string {
    "output/" + project + "/slurm_runs/runs/" + cluster + "/" + experiment
  }

  /** experiment_config.get("script", "python main.py"), when it can be joined into a command. */
  function BaseCommand(experiment: Dict<Value>): (r: Option<string>)
    ensures "script" !in Keys(experiment) ==> r == Some(DefaultScript)
    ensures "script" in Keys(experiment) ==>
      (r.Some? <==> Get(experiment, "script").value.Str?) &&
      (r.Some? ==> r.value == Get(experiment, "script").value.s)
  {
    match GetOr(experiment, "script", Str(DefaultScript))
    case Str(s) => Some(s)
    case _ => None
  }

  /** cluster_config.get(key, default): a profile value is always a string. */
  function ConfOr(cluster: Dict<string>, key: string, default: Value): Value {
    match Get(cluster, key)
    case Some(s) => Str(s)
    case None => default
  }

  /** The template mapping of run i. */
  function SlurmParams(experimentName: string, i: nat, cluster: Dict<string>, cmd: string): (r: Dict<Value>)
    ensures Keys(r) == SlurmKeys
  {
    SlurmKeysDistinct();
    seq(|SlurmKeys|, k requires 0 <= k < |SlurmKeys| =>
      if k == 0 then ("JOB_NAME", Str(experimentName + "-" + Numerals.Decimal(i)))
      else if k == |SlurmKeys| - 1 then ("CMD", Str(cmd))
      else (SlurmKeys[k], ConfOr(cluster, ClusterDefaults[k - 1].0, ClusterDefaults[k - 1].1)))
  }

  /** The ten SLURM variable names are pairwise different. */
  lemma SlurmKeysDistinct()
    ensures forall i, j :: 0 <= i < j < |SlurmKeys| ==> SlurmKeys[i] != SlurmKeys[j]
    ensures forall k :: 0 <= k < |ClusterDefaults| ==> SlurmKeys[k + 1] == ClusterDefaults[k].0
  {
    // The first two letters already tell the names apart.
    var tags := [('J','O'), ('A','C'), ('P','A'), ('T','I'), ('G','P'), ('N','U'), ('C','P'), ('M','E'), ('M','O'), ('C','M')];
    forall i | 0 <= i < |SlurmKeys| ensures |SlurmKeys[i]| >= 2 && (SlurmKeys[i][0], SlurmKeys[i][1]) == tags[i] {}
    forall i, j | 0 <= i < j < |SlurmKeys| ensures SlurmKeys[i] != SlurmKeys[j] {
      assert tags[i] != tags[j];
    }
  }

  /** The SLURM variable names hold capitals and underscores only, no brace. */
  lemma SlurmKeysBraceFree()
    ensures forall k :: 0 <= k < |SlurmKeys| ==> Template.BraceFree(SlurmKeys[k])
  {
    forall k | 0 <= k < |SlurmKeys| ensures Template.BraceFree(SlurmKeys[k]) {
      var key := SlurmKeys[k];
      forall j | 0 <= j < |key| ensures key[j] != '{' && key[j] != '}' {
        assert 'A' <= key[j] <= 'Z' || key[j] == '_';
      }
    }
  }

  /** The experiment command of run i: the base command with the grid flags of combination i. */
  function JobCommand(base: string, grid: Grid.GridConfig, i: nat): string
    requires i < Grid.GridSize(grid)
  {
    Command.CommandLine(base, Grid.CombinationAt(grid, Grid.MixedRadix(Grid.Radices(Grid.ValueLists(grid)), i)))
  }

  /** The script generate_jobs writes for run i, whose grid parameters are combination. */
  function RunJob(dir: string, experimentName: string, cluster: Dict<string>, base: string, template: string,
                  i: nat, combination: Grid.Combination): Job
  {
    Job(dir + "/" + FileName(i),
        Template.Render(template, SlurmParams(experimentName, i, cluster, Command.CommandLine(base, combination))))
  }

  /**
   * generate_jobs, with the file system given as values: whether each
   * configuration file exists, the cluster profile's lines, the parsed
   * experiment and grid configurations and the template text. The result is
   * the list of scripts to write, in run order, or the error raised first.
   */
  method GenerateJobs(project: string, clusterName: string, experimentName: string,
                      confExists: bool, confLines: seq<string>,
                      configExists: bool, gridExists: bool,
                      experiment: Dict<Value>, grid: Grid.GridConfig, template: string)
    returns (r: Result<seq<Job>, JobError>)
    ensures !confExists ==> r == Err(ClusterConfig(ClusterConf.ConfigNotFound))
    ensures confExists && ClusterConf.ParseConf(confLines).Err? ==>
      r == Err(ClusterConfig(ClusterConf.ParseConf(confLines).error))
    ensures confExists && ClusterConf.ParseConf(confLines).Ok? ==>
      if !configExists then r == Err(ExperimentConfigNotFound)
      else if !gridExists then r == Err(GridConfigNotFound)
      else if Grid.GridSize(grid) == 0 then r == Ok([])
      else if BaseCommand(experiment).None? then r == Err(ScriptNotString)
      else
        r.Ok? && |r.value| == Grid.GridSize(grid) &&
        JobsOfRuns(r.value, Grid.Combinations(grid), RunsDir(project, clusterName, experimentName), experimentName,
                   ClusterConf.ParseConf(confLines).value, BaseCommand(experiment).value, template)
  {
    var conf := ClusterConf.LoadClusterConfig(confExists, confLines);
    if conf.Err? {
      return Err(ClusterConfig(conf.error));
    }
    var cluster := conf.value;
    if !configExists {
      return Err(ExperimentConfigNotFound);
    }
    if !gridExists {
      return Err(GridConfigNotFound);
    }
    var dir := RunsDir(project, clusterName, experimentName);
    var combinations := Grid.GenerateGridCombinations(grid);
    if |combinations| == 0 {
      return Ok([]);
    }
    // The script entry is read in every iteration; it is the same each time,
    // so the first iteration already raises the error if there is one.
    match GetOr(experiment, "script", Str(DefaultScript)) {
      case Str(base) =>
        var jobs := RenderJobs(dir, experimentName, cluster, base, template, combinations);
        return Ok(jobs);
      case _ =>
        return Err(ScriptNotString);
    }
  }

  /** jobs holds, in run order, the scripts of the first |jobs| combinations. */
  predicate JobsOfRuns(jobs: seq<Job>, combinations: seq<Grid.Combination>, dir: string, experimentName: string,
                       cluster: Dict<string>, base: string, template: string)
  {
    |jobs| <= |combinations| &&
    forall n :: 0 <= n < |jobs| ==> jobs[n] == RunJob(dir, experimentName, cluster, base, template, n, combinations[n])
  }

  lemma JobsOfRunsSnoc(jobs: seq<Job>, combinations: seq<Grid.Combination>, dir: string, experimentName: string,
                       cluster: Dict<string>, base: string, template: string, script: string)
    requires JobsOfRuns(jobs, combinations, dir, experimentName, cluster, base, template) && |jobs| < |combinations|
    requires script == Template.Render(template,
      SlurmParams(experimentName, |jobs|, cluster, Command.CommandLine(base, combinations[|jobs|])))
    ensures JobsOfRuns(jobs + [Job(dir + "/" + FileName(|jobs|), script)], combinations, dir, experimentName, cluster, base, template)
  {
    var all := jobs + [Job(dir + "/" + FileName(|jobs|), script)];
    forall n | 0 <= n < |all|
      ensures all[n] == RunJob(dir, experimentName, cluster, base, template, n, combinations[n])
    {
      if n < |jobs| { assert all[n] == jobs[n]; }
    }
  }

  /** The loop of generate_jobs: build, fill in and name the script of every combination. */
  method RenderJobs(dir: string, experimentName: string, cluster: Dict<string>, base: string,
                    template: string, combinations: seq<Grid.Combination>)
    returns (jobs: seq<Job>)
    ensures |jobs| == |combinations|
    ensures JobsOfRuns(jobs, combinations, dir, experimentName, cluster, base, template)
  {
    jobs := [];
    for i := 0 to |combinations|
      invariant |jobs| == i
      invariant JobsOfRuns(jobs, combinations, dir, experimentName, cluster, base, template)
    {
      var cmd := Command.BuildCommand(base, combinations[i]);
      var params := SlurmParams(experimentName, i, cluster, cmd);
      var script := Template.RenderSlurmTemplate(template, params);
      JobsOfRunsSnoc(jobs, combinations, dir, experimentName, cluster, base, template, script);
      jobs := jobs + [Job(dir + "/" + FileName(i), script)];
    }
  }

  // ---------------------------------------------------------------------
  // Properties of the generated jobs

  /** Every profile variable takes the profile's value when present, its default otherwise. */
  lemma SlurmParamsDefaults(experimentName: string, i: nat, cluster: Dict<string>, cmd: string)
    ensures forall k :: 0 <= k < |ClusterDefaults| ==>
      Get(SlurmParams(experimentName, i, cluster, cmd), ClusterDefaults[k].0) ==
        Some(if ClusterDefaults[k].0 in Keys(cluster) then Str(Get(cluster, ClusterDefaults[k].0).value)
             else ClusterDefaults[k].1)
  {
    var r := SlurmParams(experimentName, i, cluster, cmd);
    SlurmKeysDistinct();
    forall k | 0 <= k < |ClusterDefaults|
      ensures Get(r, ClusterDefaults[k].0) ==
        Some(if ClusterDefaults[k].0 in Keys(cluster) then Str(Get(cluster, ClusterDefaults[k].0).value)
             else ClusterDefaults[k].1)
    {
      assert r[k + 1] == (ClusterDefaults[k].0, ConfOr(cluster, ClusterDefaults[k].0, ClusterDefaults[k].1));
    }
  }

  /** The job is named after the experiment and the run number, and runs the given command. */
  lemma SlurmParamsRun(experimentName: string, i: nat, cluster: Dict<string>, cmd: string)
    ensures Get(SlurmParams(experimentName, i, cluster, cmd), "JOB_NAME") == Some(Str(experimentName + "-" + Numerals.Decimal(i)))
    ensures Get(SlurmParams(experimentName, i, cluster, cmd), "CMD") == Some(Str(cmd))
  {
    var r := SlurmParams(experimentName, i, cluster, cmd);
    assert r[0] == ("JOB_NAME", Str(experimentName + "-" + Numerals.Decimal(i)));
    assert r[9] == ("CMD", Str(cmd));
  }

  /** File names of different runs differ, so no script overwrites another. */
  lemma FileNamesDistinct(i: nat, j: nat)
    requires FileName(i) == FileName(j)
    ensures i == j
  {
    var a, b := FileName(i), FileName(j);
    assert RunId(i) == a[4..|a| - 6];
    assert RunId(j) == b[4..|b| - 6];
    Numerals.ZeroPadRoundTrip(i, 4);
    Numerals.ZeroPadRoundTrip(j, 4);
  }

  /** Below 10000 runs, the file names sort in run order. */
  lemma FileNamesSorted(i: nat, j: nat)
    requires i < j < 10000
    ensures Strings.LexLess(FileName(i), FileName(j))
  {
    assert Numerals.Pow10(4) == 10000;
    Numerals.ZeroPadLength(i, 4);
    Numerals.ZeroPadLength(j, 4);
    Numerals.ZeroPadRoundTrip(i, 4);
    Numerals.ZeroPadRoundTrip(j, 4);
    Numerals.DigitOrder(RunId(i), RunId(j), ".slurm", ".slurm");
    assert FileName(i) == "run_" + (RunId(i) + ".slurm");
    assert FileName(j) == "run_" + (RunId(j) + ".slurm");
    Strings.LexLessCommonPrefix("run_", RunId(i) + ".slurm", RunId(j) + ".slurm");
  }

  /** From run 10000 on the padding no longer fixes the width: run 10000 sorts before run 9999. */
  lemma FileNamesUnsortedAt10000()
    ensures Strings.LexLess(FileName(10000), FileName(9999))
  {
    assert Numerals.Decimal(1) == "1";
    assert Numerals.Decimal(10) == "10";
    assert Numerals.Decimal(100) == "100";
    assert Numerals.Decimal(1000) == "1000";
    assert Numerals.Decimal(10000) == "10000";
    assert Numerals.Decimal(9) == "9";
    assert Numerals.Decimal(99) == "99";
    assert Numerals.Decimal(999) == "999";
    assert Numerals.Decimal(9999) == "9999";
    assert FileName(10000) == "run_" + "10000.slurm";
    assert FileName(9999) == "run_" + "9999.slurm";
    Strings.LexLessCommonPrefix("run_", "10000.slurm", "9999.slurm");
  }

  /**
   * With a template made of brace-free text and placeholders of SLURM
   * variables only, and values that render without braces, the script
   * rendered for run i (whatever its command) has no placeholder left.
   */
  lemma JobScriptComplete(experimentName: string, i: nat, cluster: Dict<string>, cmd: string, pieces: seq<Template.Piece>)
    requires Template.WellFormed(pieces)
    requires forall k :: 0 <= k < |pieces| && pieces[k].Slot? ==> pieces[k].key in SlurmKeys
    requires Template.ValuesBraceFree(SlurmParams(experimentName, i, cluster, cmd))
    ensures Template.BraceFree(Template.Render(Template.Assemble(pieces), SlurmParams(experimentName, i, cluster, cmd)))
  {
    RenderSlurmComplete(pieces, SlurmParams(experimentName, i, cluster, cmd));
  }

  lemma RenderSlurmComplete(pieces: seq<Template.Piece>, params: Dict<Value>)
    requires Template.WellFormed(pieces)
    requires forall k :: 0 <= k < |pieces| && pieces[k].Slot? ==> pieces[k].key in SlurmKeys
    requires Keys(params) == SlurmKeys && Template.ValuesBraceFree(params)
    ensures Template.BraceFree(Template.Render(Template.Assemble(pieces), params))
  {
    SlurmKeysBraceFree();
    forall k | 0 <= k < |params| ensures Template.BraceFree(params[k].0) {
      assert params[k].0 == Keys(params)[k];
    }
    Template.RenderComplete(pieces, params);
  }

  /** The grid of the usage example: lr: [0.1, 0.01], seed: [1, 2]. */
  const ExampleGrid: Grid.GridConfig := [("lr", [Str("0.1"), Str("0.01")]), ("seed", [Int(1), Int(2)])]

  /**
   * The usage example: script "train" with lr: [0.1, 0.01] and seed: [1, 2]
   * gives four runs, the first "train --lr 0.1 --seed 1" and the last
   * "train --lr 0.01 --seed 2". Only grid values reach the command.
   */
  lemma UsageExample()
    ensures Grid.GridSize(ExampleGrid) == 4
    ensures JobCommand("train", ExampleGrid, 0) == "train --lr 0.1 --seed 1"
    ensures JobCommand("train", ExampleGrid, 3) == "train --lr 0.01 --seed 2"
  {
    ExampleSize();
    ExampleFirst();
    ExampleLast();
  }

  lemma ExampleFirst()
    ensures 0 < Grid.GridSize(ExampleGrid)
    ensures JobCommand("train", ExampleGrid, 0) == "train --lr 0.1 --seed 1"
  {
    ExampleRun(0, Str("0.1"), Int(1));
    ExampleText("0.1", 1);
  }

  lemma ExampleLast()
    ensures 3 < Grid.GridSize(ExampleGrid)
    ensures JobCommand("train", ExampleGrid, 3) == "train --lr 0.01 --seed 2"
  {
    ExampleRun(3, Str("0.01"), Int(2));
    ExampleText("0.01", 2);
  }

  lemma ExampleSize()
    ensures Grid.Radices(Grid.ValueLists(ExampleGrid)) == [2, 2]
    ensures Grid.GridSize(ExampleGrid) == 4
  {
    var radices := Grid.Radices(Grid.ValueLists(ExampleGrid));
    assert radices == [2, 2];
    assert radices[1..] == [2] && radices[1..][1..] == [];
    assert Grid.Count(radices[1..]) == 2;
  }

  /** The command text of an example run, for a one-digit seed. */
  lemma ExampleText(lr: string, seed: nat)
    requires seed < 10
    ensures "train" + (" --lr " + lr) + (" --seed " + ToString(Int(seed))) ==
      "train --lr " + lr + " --seed " + [(('0' as int) + seed) as char]
  {
    assert ToString(Int(seed)) == [(('0' as int) + seed) as char];
    Strings.ConcatAssoc("train", " --lr " + lr, " --seed " + ToString(Int(seed)));
    Strings.ConcatAssoc("train", " --lr ", lr);
  }

  /** Run i of the example takes lr and seed from digits i / 2 and i % 2. */
  lemma ExampleRun(i: nat, lr: Value, seed: Value)
    requires i < 4
    requires lr == ExampleGrid[0].1[i / 2] && seed == ExampleGrid[1].1[i % 2]
    ensures i < Grid.GridSize(ExampleGrid)
    ensures JobCommand("train", ExampleGrid, i) == "train" + (" --lr " + lr.s) + (" --seed " + ToString(seed))
  {
    ExampleSize();
    var radices := Grid.Radices(Grid.ValueLists(ExampleGrid));
    assert radices[1..] == [2] && radices[1..][1..] == [];
    var m := Grid.MixedRadix(radices, i);
    assert m == [i / 2] + Grid.MixedRadix(radices[1..], i % 2);
    assert m == [i / 2, i % 2];
    assert Grid.CombinationAt(ExampleGrid, m) == [("lr", lr), ("seed", seed)];
    TwoFlags("train", "lr", lr, "seed", seed);
    assert " --" + "lr" + " " == " --lr " && " --" + "seed" + " " == " --seed ";
    assert ToString(lr) == lr.s;
  }

  /** A command with two non-boolean parameters. */
  lemma TwoFlags(base: string, k1: string, v1: Value, k2: string, v2: Value)
    requires !v1.Bool? && !v2.Bool?
    ensures Command.CommandLine(base, [(k1, v1), (k2, v2)]) ==
      base + (" --" + k1 + " " + ToString(v1)) + (" --" + k2 + " " + ToString(v2))
  {
    Command.CommandLineContributions(base, [(k1, v1), (k2, v2)]);
    ContributionsOfTwo(k1, v1, k2, v2);
    Command.ContributionValue(k1, v1);
    Command.ContributionValue(k2, v2);
    Strings.ConcatAssoc(base, Command.Contribution(k1, v1), Command.Contribution(k2, v2));
  }

  lemma ContributionsOfTwo(k1: string, v1: Value, k2: string, v2: Value)
    ensures Command.Contributions([(k1, v1), (k2, v2)]) == Command.Contribution(k1, v1) + Command.Contribution(k2, v2)
  {
    var p := [(k1, v1), (k2, v2)];
    assert p[..1] == [(k1, v1)] && p[..1][..0] == [];
    assert Command.Contributions(p[..1]) == Command.Contribution(k1, v1);
  }
}
