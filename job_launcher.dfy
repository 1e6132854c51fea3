// job_launcher.py: the Hydra-driven launcher. extract_params merges the
// experiment defaults with the top-level configuration entries, build_command
// renders them as "--key=value" flags, and main names the job and its file
// after the job index.
module JobLauncher {
  import opened Outcomes
  import opened Dicts
  import opened Values
  import Strings
  import Numerals

  /** The top-level configuration keys that are Hydra's or the launcher's own, never parameters. */
  const HydraInternalKeys: set<string> := {
    "hydra",
    "_hydra_enable_legacy_struct_",
    "no_submit",
    "slurm_output_dir",
    "project",
    "cluster",
    "experiment",
    "job_index",
    "grid"
  }

  // ---------------------------------------------------------------------
  // extract_params

  /**
   * The params dict once the experiment defaults have been copied in and the
   * top-level entries cfg have been visited in order: each entry whose key is
   * not internal is assigned, overriding a default of the same name in place.
   */
  function Overlay<V>(experiment: Dict<V>, cfg: seq<(string, V)>): Dict<V>
    decreases |cfg|
  {
    if |cfg| == 0 then experiment
    else
      var init := cfg[..|cfg| - 1];
      var (key, value) := cfg[|cfg| - 1];
      if key in HydraInternalKeys then Overlay(experiment, init) else Set(Overlay(experiment, init), key, value)
  }

  /**
   * extract_params(cfg): the experiment defaults, overridden and extended by
   * every top-level entry whose key is not internal, without "script".
   * A key is looked up in the top-level entries first (unless it is internal)
   * and in the experiment defaults otherwise; the defaults keep their order
   * and new keys follow in the order of the configuration.
   */
  method ExtractParams<V>(experiment: Dict<V>, cfg: Dict<V>) returns (params: Dict<V>)
    ensures params == Remove(Overlay(experiment, cfg), "script")
    ensures Get(params, "script") == None
    ensures forall k :: k != "script" ==>
      Get(params, k) == if k in Keys(cfg) && k !in HydraInternalKeys then Get(cfg, k) else Get(experiment, k)
    ensures Keys(params) == Without(Keys(experiment) + NewKeys(Keys(experiment), cfg), "script")
  {
    var merged := Merge(experiment, cfg);
    params := Remove(merged, "script");
    ExtractedParams(experiment, cfg, params);
  }

  /** The loop of extract_params: copy the defaults, then assign every non-internal entry in order. */
  method Merge<V>(experiment: Dict<V>, cfg: seq<(string, V)>) returns (params: Dict<V>)
    ensures params == Overlay(experiment, cfg)
  {
    params := experiment;
    for i := 0 to |cfg|
      invariant params == Overlay(experiment, cfg[..i])
    {
      OverlayPrefix(experiment, cfg, i);
      if cfg[i].0 !in HydraInternalKeys {
        params := Set(params, cfg[i].0, cfg[i].1);
      }
    }
    assert cfg[..|cfg|] == cfg;
  }

  lemma OverlayPrefix<V>(experiment: Dict<V>, cfg: seq<(string, V)>, i: nat)
    requires i < |cfg|
    ensures Overlay(experiment, cfg[..i + 1]) ==
      if cfg[i].0 in HydraInternalKeys then Overlay(experiment, cfg[..i])
      else Set(Overlay(experiment, cfg[..i]), cfg[i].0, cfg[i].1)
  {
    assert cfg[..i + 1][..i] == cfg[..i];
  }

  /** What the merged dict without "script" holds, key by key, and in which order. */
  lemma ExtractedParams<V>(experiment: Dict<V>, cfg: Dict<V>, params: Dict<V>)
    requires params == Remove(Overlay(experiment, cfg), "script")
    ensures Get(params, "script") == None
    ensures forall k :: k != "script" ==>
      Get(params, k) == if k in Keys(cfg) && k !in HydraInternalKeys then Get(cfg, k) else Get(experiment, k)
    ensures Keys(params) == Without(Keys(experiment) + NewKeys(Keys(experiment), cfg), "script")
  {
    forall k | k != "script"
      ensures Get(params, k) == if k in Keys(cfg) && k !in HydraInternalKeys then Get(cfg, k) else Get(experiment, k)
    {
      OverlayGet(experiment, cfg, k);
    }
    OverlayKeys(experiment, cfg);
  }

  /** The keys of cfg, in order, that are neither internal nor already among the keys ks. */
  function NewKeys<V>(ks: seq<string>, cfg: seq<(string, V)>): (r: seq<string>)
    decreases |cfg|
  {
    if |cfg| == 0 then []
    else
      var k := cfg[|cfg| - 1].0;
      var r := NewKeys(ks, cfg[..|cfg| - 1]);
      if k in HydraInternalKeys || k in ks || k in r then r else r + [k]
  }

  lemma GetSnoc<V>(d: Dict<V>, key: string, value: V, k: string)
    requires DistinctKeys(d + [(key, value)])
    ensures Get(d + [(key, value)], k) == if k == key then Some(value) else Get(d, k)
  {
    var e: Dict<V> := d + [(key, value)];
    assert e[|d|] == (key, value);
    if k != key {
      if k in Keys(d) {
        var i := IndexOf(Keys(d), k);
        assert e[i] == d[i];
      } else {
        assert Keys(e) == Keys(d) + [key];
      }
    }
  }

  /** A key of the last entry does not occur earlier in a dict. */
  lemma LastKeyFresh<V>(cfg: Dict<V>)
    requires |cfg| > 0
    ensures cfg[|cfg| - 1].0 !in Keys(cfg[..|cfg| - 1])
  {
    var init := cfg[..|cfg| - 1];
    forall j | 0 <= j < |init| ensures Keys(init)[j] != cfg[|cfg| - 1].0 {
      assert init[j] == cfg[j];
    }
  }

  /** A lookup in a dict is a lookup in its last entry or in the entries before it. */
  lemma LastEntry<V>(cfg: Dict<V>, k: string)
    requires |cfg| > 0
    ensures var init: Dict<V> := cfg[..|cfg| - 1]; var (key, value) := cfg[|cfg| - 1];
      && (k in Keys(cfg) <==> k == key || k in Keys(init))
      && Get(cfg, k) == if k == key then Some(value) else Get(init, k)
  {
    var init: Dict<V> := cfg[..|cfg| - 1];
    var (key, value) := cfg[|cfg| - 1];
    assert cfg == init + [(key, value)];
    GetSnoc(init, key, value, k);
    assert Keys(cfg) == Keys(init) + [key];
  }

  /** A lookup after the overlay: a non-internal top-level entry wins over the default. */
  lemma {:induction false} OverlayGet<V>(experiment: Dict<V>, cfg: Dict<V>, k: string)
    ensures Get(Overlay(experiment, cfg), k) ==
      if k in Keys(cfg) && k !in HydraInternalKeys then Get(cfg, k) else Get(experiment, k)
    decreases |cfg|
  {
    if |cfg| > 0 {
      var init: Dict<V> := cfg[..|cfg| - 1];
      var (key, value) := cfg[|cfg| - 1];
      OverlayGet(experiment, init, k);
      LastEntry(cfg, k);
      var o := Overlay(experiment, init);
      assert Overlay(experiment, cfg) == if key in HydraInternalKeys then o else Set(o, key, value);
    }
  }

  /** The defaults keep their place; new keys follow in configuration order. */
  lemma {:induction false} OverlayKeys<V>(experiment: Dict<V>, cfg: Dict<V>)
    ensures Keys(Overlay(experiment, cfg)) == Keys(experiment) + NewKeys(Keys(experiment), cfg)
    decreases |cfg|
  {
    if |cfg| > 0 {
      var init: Dict<V> := cfg[..|cfg| - 1];
      var (key, value) := cfg[|cfg| - 1];
      OverlayKeys(experiment, init);
      var ks := Keys(experiment);
      var r := NewKeys(ks, init);
      if key !in HydraInternalKeys {
        assert key in Keys(Overlay(experiment, init)) <==> key in ks || key in r;
      }
    }
  }

  // ---------------------------------------------------------------------
  // build_command

  /** f"--{k}={v}": one flag, with no special case for booleans. */
  function Flag(key: string, value: Value): string {
    "--" + key + "=" + ToString(value)
  }

  /** The flags, one per parameter, in parameter order. */
  function Flags(params: seq<(string, Value)>): (r: seq<string>)
    ensures |r| == |params|
    ensures forall i :: 0 <= i < |params| ==> r[i] == Flag(params[i].0, params[i].1)
  {
    seq(|params|, i requires 0 <= i < |params| => Flag(params[i].0, params[i].1))
  }

  /** build_command(base_cmd, params): base_cmd + " " + " ".join(flags). */
  function BuildCommand(base: string, params: seq<(string, Value)>): string {
    base + " " + Strings.Join(Flags(params), " ")
  }

  /** A flag read back: the text after "--" split at its first '='. */
  function ParseFlag(flag: string): Option<(string, string)> {
    if !Strings.StartsWith(flag, "--") then None
    else
      var body := flag[2..];
      var i := Strings.FirstIndex(body, '=');
      if i == |body| then None else Some((body[..i], body[i + 1..]))
  }

  /** A flag gives back its key and the value's text, provided the key holds no '='. */
  lemma FlagRoundTrip(key: string, value: Value)
    requires '=' !in key
    ensures ParseFlag(Flag(key, value)) == Some((key, ToString(value)))
  {
    var v := ToString(value);
    var body := key + "=" + v;
    Strings.ConcatAssoc("--", key, "=");
    Strings.ConcatAssoc("--", key + "=", v);
    assert Flag(key, value) == "--" + body;
    assert Flag(key, value)[2..] == body;
    assert body[..|key|] == key && body[|key|] == '=' && body[|key| + 1..] == v;
    Strings.FirstIndexUnique(body, '=', |key|);
  }

  /**
   * Every flag of the command reads back as its parameter's key and the
   * value's text, in parameter order, as long as no key holds a '='.
   */
  lemma FlagsRoundTrip(params: seq<(string, Value)>)
    requires forall i :: 0 <= i < |params| ==> '=' !in params[i].0
    ensures |Flags(params)| == |params|
    ensures forall i :: 0 <= i < |params| ==>
      ParseFlag(Flags(params)[i]) == Some((params[i].0, ToString(params[i].1)))
  {
    forall i | 0 <= i < |params|
      ensures ParseFlag(Flags(params)[i]) == Some((params[i].0, ToString(params[i].1)))
    {
      FlagRoundTrip(params[i].0, params[i].1);
    }
  }

  /** With no parameters the command is the base command and one trailing space. */
  lemma BuildCommandEmpty(base: string)
    ensures BuildCommand(base, []) == base + " "
  {
  }

  /**
   * Split at single spaces, the command is the base command followed by
   * exactly one flag per parameter, in parameter order (or by one empty word
   * when there are no parameters), as long as no part holds a space.
   */
  lemma BuildCommandWords(base: string, params: seq<(string, Value)>)
    requires ' ' !in base
    requires forall i :: 0 <= i < |params| ==> ' ' !in params[i].0 && ' ' !in ToString(params[i].1)
    ensures Strings.Split(BuildCommand(base, params), ' ') == [base] + if |params| == 0 then [""] else Flags(params)
  {
    var flags := Flags(params);
    var words := [base] + if |params| == 0 then [""] else flags;
    forall i | 0 <= i < |words| ensures ' ' !in words[i] {
      if i > 0 && |params| > 0 {
        var (k, v) := params[i - 1];
        assert words[i] == "--" + k + "=" + ToString(v);
      }
    }
    assert words[1..] == if |params| == 0 then [""] else flags;
    assert Strings.Join(words, " ") == BuildCommand(base, params);
    Strings.SplitJoin(words, ' ');
  }

  /** Booleans get no special handling: True and False are spelled out as values. */
  lemma BuildCommandBoolean(base: string, key: string, b: bool)
    ensures BuildCommand(base, [(key, Bool(b))]) == base + " --" + key + "=" + (if b then "True" else "False")
  {
    assert Flags([(key, Bool(b))]) == [Flag(key, Bool(b))];
  }

  // ---------------------------------------------------------------------
  // main

  /** int(cfg.get("job_index", 0)) fails on a value that is not an integer. */
  datatype LaunchError = BadJobIndex

  /** The job index: 0 when absent, int() of the value otherwise (int(True) is 1). */
  function JobIndex(cfg: Dict<Value>): (r: Result<int, LaunchError>)
    ensures "job_index" !in Keys(cfg) ==> r == Ok(0)
    ensures forall n :: Get(cfg, "job_index") == Some(Int(n)) ==> r == Ok(n)
    ensures forall b :: Get(cfg, "job_index") == Some(Bool(b)) ==> r == Ok(if b then 1 else 0)
    ensures forall s :: Get(cfg, "job_index") == Some(Str(s)) ==> (r.Ok? <==> Numerals.ParseInt(s).Some?)
    ensures forall s :: Get(cfg, "job_index") == Some(Str(s)) && r.Ok? ==> r.value == Numerals.ParseInt(s).value
  {
    match GetOr(cfg, "job_index", Int(0))
    case Int(i) => Ok(i)
    case Bool(b) => Ok(if b then 1 else 0)
    case Str(s) =>
      match Numerals.ParseInt(s)
      case Some(i) => Ok(i)
      case None => Err(BadJobIndex)
  }

  /** A job index given as the text of an integer, possibly padded with white space, is that integer. */
  lemma JobIndexFromText(cfg: Dict<Value>, n: int, a: string, b: string)
    requires Strings.AllSpace(a) && Strings.AllSpace(b)
    requires Get(cfg, "job_index") == Some(Str(a + Numerals.IntToString(n) + b))
    ensures JobIndex(cfg) == Ok(n)
  {
    Numerals.ParseIntRoundTrip(n, a, b);
  }

  /** f"{project_name}-{job_index}". */
  function JobName(projectName: string, index: int): string {
    projectName + "-" + Numerals.IntToString(index)
  }

  /** f"job_{job_index}.slurm": the index as it is, without zero padding. */
  function JobFileName(index: int): string {
    "job_" + Numerals.IntToString(index) + ".slurm"
  }

  /** What main writes: the file, the job name the template receives and the command. */
  datatype JobFile = JobFile(path: string, jobName: string, cmd: string)

  /**
   * main, with the configuration given as values: cfg is the top-level
   * entries, experiment the experiment defaults, script cfg.experiment.script,
   * projectName cfg.project.general.project_name and outputDir
   * cfg.slurm_output_dir.
   */
  method Launch(cfg: Dict<Value>, experiment: Dict<Value>, script: string, projectName: string, outputDir: string)
    returns (r: Result<JobFile, LaunchError>)
    ensures JobIndex(cfg).Err? <==> r.Err?
    ensures r.Ok? ==>
      var index := JobIndex(cfg).value;
      r.value.path == outputDir + "/" + JobFileName(index) &&
      r.value.jobName == JobName(projectName, index) &&
      r.value.cmd == BuildCommand(script, Remove(Overlay(experiment, cfg), "script"))
  {
    var index := JobIndex(cfg);
    if index.Err? {
      return Err(index.error);
    }
    var params := ExtractParams(experiment, cfg);
    var cmd := BuildCommand(script, params);
    r := Ok(JobFile(outputDir + "/" + JobFileName(index.value), JobName(projectName, index.value), cmd));
  }

  /** Different job indices give different file names. */
  lemma JobFileNamesDistinct(i: int, j: int)
    requires JobFileName(i) == JobFileName(j)
    ensures i == j
  {
    var a, b := JobFileName(i), JobFileName(j);
    assert Numerals.IntToString(i) == a[4..|a| - 6];
    assert Numerals.IntToString(j) == b[4..|b| - 6];
    Numerals.IntToStringInjective(i, j);
  }

  /** Without padding, job 10 sorts before job 9. */
  lemma JobFileNamesUnpadded()
    ensures Strings.LexLess(JobFileName(10), JobFileName(9))
  {
    assert Numerals.Decimal(1) == "1";
    assert Numerals.Decimal(10) == "10";
    assert Numerals.Decimal(9) == "9";
    assert JobFileName(10) == "job_" + "10.slurm";
    assert JobFileName(9) == "job_" + "9.slurm";
    Strings.LexLessCommonPrefix("job_", "10.slurm", "9.slurm");
  }
}
