# Sweep job generation in remote-job-manager, modelled in Dafny

This project models the pure core of remote-job-manager's parameter-sweep
pipeline. That core turns an experiment's grid of parameter value lists into
an ordered list of job commands and rendered SLURM scripts. It also covers the
two smaller builders around it: the Hydra launcher's parameter merging and
flag rendering, and the docker argument builder for wandb tracking.

Modules, one per source component:

- `Outcomes`, `Values`, `Dicts`, `Strings`, `Numerals` (shared helpers):
  - `Option`/`Result` outcomes: the model's stand-ins for a `None` or default return and for a raised exception.
  - Scalar configuration values `Bool | Int | Str` and their `str()`.
  - Insertion-ordered dicts, as key/value sequences with distinct keys.
  - The `str` methods the code uses: `strip`, `startswith`, `replace`,
    `join`, `split`, and `<` on strings.
  - Decimal rendering, `f"{i:04d}"` and `int()`.
- `Grid`: `generate_grid_combinations`. `itertools.product` is defined
  recursively. Its elements are numbered by mixed-radix digits.
- `Command`: `build_command` of `experiment_generator.py`.
- `Template`: `render_slurm_template`. Placeholders are applied key by key
  using Python's left-to-right, non-overlapping `str.replace`.
- `ClusterConf`: the `KEY=VALUE` parser inside `load_cluster_config`.
- `Jobs`: `generate_jobs`. It returns the list of scripts to write, as
  (path, text) pairs, in run order.
- `JobLauncher`: `extract_params`, `build_command` and `main` of
  `job_launcher.py`.
- `Wandb`: `add_wandb_volumes`. The argument list is a class whose
  `seq<string>` field the method extends in place.

Where the design intent and the code differ, the model follows the code:

- A grid key with an empty value list yields zero combinations, not an error
  (`Grid.GridSizeZero`). `Jobs.GenerateJobs` then returns an empty job list.
- `generate_jobs` passes only the grid combination to `build_command`. The
  fixed experiment parameters never reach the command line. For the grid
  `lr: [0.1, 0.01], seed: [1, 2]` and script `train`, job 0 is
  `train --lr 0.1 --seed 1` and job 3 is `train --lr 0.01 --seed 2`, with no
  `--batch` flag (`Jobs.UsageExample`).
- On brace-free text, keys and values, unknown placeholders are left verbatim (`Template.RenderResolves`).
- The launcher's `build_command` spells booleans as `--k=True`/`--k=False`.
  With no parameters it leaves a trailing space.

## Model

| member | source | states |
|---|---|---|
| `Grid.GenerateGridCombinations` | src/remote_job_manager/experiment_generator.py:59-69 | Returns as many combinations as the product of the value-list lengths. Each combination has exactly the grid's keys, in grid order, and each value is taken from that key's list. Combination i picks the values given by the mixed-radix digits of i. |
| `Grid.ProductLength` | src/remote_job_manager/experiment_generator.py:67 | `itertools.product` over the value lists has (product of the list lengths) elements. |
| `Grid.ProductAt` | src/remote_job_manager/experiment_generator.py:67 | Element i of the product is the mixed-radix decomposition of i: the first list varies slowest, the last fastest. |
| `Grid.ProductAtRank` | src/remote_job_manager/experiment_generator.py:67 | Conversely, the tuple picking digits ds sits at position Rank(ds) of the product. |
| `Grid.MixedRadix` | src/remote_job_manager/experiment_generator.py:67 | The digits of i are each below their list's length, and Rank maps them back to i. |
| `Grid.EmptyGrid` | src/remote_job_manager/experiment_generator.py:63-69 | An empty grid yields exactly one combination, the empty one. |
| `Grid.GridSizeZero` | src/remote_job_manager/experiment_generator.py:63-69 | There are zero combinations exactly when some key's value list is empty; no error is raised. |
| `Grid.CountZero` | src/remote_job_manager/experiment_generator.py:67 | A product of radices is zero iff one radix is zero. |
| `Command.BuildCommand` | src/remote_job_manager/experiment_generator.py:71-83 | The loop's result is `" ".join` of the base command and the flag words of each parameter, in parameter order. |
| `Command.CommandLineContributions` | src/remote_job_manager/experiment_generator.py:75-83 | The command is the base command followed by each parameter's contribution, in order. True contributes ` --key`, False nothing, and any other value ` --key value`. |
| `Command.CommandLineAppend` | src/remote_job_manager/experiment_generator.py:76-82 | Adding a parameter at the end appends exactly its contribution and changes nothing before it. |
| `Command.CommandLineStartsWithBase` | src/remote_job_manager/experiment_generator.py:75-83 | The command always starts with the base command. |
| `Command.CommandLineEmpty` | src/remote_job_manager/experiment_generator.py:75-83 | With no parameters the command is exactly the base command. |
| `Template.RenderSlurmTemplate` | src/remote_job_manager/experiment_generator.py:85-92 | The loop substitutes the keys one after another, in mapping order. |
| `Template.RenderEmpty` | src/remote_job_manager/experiment_generator.py:89-92 | An empty mapping leaves the template unchanged. |
| `Template.RenderSequential` | src/remote_job_manager/experiment_generator.py:90-91 | Rendering with p followed by q is rendering with p, then rendering the result with q. |
| `Template.ReplaceFills` | src/remote_job_manager/experiment_generator.py:91 | On a template of brace-free text and placeholders, one `replace` of `{{K}}` turns exactly the placeholders of K into the value and leaves everything else alone. |
| `Template.RenderResolves` | src/remote_job_manager/experiment_generator.py:89-92 | When the template's literal text, the mapping's keys and the values' texts are all brace-free, rendering replaces each placeholder whose key is in the mapping by that key's `str(value)`. It leaves other placeholders and all literal text verbatim. Without these conditions a value can be rewritten by a later key (`Template.ValueRewrittenByLaterKey`). |
| `Template.RenderComplete` | src/remote_job_manager/experiment_generator.py:89-92 | If every placeholder's key is in the mapping, and the literal text, the keys and the values' texts are brace-free, then the output holds no brace, so no placeholder remains. |
| `Template.ValueRewrittenByLaterKey` | src/remote_job_manager/experiment_generator.py:89-92 | Replacements run key by key over the whole text, so a value that spells a later key's placeholder is filled in turn: `{{A}}` with A=`{{B}}`, B=`x` renders as `x`. |
| `Strings.ReplaceNoOccurrence` | src/remote_job_manager/experiment_generator.py:91 | `str.replace` on a text without the pattern is the identity. |
| `Strings.SplitJoin` | src/remote_job_manager/job_launcher.py:52 | Splitting a space-joined list whose parts hold no space gives the parts back. |
| `Strings.JoinSplit` | src/remote_job_manager/job_launcher.py:52 | Joining the pieces of a split gives the text back. |
| `Dicts.Set` | src/remote_job_manager/experiment_generator.py:32 | `d[k] = v`: an existing key keeps its position and a new key goes last. k then maps to v and every other key keeps its value. |
| `Dicts.Remove` | src/remote_job_manager/job_launcher.py:45 | `d.pop(k, None)`: k is gone, and every other key keeps its value and relative order. |
| `ClusterConf.ParseLineCases` | src/remote_job_manager/experiment_generator.py:29-32 | After stripping, a blank line or one starting with `#` is ignored. A line with no `=` is malformed. Keys and values come out stripped. |
| `ClusterConf.ParseLineSplit` | src/remote_job_manager/experiment_generator.py:31 | An entry splits at the first `=` of the stripped line, so the value may contain `=`. |
| `Strings.StripSlice` | src/remote_job_manager/experiment_generator.py:29 | `str.strip()` gives a slice of its input with only white space cut from either end, and no white space at either end of the result. |
| `ClusterConf.LoadClusterConfig` | src/remote_job_manager/experiment_generator.py:17-33 | A missing file is `FileNotFoundError`. Otherwise the line loop computes the parsed configuration, or stops at the first malformed line. |
| `ClusterConf.ParseConfErrorSticks` | src/remote_job_manager/experiment_generator.py:28-31 | Once a prefix of the file fails, the whole file fails with that error. |
| `ClusterConf.ParseConfErrorIff` | src/remote_job_manager/experiment_generator.py:28-33 | The file is rejected exactly when some line is neither ignored nor contains `=`. |
| `ClusterConf.ParseConfLookup` | src/remote_job_manager/experiment_generator.py:28-32 | Each key maps to the value on its last line, so a later duplicate overwrites an earlier one. |
| `ClusterConf.ParseConfStripped` | src/remote_job_manager/experiment_generator.py:32 | Every parsed key and value has no white space at either end. |
| `Jobs.GenerateJobs` | src/remote_job_manager/experiment_generator.py:94-147 | Errors come in the source's order: cluster config, then `config.yaml`, then `grid.yaml`. An empty grid product gives no jobs. A non-string script raises on the first job. Otherwise run i is the script of combination i, in run order. |
| `Jobs.RenderJobs` | src/remote_job_manager/experiment_generator.py:118-145 | Each iteration builds the command from the grid combination only, fills the SLURM mapping, renders the template and names the file `run_<i:04d>.slurm`. |
| `Jobs.BaseCommand` | src/remote_job_manager/experiment_generator.py:120 | `script` defaults to `python main.py`. A non-string script cannot be joined into the command. |
| `Jobs.SlurmParams` | src/remote_job_manager/experiment_generator.py:124-135 | The mapping has exactly the ten SLURM keys, in the source's order. |
| `Jobs.SlurmParamsDefaults` | src/remote_job_manager/experiment_generator.py:126-133 | Each profile key takes the profile's value when present and its listed default otherwise. |
| `Jobs.SlurmParamsRun` | src/remote_job_manager/experiment_generator.py:125-134 | `JOB_NAME` is `<experiment>-<i>` and `CMD` is the built command. |
| `Jobs.FileNamesDistinct` | src/remote_job_manager/experiment_generator.py:141-142 | Different runs get different file names. |
| `Jobs.FileNamesSorted` | src/remote_job_manager/experiment_generator.py:141-142 | Below 10000 runs, file names sort lexicographically in run order. |
| `Jobs.FileNamesUnsortedAt10000` | src/remote_job_manager/experiment_generator.py:141-142 | From run 10000 on, the fixed width 4 no longer keeps that order: `run_10000.slurm` sorts before `run_9999.slurm`. |
| `Jobs.JobScriptComplete` | src/remote_job_manager/experiment_generator.py:124-138 | If the template's literal text is brace-free, its placeholders are all SLURM keys and the ten values' texts are brace-free, a rendered run script holds no brace, so no placeholder remains. |
| `Jobs.UsageExample` | src/remote_job_manager/experiment_generator.py:118-121 | For `lr: [0.1, 0.01], seed: [1, 2]` there are 4 runs: run 0 is `train --lr 0.1 --seed 1` and run 3 is `train --lr 0.01 --seed 2`. |
| `Numerals.ZeroPadRoundTrip` | src/remote_job_manager/experiment_generator.py:141 | The padded run id reads back as the run number. |
| `Numerals.ZeroPadLength` | src/remote_job_manager/experiment_generator.py:141 | Below 10^width, the padded id is exactly width digits long. |
| `Numerals.DigitOrder` | src/remote_job_manager/experiment_generator.py:141-142 | For digit strings of equal length, string order agrees with numeric order. |
| `JobLauncher.ExtractParams` | src/remote_job_manager/job_launcher.py:33-46 | `script` is never returned. A non-internal top-level key overrides or extends the experiment defaults. Internal top-level keys are not copied, but defaults with internal names survive. Defaults keep their order and new keys follow in configuration order. |
| `JobLauncher.Merge` | src/remote_job_manager/job_launcher.py:38-43 | The copy-then-assign loop computes the overlay: defaults first, then each non-internal top-level entry assigned in configuration order. |
| `JobLauncher.ExtractedParams` | src/remote_job_manager/job_launcher.py:38-45 | Describes the merged dict without `script`, key by key, and its key order. |
| `JobLauncher.OverlayGet` | src/remote_job_manager/job_launcher.py:38-43 | After the merge, a key's value comes from the top-level entries if it is there and not internal, else from the experiment defaults. |
| `JobLauncher.OverlayKeys` | src/remote_job_manager/job_launcher.py:38-43 | After the merge, the keys are the defaults' keys followed by the new non-internal top-level keys, in order. |
| `JobLauncher.FlagsRoundTrip` | src/remote_job_manager/job_launcher.py:51 | There is one flag per parameter, and flag i reads back, split at its first `=`, as parameter i's key and `str(value)`, provided no key holds a `=`. |
| `JobLauncher.FlagRoundTrip` | src/remote_job_manager/job_launcher.py:51 | A flag reads back as its key and value text when the key has no `=`. |
| `JobLauncher.BuildCommandEmpty` | src/remote_job_manager/job_launcher.py:52 | With no parameters the command is the base command followed by one space. |
| `JobLauncher.BuildCommandWords` | src/remote_job_manager/job_launcher.py:49-52 | Split at spaces, the command is the base command followed by the flags, or by one empty word when there are no parameters. |
| `JobLauncher.BuildCommandBoolean` | src/remote_job_manager/job_launcher.py:51 | A boolean gets no special handling: it renders as `--k=True` or `--k=False`. |
| `JobLauncher.JobIndex` | src/remote_job_manager/job_launcher.py:64 | `job_index` defaults to 0, an integer is taken as is, `True`/`False` give 1/0, and a string gives the value `int()` reads from it, or is rejected exactly when `int()` rejects it. |
| `JobLauncher.JobIndexFromText` | src/remote_job_manager/job_launcher.py:64 | A `job_index` that is the text of an integer n, with any white space around it, gives index n. |
| `Numerals.ParseIntRoundTrip` | src/remote_job_manager/job_launcher.py:64 | `int()` reads `str(n)` back as n for every integer, also with white space on either side. |
| `JobLauncher.Launch` | src/remote_job_manager/job_launcher.py:58-88 | An unreadable index is an error. Otherwise the file is `job_<index>.slurm` in the output directory, the job name is `<project>-<index>`, and the command is built from the extracted parameters. |
| `JobLauncher.JobFileNamesDistinct` | src/remote_job_manager/job_launcher.py:85 | Different job indices give different file names. |
| `JobLauncher.JobFileNamesUnpadded` | src/remote_job_manager/job_launcher.py:85 | Without padding, `job_10.slurm` sorts before `job_9.slurm`. |
| `Numerals.IntToStringInjective` | src/remote_job_manager/job_launcher.py:85 | Different integers print differently. |
| `Wandb.AddWandbVolumes` | src/remote_job_manager/wandb_utils.py:3-15 | The method returns the same list object it was given. Its new contents are the old ones followed by the tracking arguments, so nothing before the old end changes. |
| `Wandb.NoModeNoArgs` | src/remote_job_manager/wandb_utils.py:4-15 | An empty mode appends nothing. |
| `Wandb.ModeFirst` | src/remote_job_manager/wandb_utils.py:4-5 | A non-empty mode first appends `-e`, `WANDB_MODE=<mode>`. |
| `Wandb.OfflineTwoArgs` | src/remote_job_manager/wandb_utils.py:4-6 | A non-empty mode other than `online` appends exactly those two arguments. |
| `Wandb.OnlineArgs` | src/remote_job_manager/wandb_utils.py:6-13 | In `online` mode, after the env pair come the settings volume (only if it exists), then the netrc volume (only if it exists). That makes 2, 4 or 6 arguments. |

## Left out

- File and directory I/O is left out. This covers reading the `.conf` file, `config.yaml`, `grid.yaml` and the template, `ensure_slurm_runs_dirs`, `mkdir`, writing the scripts, and the progress messages. Files become inputs: existence flags, the `.conf` file's lines, and the parsed dicts and template text. `generate_jobs` returns the (path, text) pairs it would write.
- How a file is split into lines is not modelled; the `.conf` parser receives the lines.
- YAML and OmegaConf decoding are out. Values are scalars `Bool | Int | Str`. A float is represented by the text Python prints for it, and Python's float formatting is not reproduced. Nested lists and dicts as parameter values are not modelled.
- `Numerals.ParseInt`: accepts an optional sign and ASCII digits around white space. It does not accept the digit-group underscores or non-ASCII digits that Python's `int()` allows.
- `JobLauncher.Launch`: the Jinja2 template loading and rendering, the Hydra entry point and `OmegaConf.set_struct` are not modelled. The cluster's `slurm` fields passed to the template are not modelled either. `Launch` returns the path, job name and command the template receives, not the rendered text. `cfg.experiment.script`, the project name and the output directory are inputs; a missing `script` is not modelled. The top-level entries are given as an ordered dict of scalars.
- `JobLauncher.JobIndex`: a float `job_index` is not modelled as a number. Python's `int(2.0)` is 2, but the model carries a float as its printed text, which `int()` on a string rejects, so the model returns `BadJobIndex`.
- `Jobs.RunsDir`, `Jobs.FileName` and `JobLauncher.Launch`: paths are joined as plain text with `/`. pathlib's `/` differs: it drops empty parts and trailing slashes, and an absolute part replaces what comes before it. For example, with `slurm_output_dir` set to `out/`, Python writes `out/job_0.slurm` but the model gives `out//job_0.slurm`.
- `Grid.GenerateGridCombinations`: every grid entry is a list of scalars. A scalar entry such as `lr: 0.1` makes `product(*values)` raise `TypeError`, and a string entry such as `lr: "ab"` is iterated character by character into the runs `a` and `b`. Neither case is modelled.
- `Wandb.AddWandbVolumes`: `Path.home()` and the two `exists()` checks are inputs. The home path is assumed to have no trailing slash. A `None` mode is treated like the empty string, since both are falsy.
- `remote.py`, `web_utils.py`, `docker_utils.py`, `singularity_utils.py`, `permissions.py`, `cli.py`, `utils.py` and `config.py` are not part of this model. They are subprocess, network and filesystem plumbing.
