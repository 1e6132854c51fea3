// wandb_utils.py: add_wandb_volumes extends a docker run argument list in
// place with the experiment-tracking environment variable and, in online
// mode, with volumes for the user's wandb settings and credentials. The home
// directory and whether the two files exist are given as inputs.
module Wandb {
  import Strings

  /** A Python list of docker run arguments, changed in place by its holders. */
  class ArgList {
    var items: seq<string>

    constructor (items: seq<string>)
      ensures this.items == items
    {
      this.items := items;
    }
  }

  /** Path.home() / ".config" / "wandb" as text. */
  function ConfigDir(home: string): string {
    home + "/.config/wandb"
  }

  /** Path.home() / ".netrc" as text. */
  function NetrcFile(home: string): string {
    home + "/.netrc"
  }

  /** The arguments add_wandb_volumes appends, in order. */
  function WandbArgs(mode: string, home: string, configExists: bool, netrcExists: bool): seq<string> {
    if mode == "" then []
    else
      ["-e", "WANDB_MODE=" + mode] +
      (if mode == "online" && configExists then ["-v", ConfigDir(home) + ":/root/.config/wandb"] else []) +
      (if mode == "online" && netrcExists then ["-v", NetrcFile(home) + ":/root/.netrc"] else [])
  }

  /**
   * add_wandb_volumes(docker_run_cmd, wandb_mode): extends the given list and
   * returns that same list; what was in it before stays as it was.
   */
  method AddWandbVolumes(cmd: ArgList, mode: string, home: string, configExists: bool, netrcExists: bool)
    returns (r: ArgList)
    modifies cmd
    ensures r == cmd
    ensures cmd.items == old(cmd.items) + WandbArgs(mode, home, configExists, netrcExists)
    ensures cmd.items[..|old(cmd.items)|] == old(cmd.items)
  {
    if mode != "" {
      cmd.items := cmd.items + ["-e", "WANDB_MODE=" + mode];
      if mode == "online" {
        if configExists {
          cmd.items := cmd.items + ["-v", ConfigDir(home) + ":/root/.config/wandb"];
        }
        if netrcExists {
          cmd.items := cmd.items + ["-v", NetrcFile(home) + ":/root/.netrc"];
        }
      }
    }
    r := cmd;
  }

  // ---------------------------------------------------------------------
  // What is appended

  /** The three parts of a concatenation are its slices. */
  lemma ThreeParts(a: seq<string>, b: seq<string>, c: seq<string>)
    ensures (a + b + c)[..|a|] == a
    ensures (a + b + c)[|a|..|a| + |b|] == b
    ensures (a + b + c)[|a + b|..] == c
  {
  }

  /** An empty (falsy) mode appends nothing: the list comes back unchanged. */
  lemma NoModeNoArgs(home: string, configExists: bool, netrcExists: bool)
    ensures WandbArgs("", home, configExists, netrcExists) == []
  {
  }

  /** Any other mode starts with the environment pair "-e", "WANDB_MODE=<mode>". */
  lemma ModeFirst(mode: string, home: string, configExists: bool, netrcExists: bool)
    requires mode != ""
    ensures |WandbArgs(mode, home, configExists, netrcExists)| >= 2
    ensures WandbArgs(mode, home, configExists, netrcExists)[..2] == ["-e", "WANDB_MODE=" + mode]
  {
  }

  /** Outside online mode only the environment pair is appended. */
  lemma OfflineTwoArgs(mode: string, home: string, configExists: bool, netrcExists: bool)
    requires mode != "" && mode != "online"
    ensures WandbArgs(mode, home, configExists, netrcExists) == ["-e", "WANDB_MODE=" + mode]
  {
  }

  /**
   * In online mode the settings volume follows the environment pair exactly
   * when the settings exist, and the credentials volume comes last exactly
   * when they exist: 2, 4 or 6 arguments.
   */
  lemma OnlineArgs(home: string, configExists: bool, netrcExists: bool)
    ensures var args := WandbArgs("online", home, configExists, netrcExists);
      && |args| == 2 + (if configExists then 2 else 0) + (if netrcExists then 2 else 0)
      && args[..2] == ["-e", "WANDB_MODE=online"]
      && (configExists ==> args[2..4] == ["-v", home + "/.config/wandb:/root/.config/wandb"])
      && (netrcExists ==> args[|args| - 2..] == ["-v", home + "/.netrc:/root/.netrc"])
      && (!configExists && !netrcExists ==> |args| == 2)
  {
    var env := ["-e", "WANDB_MODE=online"];
    var config := if configExists then ["-v", home + "/.config/wandb:/root/.config/wandb"] else [];
    var netrc := if netrcExists then ["-v", home + "/.netrc:/root/.netrc"] else [];
    assert "WANDB_MODE=" + "online" == "WANDB_MODE=online";
    assert "/.config/wandb" + ":/root/.config/wandb" == "/.config/wandb:/root/.config/wandb";
    assert "/.netrc" + ":/root/.netrc" == "/.netrc:/root/.netrc";
    Strings.ConcatAssoc(home, "/.config/wandb", ":/root/.config/wandb");
    Strings.ConcatAssoc(home, "/.netrc", ":/root/.netrc");
    assert WandbArgs("online", home, configExists, netrcExists) == env + config + netrc;
    ThreeParts(env, config, netrc);
  }
}
