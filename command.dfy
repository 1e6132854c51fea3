// build_command in experiment_generator.py: a base command followed by one
// long-form flag per parameter, with booleans rendered as bare switches.
module Command {
  import opened Dicts
  import opened Values
  import Strings

  /** The words that one parameter adds to cmd_parts. */
  function FlagParts(key: string, value: Value): seq<string> {
    match value
    case Bool(b) => if b then ["--" + key] else []
    case _ => ["--" + key + " " + ToString(value)]
  }

  /** The words that all parameters add, in iteration order. */
  function AllFlagParts(params: seq<(string, Value)>): seq<string>
    decreases |params|
  {
    if |params| == 0 then []
    else AllFlagParts(params[..|params| - 1]) + FlagParts(params[|params| - 1].0, params[|params| - 1].1)
  }

  /** " ".join([base] + flags): the command build_command returns. */
  function CommandLine(base: string, params: seq<(string, Value)>): string {
    Strings.Join([base] + AllFlagParts(params), " ")
  }

  /** build_command(base_command, params). */
  method BuildCommand(base: string, params: Dict<Value>) returns (cmd: string)
    ensures cmd == CommandLine(base, params)
  {
    var parts := [base];
    for i := 0 to |params|
      invariant parts == [base] + AllFlagParts(params[..i])
    {
      var (key, value) := params[i];
      assert params[..i + 1][..i] == params[..i];
      if value.Bool? {
        if value.b {
          parts := parts + ["--" + key];
        }
      } else {
        parts := parts + ["--" + key + " " + ToString(value)];
      }
    }
    assert params[..|params|] == params;
    cmd := Strings.Join(parts, " ");
  }

  // ---------------------------------------------------------------------
  // What each parameter adds to the command text

  /**
   * The text one parameter appends: " --key" for True, nothing for False,
   * " --key value" for any other value.
   */
  function Contribution(key: string, value: Value): string {
    if value == Bool(true) then " --" + key
    else if value == Bool(false) then ""
    else " --" + key + " " + ToString(value)
  }

  /** A parameter that is not a boolean contributes " --key value". */
  lemma ContributionValue(key: string, value: Value)
    requires !value.Bool?
    ensures Contribution(key, value) == " --" + key + " " + ToString(value)
  {
  }

  function Contributions(params: seq<(string, Value)>): string
    decreases |params|
  {
    if |params| == 0 then ""
    else Contributions(params[..|params| - 1]) + Contribution(params[|params| - 1].0, params[|params| - 1].1)
  }

  /**
   * The command is the base followed by each parameter's contribution, in
   * parameter order, with single spaces between the parts.
   */
  lemma {:induction false} CommandLineContributions(base: string, params: seq<(string, Value)>)
    ensures CommandLine(base, params) == base + Contributions(params)
    decreases |params|
  {
    if |params| > 0 {
      var init := params[..|params| - 1];
      var (k, v) := params[|params| - 1];
      CommandLineContributions(base, init);
      var parts := [base] + AllFlagParts(init);
      if v == Bool(false) {
        assert [base] + AllFlagParts(params) == parts;
      } else {
        var word := FlagParts(k, v)[0];
        assert [base] + AllFlagParts(params) == parts + [word];
        Strings.JoinSnoc(parts, word, " ");
        SpaceWord(k, v);
        Strings.ConcatAssoc(base + Contributions(init), " ", word);
        Strings.ConcatAssoc(base, Contributions(init), " " + word);
      }
    } else {
      assert [base] + AllFlagParts(params) == [base];
    }
  }

  /** A contribution is a space followed by the word the parameter adds. */
  lemma SpaceWord(key: string, value: Value)
    requires value != Bool(false)
    ensures |FlagParts(key, value)| == 1 && Contribution(key, value) == " " + FlagParts(key, value)[0]
  {
    assert " " + "--" == " --";
    Strings.ConcatAssoc(" ", "--", key);
    if !value.Bool? {
      var w := "--" + key;
      Strings.ConcatAssoc(" ", w, " ");
      Strings.ConcatAssoc(" ", w + " ", ToString(value));
    }
  }

  /** Appending a parameter appends exactly its contribution. */
  lemma CommandLineAppend(base: string, params: seq<(string, Value)>, key: string, value: Value)
    ensures CommandLine(base, params + [(key, value)]) == CommandLine(base, params) + Contribution(key, value)
  {
    ContributionsSnoc(params, key, value);
    CommandLineContributions(base, params + [(key, value)]);
    CommandLineContributions(base, params);
    Strings.ConcatAssoc(base, Contributions(params), Contribution(key, value));
  }

  lemma ContributionsSnoc(params: seq<(string, Value)>, key: string, value: Value)
    ensures Contributions(params + [(key, value)]) == Contributions(params) + Contribution(key, value)
  {
    var p := params + [(key, value)];
    assert p[..|p| - 1] == params && p[|p| - 1] == (key, value);
  }

  /** With no parameters the command is the base command itself. */
  lemma CommandLineEmpty(base: string)
    ensures CommandLine(base, []) == base
  {
  }

  /** The command always starts with the base command. */
  lemma CommandLineStartsWithBase(base: string, params: seq<(string, Value)>)
    ensures Strings.StartsWith(CommandLine(base, params), base)
  {
    CommandLineContributions(base, params);
    assert (base + Contributions(params))[..|base|] == base;
  }
}
