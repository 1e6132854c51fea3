// load_cluster_config: the KEY=VALUE .conf format of a cluster profile.
module ClusterConf {
  import opened Outcomes
  import opened Dicts
  import Strings

  /** FileNotFoundError for a missing file; ValueError for a line without '='. */
  datatype ConfError = ConfigNotFound | MissingSeparator

  /** What the loop makes of one line. */
  datatype Line = Ignored | Entry(key: string, value: string) | Malformed

  /**
   * One line: after stripping, an empty line or one starting with '#' is
   * ignored; any other line splits at its first '=' into a stripped key and
   * a stripped value (which may itself contain '='); without '=' it is an error.
   */
  function ParseLine(line: string): Line {
    var s := Strings.Strip(line);
    if s == "" || s[0] == '#' then Ignored
    else
      var i := Strings.FirstIndex(s, '=');
      if i == |s| then Malformed
      else Entry(Strings.Strip(s[..i]), Strings.Strip(s[i + 1..]))
  }

  /** Which lines are ignored and which are malformed; keys and values come out stripped. */
  lemma ParseLineCases(line: string)
    ensures ParseLine(line).Ignored? <==> (Strings.Strip(line) == "" || Strings.Strip(line)[0] == '#')
    ensures ParseLine(line).Malformed? <==> !ParseLine(line).Ignored? && '=' !in Strings.Strip(line)
    ensures ParseLine(line).Entry? ==>
      Strings.Strip(ParseLine(line).key) == ParseLine(line).key &&
      Strings.Strip(ParseLine(line).value) == ParseLine(line).value
  {
    var s := Strings.Strip(line);
    if s != "" && s[0] != '#' {
      var i := Strings.FirstIndex(s, '=');
      if i == |s| {
        assert s[..i] == s;
      } else {
        StripIdempotent(s[..i]);
        StripIdempotent(s[i + 1..]);
      }
    }
  }

  /** An entry line is split at its first '=': the value may itself contain '='. */
  lemma ParseLineSplit(line: string, i: nat)
    requires ParseLine(line).Entry?
    requires i < |Strings.Strip(line)| && Strings.Strip(line)[i] == '=' && '=' !in Strings.Strip(line)[..i]
    ensures ParseLine(line).key == Strings.Strip(Strings.Strip(line)[..i])
    ensures ParseLine(line).value == Strings.Strip(Strings.Strip(line)[i + 1..])
  {
    Strings.FirstIndexUnique(Strings.Strip(line), '=', i);
  }

  /** The loop's state after one more line: the dict so far, or the error raised. */
  function Step(acc: Result<Dict<string>, ConfError>, line: Line): Result<Dict<string>, ConfError> {
    match acc
    case Err(_) => acc
    case Ok(d) =>
      match line
      case Ignored => acc
      case Malformed => Err(MissingSeparator)
      case Entry(k, v) => Ok(Set(d, k, v))
  }

  /** The dict built from the lines, or the error the first bad line raises. */
  function ParseConf(lines: seq<string>): Result<Dict<string>, ConfError>
    decreases |lines|
  {
    if |lines| == 0 then Ok([])
    else Step(ParseConf(lines[..|lines| - 1]), ParseLine(lines[|lines| - 1]))
  }

  /** load_cluster_config, given whether the file exists and its lines. */
  method LoadClusterConfig(fileExists: bool, lines: seq<string>) returns (r: Result<Dict<string>, ConfError>)
    ensures !fileExists ==> r == Err(ConfigNotFound)
    ensures fileExists ==> r == ParseConf(lines)
  {
    if !fileExists {
      return Err(ConfigNotFound);
    }
    var config: Dict<string> := [];
    for n := 0 to |lines|
      invariant ParseConf(lines[..n]) == Ok(config)
    {
      ParseConfPrefix(lines, n);
      match ParseLine(lines[n])
      case Ignored =>
      case Malformed =>
        ParseConfErrorSticks(lines, n + 1);
        return Err(MissingSeparator);
      case Entry(k, v) =>
        config := Set(config, k, v);
    }
    assert lines[..|lines|] == lines;
    r := Ok(config);
  }

  // ---------------------------------------------------------------------
  // What the parsed dict holds

  lemma ParseConfPrefix(lines: seq<string>, n: nat)
    requires n < |lines|
    ensures ParseConf(lines[..n + 1]) == Step(ParseConf(lines[..n]), ParseLine(lines[n]))
  {
    assert lines[..n + 1][..n] == lines[..n];
  }

  /** Once a prefix of the file fails, the whole file fails. */
  lemma {:induction false} ParseConfErrorSticks(lines: seq<string>, n: nat)
    requires n <= |lines| && ParseConf(lines[..n]).Err?
    ensures ParseConf(lines) == ParseConf(lines[..n])
    decreases |lines| - n
  {
    if n < |lines| {
      ParseConfPrefix(lines, n);
      ParseConfErrorSticks(lines, n + 1);
    } else {
      assert lines[..n] == lines;
    }
  }

  lemma ParseConfErrStep(lines: seq<string>)
    requires |lines| > 0
    ensures ParseConf(lines).Err? <==>
      ParseConf(lines[..|lines| - 1]).Err? || ParseLine(lines[|lines| - 1]).Malformed?
  {
  }

  /** Some line is neither ignored nor holds '='. */
  predicate HasMalformed(lines: seq<string>)
    decreases |lines|
  {
    |lines| > 0 && (HasMalformed(lines[..|lines| - 1]) || ParseLine(lines[|lines| - 1]).Malformed?)
  }

  /** A malformed line anywhere in the file makes the file malformed. */
  lemma {:induction false} HasMalformedAt(lines: seq<string>, i: nat)
    requires i < |lines| && ParseLine(lines[i]).Malformed?
    ensures HasMalformed(lines)
    decreases |lines|
  {
    if i < |lines| - 1 {
      assert lines[..|lines| - 1][i] == lines[i];
      HasMalformedAt(lines[..|lines| - 1], i);
    }
  }

  /** A malformed file names a malformed line. */
  lemma {:induction false} HasMalformedWitness(lines: seq<string>)
    requires HasMalformed(lines)
    ensures exists i :: 0 <= i < |lines| && ParseLine(lines[i]).Malformed?
    decreases |lines|
  {
    if !ParseLine(lines[|lines| - 1]).Malformed? {
      var init := lines[..|lines| - 1];
      HasMalformedWitness(init);
      var i :| 0 <= i < |init| && ParseLine(init[i]).Malformed?;
      assert lines[i] == init[i];
    }
  }

  /** The file is rejected exactly when some line is neither ignored nor holds '='. */
  lemma {:induction false} ParseConfErrorIff(lines: seq<string>)
    ensures ParseConf(lines).Err? <==> HasMalformed(lines)
    decreases |lines|
  {
    if |lines| > 0 {
      ParseConfErrStep(lines);
      ParseConfErrorIff(lines[..|lines| - 1]);
    }
  }

  /** The value of the last line that sets key, if any: the reference meaning of the file. */
  function LastValue(lines: seq<string>, key: string): Option<string>
    decreases |lines|
  {
    if |lines| == 0 then None
    else
      match ParseLine(lines[|lines| - 1])
      case Entry(k, v) => if k == key then Some(v) else LastValue(lines[..|lines| - 1], key)
      case _ => LastValue(lines[..|lines| - 1], key)
  }

  /** Each key maps to the value of its last line: a later duplicate overwrites an earlier one. */
  lemma {:induction false} ParseConfLookup(lines: seq<string>, key: string)
    requires ParseConf(lines).Ok?
    ensures Get(ParseConf(lines).value, key) == LastValue(lines, key)
    decreases |lines|
  {
    if |lines| > 0 {
      ParseConfLookup(lines[..|lines| - 1], key);
    }
  }

  lemma {:induction false} LastValueStripped(lines: seq<string>, key: string)
    requires LastValue(lines, key).Some?
    ensures Strings.Strip(key) == key && Strings.Strip(LastValue(lines, key).value) == LastValue(lines, key).value
    decreases |lines|
  {
    ParseLineCases(lines[|lines| - 1]);
    match ParseLine(lines[|lines| - 1])
    case Entry(k, v) =>
      if k != key { LastValueStripped(lines[..|lines| - 1], key); }
    case _ =>
      LastValueStripped(lines[..|lines| - 1], key);
  }

  /** Keys and values come out stripped: no white space at either end. */
  lemma ParseConfStripped(lines: seq<string>)
    requires ParseConf(lines).Ok?
    ensures forall k :: k in Keys(ParseConf(lines).value) ==>
      Strings.Strip(k) == k &&
      Strings.Strip(Get(ParseConf(lines).value, k).value) == Get(ParseConf(lines).value, k).value
  {
    forall k | k in Keys(ParseConf(lines).value)
      ensures Strings.Strip(k) == k
      ensures Strings.Strip(Get(ParseConf(lines).value, k).value) == Get(ParseConf(lines).value, k).value
    {
      ParseConfLookup(lines, k);
      LastValueStripped(lines, k);
    }
  }

  /** A string without white space at either end is its own strip. */
  lemma StripTrimmed(s: string)
    requires s == [] || (!Strings.IsSpace(s[0]) && !Strings.IsSpace(s[|s| - 1]))
    ensures Strings.Strip(s) == s
  {
  }

  lemma StripIdempotent(s: string)
    ensures Strings.Strip(Strings.Strip(s)) == Strings.Strip(s)
  {
    StripTrimmed(Strings.Strip(s));
  }
}
