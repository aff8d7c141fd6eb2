/** The command line `runTests` of lib/Functions.js builds from the project
    configuration and its arguments. Reading the configuration file is a
    parameter; running the command in a shell is not modelled. */
module TestRunner {
  import opened Js
  import opened Schemas

  /** The configuration file's name inside the project root. */
  const ConfigPath := ".coderat.config.json"

  /** The parsed configuration; `None` is a missing property. */
  datatype Config = Config(testCommand: Option<Value>, nearestTestOption: Option<Value>)

  /** JavaScript truthiness of a property that may be missing. */
  predicate Given(v: Option<Value>) {
    v.Some? && Truthy(v.value)
  }

  /** `s.split(' ')`: the pieces between single spaces; two spaces in a
      row give an empty piece, and the empty string gives one empty piece. */
  function Split(s: string): (r: seq<string>)
    ensures |r| >= 1
    ensures forall i :: 0 <= i < |r| ==> ' ' !in r[i]
    decreases |s|
  {
    if |s| == 0 then [""]
    else
      var rest := Split(s[1..]);
      if s[0] == ' ' then [""] + rest
      else
        assert forall i :: 1 <= i < |rest| ==> ([[s[0]] + rest[0]] + rest[1..])[i] == rest[i];
        [[s[0]] + rest[0]] + rest[1..]
  }

  /** `words.join(' ')`. */
  function JoinWords(words: seq<string>): string
    decreases |words|
  {
    if |words| == 0 then ""
    else if |words| == 1 then words[0]
    else words[0] + " " + JoinWords(words[1..])
  }

  /** Splitting on spaces and joining with spaces gives the text back. */
  lemma {:induction false} JoinSplit(s: string)
    ensures JoinWords(Split(s)) == s
    decreases |s|
  {
    if |s| > 0 {
      var rest := Split(s[1..]);
      JoinSplit(s[1..]);
      if s[0] == ' ' {
        assert ([""] + rest)[1..] == rest;
      } else {
        var first := [s[0]] + rest[0];
        if |rest| == 1 {
          assert JoinWords([first]) == first;
        } else {
          assert ([first] + rest[1..])[1..] == rest[1..];
          assert JoinWords(rest) == rest[0] + " " + JoinWords(rest[1..]);
        }
      }
    }
  }

  /** Joining words without spaces and splitting gives the words back. */
  lemma {:induction false} SplitJoin(words: seq<string>)
    requires |words| >= 1
    requires forall i :: 0 <= i < |words| ==> ' ' !in words[i]
    ensures Split(JoinWords(words)) == words
    decreases |words|
  {
    if |words| == 1 {
      SplitWord(words[0]);
    } else {
      SplitJoin(words[1..]);
      SplitAfterWord(words[0], JoinWords(words[1..]));
      assert [words[0]] + words[1..] == words;
    }
  }

  lemma {:induction false} SplitWord(w: string)
    requires ' ' !in w
    ensures Split(w) == [w]
    decreases |w|
  {
    if |w| > 0 {
      assert ' ' !in w[1..] by {
        assert forall c :: c in w[1..] ==> c in w;
      }
      SplitWord(w[1..]);
      assert [w[0]] + w[1..] == w;
    }
  }

  /** A word, a space, then more text splits into the word and the rest. */
  lemma {:induction false} SplitAfterWord(w: string, t: string)
    requires ' ' !in w
    ensures Split(w + " " + t) == [w] + Split(t)
    decreases |w|
  {
    if |w| == 0 {
      assert (w + " " + t)[1..] == t;
    } else {
      assert ' ' !in w[1..] by {
        assert forall c :: c in w[1..] ==> c in w;
      }
      SplitAfterWord(w[1..], t);
      assert (w + " " + t)[1..] == w[1..] + " " + t;
      assert [w[0]] + w[1..] == w;
    }
  }

  /** Appending words keeps the joined text of the first ones as a prefix. */
  lemma {:induction false} JoinAppend(a: seq<string>, b: seq<string>)
    requires |a| >= 1 && |b| >= 1
    ensures JoinWords(a + b) == JoinWords(a) + " " + JoinWords(b)
    decreases |a|
  {
    if |a| == 1 {
      assert (a + b)[1..] == b;
    } else {
      JoinAppend(a[1..], b);
      assert (a + b)[1..] == a[1..] + b;
    }
  }

  /** `s.replace(/"/g, '\\"')`: a backslash before every double quote. */
  function EscapeQuotes(s: string): (r: string)
    ensures |r| >= |s|
    ensures forall i :: 0 <= i < |r| && r[i] == '"' ==> i > 0 && r[i - 1] == '\\'
    ensures |r| > 0 ==> r[0] != '"'
    decreases |s|
  {
    if |s| == 0 then ""
    else
      var rest := EscapeQuotes(s[1..]);
      if s[0] == '"' then "\\\"" + rest else [s[0]] + rest
  }

  /** Reading an escaped text back: a backslash followed by a double quote
      stands for the quote. */
  function UnescapeQuotes(t: string): string
    decreases |t|
  {
    if |t| == 0 then ""
    else if |t| >= 2 && t[0] == '\\' && t[1] == '"' then "\"" + UnescapeQuotes(t[2..])
    else [t[0]] + UnescapeQuotes(t[1..])
  }

  /** Escaping loses nothing: the test name is recovered from the option. */
  lemma {:induction false} UnescapeEscape(s: string)
    ensures UnescapeQuotes(EscapeQuotes(s)) == s
    decreases |s|
  {
    if |s| > 0 {
      UnescapeEscape(s[1..]);
      var rest := EscapeQuotes(s[1..]);
      if s[0] == '"' {
        assert ("\\\"" + rest)[2..] == rest;
      } else {
        assert ([s[0]] + rest)[1..] == rest;
        assert [s[0]] + s[1..] == s;
      }
    }
  }

  /** The argument `--option="name"` for a test name. */
  function NameOption(option: Value, testName: string): string {
    JsString(option) + "=\"" + EscapeQuotes(testName) + "\""
  }

  function ConfigError(property: string, path: string): Exception {
    var what := if property == "testCommand" then "test command" else "nearest test option";
    Error("No " + what + " configured. Please set the '" + property + "' property in " + path)
  }

  /** The argument list of `runTests({ fileName, testName })`, or the error
      it throws before running anything. `configFile` is the parsed file,
      `None` when it does not exist. */
  method RunTests(cwd: string, configFile: Option<Config>, args: TestParams) returns (r: Result<seq<string>, Exception>)
    ensures configFile.None? ==> r.Err? && r.error.name == ErrorName
    ensures configFile.Some? && !Given(configFile.value.testCommand) ==>
      r == Err(ConfigError("testCommand", PathJoin(cwd, ConfigPath)))
    ensures (configFile.Some? && Given(configFile.value.testCommand) && configFile.value.testCommand.value.Str?
      && Given(args.testName) && !Given(configFile.value.nearestTestOption)) ==>
      r == Err(ConfigError("nearestTestOption", PathJoin(cwd, ConfigPath)))
    // the command line is built exactly when none of the checks throws
    ensures r.Ok? <==>
      && configFile.Some? && Given(configFile.value.testCommand) && configFile.value.testCommand.value.Str?
      && (Given(args.testName) ==> Given(configFile.value.nearestTestOption) && args.testName.value.Str?)
    ensures r.Ok? ==>
      && configFile.Some? && configFile.value.testCommand.Some? && configFile.value.testCommand.value.Str?
      && var command := configFile.value.testCommand.value.s;
      && |r.value| == |Split(command)| + (if Given(args.testName) then 1 else 0) + (if Given(args.fileName) then 1 else 0)
      && r.value[..|Split(command)|] == Split(command)
      && StartsWith(JoinWords(r.value), command)
      && (Given(args.testName) ==>
            && Given(configFile.value.nearestTestOption) && args.testName.value.Str?
            && r.value[|Split(command)|] == NameOption(configFile.value.nearestTestOption.value, args.testName.value.s))
      && (Given(args.fileName) ==> r.value[|r.value| - 1] == JsString(args.fileName.value))
  {
    var projectConfigPath := PathJoin(cwd, ConfigPath);
    if configFile.None? {
      return Err(Error("ENOENT: no such file or directory, open '" + projectConfigPath + "'"));
    }
    var config := configFile.value;
    if !Given(config.testCommand) {
      return Err(ConfigError("testCommand", projectConfigPath));
    }
    if !config.testCommand.value.Str? {
      return Err(TypeError("config.testCommand.split is not a function"));
    }
    var command := config.testCommand.value.s;
    var testCommand := Split(command);
    if Given(args.testName) {
      if !Given(config.nearestTestOption) {
        return Err(ConfigError("nearestTestOption", projectConfigPath));
      }
      if !args.testName.value.Str? {
        return Err(TypeError("testName.replace is not a function"));
      }
      testCommand := testCommand + [NameOption(config.nearestTestOption.value, args.testName.value.s)];
    }
    if Given(args.fileName) {
      testCommand := testCommand + [JsString(args.fileName.value)];
    }
    PrefixKept(command, testCommand);
    r := Ok(testCommand);
  }

  /** The configured command is a prefix of the command line. */
  lemma PrefixKept(command: string, words: seq<string>)
    requires |words| >= |Split(command)| && words[..|Split(command)|] == Split(command)
    ensures StartsWith(JoinWords(words), command)
  {
    var base := Split(command);
    JoinSplit(command);
    if |words| > |base| {
      JoinAppend(base, words[|base|..]);
      assert base + words[|base|..] == words;
      assert (command + " " + JoinWords(words[|base|..]))[..|command|] == command;
    } else {
      assert words == base;
    }
  }
}
