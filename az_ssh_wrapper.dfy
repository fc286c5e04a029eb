/** The argument translator of `az_ssh_wrapper.py`: it reads an OpenSSH-style argument vector
    and builds the argument vector of `az ssh` from it. `main` is modelled in four steps:
    parse (getopt, then take the destination), partition out the four Azure options, filter
    and flatten the remaining options, and assemble the final words. The final `execvp` is
    left out; the assembled words are the result. */
module AzSshWrapper {
  import opened Wrappers
  import opened Seqs
  import opened Getopt

  /** The short-option grammar of the source, character for character: `f` occurs twice (bare
      first, so `-f` takes no value) and `F` does not occur at all. The one literal of the
      source is written here in two halves, the no-value flags (23 characters) then the value
      flags, which concatenate to the same string. */
  const SHORT_OPTIONS: string := "46AaCfGgKkMNnqsTtVvXxYy" + "B:b:c:D:E:e:f:I:i:J:L:l:m:O:o:p:Q:R:S:W:w:"

  /** The four Azure extension options; a trailing `=` means the option takes a value. */
  const LONG_OPTIONS: seq<string> := ["arc", "subscription=", "resource-group=", "local-user="]

  /** Why the wrapper prints its usage text and exits with status 2. */
  datatype UsageError =
    | GetoptFailed(error: GetoptError)  // getopt rejected the arguments
    | MissingDestination                // no positional argument was left to pop

  // ---------------------------------------------------------------------------------------
  // Step 1: parse.

  /** getopt over the fixed grammar, then the destination popped from the positional
      arguments; the arguments after it are the remote command. */
  function Parse(argv: seq<string>): (r: Result<(seq<Opt>, string, seq<string>), UsageError>)
    ensures r.Success? ==> forall o :: o in r.value.0 ==> Recognized(o, SHORT_OPTIONS, LONG_OPTIONS)
    ensures r.Success? ==> IsSuffix([r.value.1] + r.value.2, argv)
  {
    match GetOpt(argv, SHORT_OPTIONS, LONG_OPTIONS)
    case Failure(e) => Failure(GetoptFailed(e))
    case Success((opts, args)) =>
      if args == [] then Failure(MissingDestination)
      else
        assert [args[0]] + args[1..] == args;
        Success((opts, args[0], args[1..]))
  }

  // ---------------------------------------------------------------------------------------
  // Step 2: partition.

  /** The four options the wrapper consumes itself and never forwards. */
  predicate IsExtension(name: string) {
    name == "--arc" || name == "--subscription" || name == "--resource-group" || name == "--local-user"
  }

  /** An option that is forwarded to `az ssh` (subject to the filter). */
  predicate IsStandard(o: Opt) {
    !IsExtension(o.name)
  }

  /** `filtered_opts`: every option except the four extension options, in order. */
  function StandardOpts(opts: seq<Opt>): seq<Opt> {
    Filter(opts, IsStandard)
  }

  /** The value of the last option called `name`, if any: a later occurrence overwrites an
      earlier one, as the assignments in the partition loop do. */
  function LastValue(opts: seq<Opt>, name: string): Option<string> {
    if opts == [] then None
    else if opts[|opts| - 1].name == name then Some(opts[|opts| - 1].value)
    else LastValue(opts[..|opts| - 1], name)
  }

  /** `LastValue` is absent exactly when no option is called `name`; otherwise it is the value
      of an occurrence of `name` that no later option repeats. */
  lemma {:induction false} LastValueFindsLast(opts: seq<Opt>, name: string)
    ensures LastValue(opts, name).None? <==> forall i :: 0 <= i < |opts| ==> opts[i].name != name
    ensures LastValue(opts, name).Some? ==>
              exists i :: 0 <= i < |opts| && opts[i] == Opt(name, LastValue(opts, name).value) &&
                          forall j :: i < j < |opts| ==> opts[j].name != name
    decreases |opts|
  {
    if opts != [] && opts[|opts| - 1].name != name {
      var init := opts[..|opts| - 1];
      LastValueFindsLast(init, name);
      assert forall i :: 0 <= i < |init| ==> init[i] == opts[i];
      if LastValue(init, name).Some? {
        var i :| 0 <= i < |init| && init[i] == Opt(name, LastValue(init, name).value) &&
                 forall j :: i < j < |init| ==> init[j].name != name;
        assert opts[i] == Opt(name, LastValue(opts, name).value);
      }
    }
  }

  /** Arc mode is on as soon as `--arc` occurs at least once. */
  predicate ArcMode(opts: seq<Opt>) {
    LastValue(opts, "--arc").Some?
  }

  // ---------------------------------------------------------------------------------------
  // Step 3: filter and flatten.

  /** `opt_filter`: keeps every option except `-o` whose value starts with `Control`
      (a case-sensitive prefix match). */
  predicate OptFilter(o: Opt) {
    !(o.name == "-o" && StartsWith(o.value, "Control"))
  }

  /** Python truthiness of a string. */
  predicate Truthy(s: string) {
    s != ""
  }

  /** The non-empty parts of one option, name first. */
  function Parts(o: Opt): (r: seq<string>)
    ensures forall t :: t in r ==> t != ""
  {
    Filter([o.name, o.value], Truthy)
  }

  /** `ssh_opts` for a list of options: the non-empty parts of each, one option after another. */
  function Flatten(opts: seq<Opt>): (r: seq<string>)
    ensures forall t :: t in r ==> t != ""
  {
    if opts == [] then [] else Flatten(opts[..|opts| - 1]) + Parts(opts[|opts| - 1])
  }

  /** The words forwarded to ssh: standard options that pass the filter, flattened. */
  function SshOpts(opts: seq<Opt>): seq<string> {
    Flatten(Filter(StandardOpts(opts), OptFilter))
  }

  // ---------------------------------------------------------------------------------------
  // Step 4: assemble.

  /** An extension option passed on to `az ssh arc`: only when it was given a non-empty value. */
  function ExtensionArg(flag: string, v: Option<string>): seq<string> {
    if v.Some? && Truthy(v.value) then [flag, v.value] else []
  }

  /** The words that say where to connect: in arc mode `arc`, those of the three extension
      options that have non-empty values, and `--name`; otherwise only `--name`. */
  function TargetArgs(arcMode: bool, subscription: Option<string>, resourceGroup: Option<string>,
                      localUser: Option<string>, destination: string): seq<string> {
    if arcMode then
      ["arc"]
      + ExtensionArg("--subscription", subscription)
      + ExtensionArg("--resource-group", resourceGroup)
      + ExtensionArg("--local-user", localUser)
      + ["--name", destination]
    else ["--name", destination]
  }

  /** The separator and what follows it, present only when something is forwarded. */
  function ForwardArgs(sshOpts: seq<string>, args: seq<string>): seq<string> {
    if sshOpts != [] || args != [] then ["--"] + sshOpts + args else []
  }

  /** `exec_args`: the whole argument vector handed to `execvp`. */
  function ExecArgs(opts: seq<Opt>, destination: string, args: seq<string>, azPath: string): seq<string> {
    [azPath, "ssh"]
    + TargetArgs(ArcMode(opts), LastValue(opts, "--subscription"), LastValue(opts, "--resource-group"),
                 LastValue(opts, "--local-user"), destination)
    + ForwardArgs(SshOpts(opts), args)
  }

  /** What one invocation does with `argv`: a usage error, or the words it executes. */
  function Plan(argv: seq<string>, azPath: string): Result<seq<string>, UsageError> {
    match Parse(argv)
    case Failure(e) => Failure(e)
    case Success((opts, destination, args)) => Success(ExecArgs(opts, destination, args, azPath))
  }

  // ---------------------------------------------------------------------------------------
  // The body of `main`, step by step.

  /** The partition loop: records arc mode and the three extension values (a later occurrence
      overwrites an earlier one) and collects every other option, in order. */
  method Partition(opts: seq<Opt>)
    returns (arcMode: bool, subscription: Option<string>, resourceGroup: Option<string>,
             localUser: Option<string>, filteredOpts: seq<Opt>)
    ensures arcMode == ArcMode(opts)
    ensures subscription == LastValue(opts, "--subscription")
    ensures resourceGroup == LastValue(opts, "--resource-group")
    ensures localUser == LastValue(opts, "--local-user")
    ensures filteredOpts == StandardOpts(opts)
  {
    arcMode, subscription, resourceGroup, localUser := false, None, None, None;
    filteredOpts := [];
    for i := 0 to |opts|
      invariant arcMode == ArcMode(opts[..i])
      invariant subscription == LastValue(opts[..i], "--subscription")
      invariant resourceGroup == LastValue(opts[..i], "--resource-group")
      invariant localUser == LastValue(opts[..i], "--local-user")
      invariant filteredOpts == StandardOpts(opts[..i])
    {
      var o := opts[i];
      assert opts[..i + 1][..i] == opts[..i];
      if o.name == "--arc" {
        arcMode := true;
      } else if o.name == "--subscription" {
        subscription := Some(o.value);
      } else if o.name == "--resource-group" {
        resourceGroup := Some(o.value);
      } else if o.name == "--local-user" {
        localUser := Some(o.value);
      } else {
        filteredOpts := filteredOpts + [o];
      }
    }
    assert opts[..|opts|] == opts;
  }

  /** The flatten loop: the non-empty parts of every option that passes `opt_filter`. */
  method FlattenOpts(filteredOpts: seq<Opt>) returns (sshOpts: seq<string>)
    ensures sshOpts == Flatten(Filter(filteredOpts, OptFilter))
  {
    sshOpts := [];
    var kept := Filter(filteredOpts, OptFilter);
    for i := 0 to |kept|
      invariant sshOpts == Flatten(kept[..i])
    {
      assert kept[..i + 1][..i] == kept[..i];
      sshOpts := sshOpts + Parts(kept[i]);
    }
    assert kept[..|kept|] == kept;
  }

  /** One extension option of the arc branch: its flag and value are appended only when the
      value was given and is non-empty. */
  method AppendExtension(words: seq<string>, flag: string, v: Option<string>) returns (r: seq<string>)
    ensures r == words + ExtensionArg(flag, v)
  {
    r := words;
    if v.Some? && Truthy(v.value) {
      r := r + [flag, v.value];
    }
  }

  /** The assembly of `exec_args` from what the two loops computed. */
  method Assemble(arcMode: bool, subscription: Option<string>, resourceGroup: Option<string>,
                  localUser: Option<string>, destination: string, sshOpts: seq<string>,
                  args: seq<string>, azPath: string)
    returns (execArgs: seq<string>)
    ensures execArgs == [azPath, "ssh"]
                        + TargetArgs(arcMode, subscription, resourceGroup, localUser, destination)
                        + ForwardArgs(sshOpts, args)
  {
    execArgs := [azPath, "ssh"];
    if arcMode {
      execArgs := execArgs + ["arc"];
      execArgs := AppendExtension(execArgs, "--subscription", subscription);
      execArgs := AppendExtension(execArgs, "--resource-group", resourceGroup);
      execArgs := AppendExtension(execArgs, "--local-user", localUser);
      execArgs := execArgs + ["--name", destination];
    } else {
      execArgs := execArgs + ["--name", destination];
    }
    ghost var head := execArgs;
    assert head == [azPath, "ssh"] + TargetArgs(arcMode, subscription, resourceGroup, localUser, destination);
    if sshOpts != [] || args != [] {
      execArgs := execArgs + ["--"] + sshOpts + args;
      assert execArgs == head + (["--"] + sshOpts + args);
    } else {
      assert execArgs == head + [];
    }
  }

  /** The body of `main` after parsing: partition, flatten, assemble. `azPath` is the already
      quoted path of the `az` executable. */
  method Translate(opts: seq<Opt>, destination: string, args: seq<string>, azPath: string)
    returns (execArgs: seq<string>)
    ensures execArgs == ExecArgs(opts, destination, args, azPath)
  {
    var arcMode, subscription, resourceGroup, localUser, filteredOpts := Partition(opts);
    var sshOpts := FlattenOpts(filteredOpts);
    execArgs := Assemble(arcMode, subscription, resourceGroup, localUser, destination, sshOpts, args, azPath);
  }

  /** `main` without its I/O: parse, report a usage error, or translate. */
  method Run(argv: seq<string>, azPath: string) returns (r: Result<seq<string>, UsageError>)
    ensures r == Plan(argv, azPath)
  {
    var parsed := GetOpt(argv, SHORT_OPTIONS, LONG_OPTIONS);
    if parsed.Failure? {
      return Failure(GetoptFailed(parsed.error));
    }
    var opts := parsed.value.0;
    var args := parsed.value.1;
    if args == [] {
      return Failure(MissingDestination);
    }
    var destination := args[0];
    args := args[1..];
    var execArgs := Translate(opts, destination, args, azPath);
    return Success(execArgs);
  }
}
