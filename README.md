# az-ssh-wrapper: the argument translator, modelled and proved

`az_ssh_wrapper.py` lets Ansible use `az ssh` as if it were OpenSSH. It reads an
OpenSSH-style argument vector and rewrites it as the argument vector of `az ssh`, which it
then executes. The model covers that translation, which the source does in four steps:

1. **Parse.** POSIX getopt runs over the fixed grammar. The short options are one string,
   in which a letter followed by `:` takes a value. The long options are `--arc`,
   `--subscription=`, `--resource-group=` and `--local-user=`. The first positional
   argument is then popped as the destination. A getopt error or a missing destination is
   a usage error.
2. **Partition.** The four Azure extension options are taken out. For the three valued
   ones a later occurrence overwrites an earlier one. Every other option is kept, in order.
3. **Filter and flatten.** `opt_filter` drops every `-o` option whose value starts with
   `Control`. Each remaining `(name, value)` pair contributes its non-empty parts.
4. **Assemble.** The words are built in this order:
   - the `az` path and `ssh`;
   - in arc mode, `arc` and the extension options that have non-empty values;
   - `--name destination`;
   - when anything is forwarded, `--` followed by the flattened options and the remote
     command.

The project has four modules:
- `Wrappers`: `Option`, `Result`.
- `Seqs`: Python's `filter` and `startswith`.
- `Getopt`: the scanning rules of Python's `getopt.getopt`, as pure functions over any
  grammar. Beside them are a rendering of options back into words and the round trip
  between the two.
- `AzSshWrapper`:
  - the grammar constants;
  - `Parse`;
  - the body of `main` as four imperative methods (`Partition`, `FlattenOpts`,
    `Assemble` and `Translate`, plus `Run` for the whole), each proved against a
    specification function (`StandardOpts`, `LastValue`, `Flatten`, `ExecArgs`, `Plan`).

The module `WrapperProperties` proves the promised properties against those specification
functions. It also works end to end through the two examples of the usage text
(`az_ssh_wrapper.py:48-49`), with that text's own values. The further invocations it works
through (the `Control` option, a remote command, a lone `-`, an empty destination, `-p22` and
the two long-option errors) are not in the usage text; they cite the lines of `main` they exercise.

Where the code and its comments or usage text disagree, the model follows the code:
- Option names keep their dashes. Names are compared as `-o` and `--arc`, so `('-t', '')`
  flattens to `-t`. The comment at `az_ssh_wrapper.py:98-100` shows `t`.
- The short grammar holds `f` twice: bare first, then `f:`. getopt uses the first
  occurrence, so `-f` takes no value.
- The short grammar does not hold `F`, although the usage text lists `-F configfile`. So
  `-F` is a usage error (`CapitalFIsNotRecognized`).

Two further behaviours of the code that its comments leave implicit:
- The extension options are passed on in the order subscription, resource group, local
  user.
- No-value flags such as `-t` are forwarded after the `--` separator like any other
  option.

## Model

| member | source | states |
|---|---|---|
| Seqs.StartsWith | az_ssh_wrapper.py:59 | definition of `str.startswith`: the prefix is no longer than the string and equals its first characters |
| Seqs.Filter | az_ssh_wrapper.py:97 | the result is no longer than the input and holds only accepted elements of it |
| Seqs.FilterCount | az_ssh_wrapper.py:97 | an accepted element occurs as often as in the input; a rejected one never occurs |
| Seqs.FilterAppend | az_ssh_wrapper.py:97 | filtering distributes over concatenation, so relative order is kept |
| Seqs.FilterKeepsAll | az_ssh_wrapper.py:97 | a list whose every element is accepted is returned unchanged |
| Seqs.FilterDropsAll | az_ssh_wrapper.py:97 | a list whose every element is rejected filters to nothing |
| Seqs.FilterIdempotent | az_ssh_wrapper.py:97 | filtering twice with the same test equals filtering once |
| Getopt.ShortHasArg | az_ssh_wrapper.py:63 | definition of getopt's short lookup: unknown if absent, otherwise whether the first occurrence is followed by `:`; `:` is never a flag (properties in `ShortHasArgAbsent`, `ShortHasArgFirst`) |
| Getopt.LongHasArg | az_ssh_wrapper.py:64 | definition of getopt's long lookup: an exact listing takes no value, a listing with `=` takes one, otherwise unknown (worked in `LongLookups`) |
| Getopt.ShortHasArgAbsent | az_ssh_wrapper.py:63 | a short flag is unknown exactly when it is `:` or does not occur in the grammar |
| Getopt.ShortHasArgFirst | az_ssh_wrapper.py:63 | the first occurrence of a flag decides whether it takes a value: it does exactly when `:` follows that occurrence |
| Getopt.SplitAtEquals | az_ssh_wrapper.py:64 | `--name=value` splits into a name without `=` and the rest; joined again they give the input; without `=` the name is the whole word |
| Getopt.SplitAtFirstEquals | az_ssh_wrapper.py:64 | a word without `=`, then `=`, then anything, splits at exactly that `=` |
| Getopt.DoShorts | az_ssh_wrapper.py:63-67 | scanning a short-flag cluster leaves a suffix of the arguments and yields only options of the short grammar |
| Getopt.DoLongs | az_ssh_wrapper.py:64-67 | scanning a long option leaves a suffix of the arguments and yields only options of the long list |
| Getopt.GetOpt | az_ssh_wrapper.py:67 | a successful scan leaves a suffix of the arguments and yields only recognized options |
| Getopt.ScanOne | az_ssh_wrapper.py:67 | the words of one recognized option scan back to exactly that option and nothing more |
| Getopt.ScanOneShort | az_ssh_wrapper.py:63-67 | the same for a short option: its flag, then its value word if it takes one |
| Getopt.ScanValueFlag | az_ssh_wrapper.py:63-67 | a value-taking flag at the end of its cluster takes the next word as its value |
| Getopt.ScanOneLong | az_ssh_wrapper.py:64-67 | the same for a long option: `--name`, then its value word if it takes one |
| Getopt.ScanLongValue | az_ssh_wrapper.py:64-67 | a value-taking long option takes the next word as its value |
| Getopt.ScanLongFlag | az_ssh_wrapper.py:64-67 | a long option without a value consumes nothing after its own word |
| Getopt.ScanRendered | az_ssh_wrapper.py:67 | rendered options followed by anything scan to those options in front of whatever that rest scans to |
| Getopt.PrependTwice | az_ssh_wrapper.py:67 | putting two lists of options in front of a scan result equals putting their concatenation in front |
| Getopt.ScanRoundTrip | az_ssh_wrapper.py:67 | rendered options, `--`, then positional words scan back to exactly those options and those words |
| Getopt.ScanSeparator | az_ssh_wrapper.py:67 | `--` ends the scan and is consumed |
| Getopt.ScanStopsAtPositional | az_ssh_wrapper.py:67 | a positional word (a lone `-`, the empty word, or any word not beginning with a dash) ends the scan and is left in place |
| Getopt.FlagThenPositional | az_ssh_wrapper.py:67 | a no-value flag, then a positional word (a lone `-`, the empty word, or one not beginning with a dash), gives that flag with an empty value and leaves the word |
| Getopt.ScanNoValueFlag | az_ssh_wrapper.py:63-67 | a one-flag cluster whose flag takes no value gives that flag with an empty value |
| Getopt.ScanUnknownFlag | az_ssh_wrapper.py:67 | a flag outside the grammar makes the scan fail with "not recognized", naming the flag |
| Getopt.ScanMissingValue | az_ssh_wrapper.py:67 | a value-taking flag as the last word makes the scan fail with "requires argument" |
| Getopt.ScanAttachedShort | az_ssh_wrapper.py:63-67 | a value attached to its flag (`-p22`) becomes that flag's value, and the scan goes on with the next word |
| Getopt.ScanAttachedValue | az_ssh_wrapper.py:63-67 | a cluster of a value-taking flag and the rest of its word yields that flag with the rest as its value |
| Getopt.AttachedThenPositional | az_ssh_wrapper.py:67 | a flag with an attached value, then a positional word (a lone `-`, the empty word, or one not beginning with a dash), gives that one option and leaves the word |
| Getopt.ScanCluster | az_ssh_wrapper.py:63-67 | a cluster of two no-value flags (`-tv`) gives both flags in order, each with an empty value |
| Getopt.ScanAttachedLong | az_ssh_wrapper.py:64-67 | `--name=value` gives a value-taking long option the value from the same word |
| Getopt.ScanUnknownLong | az_ssh_wrapper.py:64-67 | a long option outside the list makes the scan fail with "not recognized", naming it without any `=value` |
| Getopt.ScanMissingLongValue | az_ssh_wrapper.py:64-67 | a value-taking long option as the last word makes the scan fail with "requires argument" |
| Getopt.ScanUnwantedValue | az_ssh_wrapper.py:64-67 | `--arc=x` (a value for a long option that takes none) fails with "must not have argument" |
| AzSshWrapper.SHORT_OPTIONS | az_ssh_wrapper.py:63 | the short grammar, character for character (its lookups are proved in `LowercaseFLookup`, `LowercaseTLookup`, `LowercaseOLookup`, `LowercasePLookup`, `DashIsNoFlag`, `CapitalFIsNotRecognized`) |
| AzSshWrapper.LONG_OPTIONS | az_ssh_wrapper.py:64 | the four long names, `=` marking those that take a value (proved in `LongLookups`) |
| AzSshWrapper.Parse | az_ssh_wrapper.py:66-72 | a successful parse yields only options of the wrapper's grammar, and the destination and remote command are the trailing arguments |
| AzSshWrapper.OptFilter | az_ssh_wrapper.py:54-59 | definition of `opt_filter`: rejects `-o` with a value starting with `Control` (characterized in `OptFilterRejectsExactlyControl`) |
| AzSshWrapper.StandardOpts | az_ssh_wrapper.py:84-94 | definition of `filtered_opts`: the options that are not extension options, in order (properties in `PartitionKeepsExactlyStandard`, `PartitionKeepsOrder`) |
| AzSshWrapper.LastValue | az_ssh_wrapper.py:87-92 | definition of the value left by the partition loop's overwriting assignments: the value of the last option of that name (properties in `LastValueFindsLast`, `LastOneWins`) |
| AzSshWrapper.IsExtension | az_ssh_wrapper.py:85-93 | definition of the four names the partition loop consumes (`--arc`, `--subscription`, `--resource-group`, `--local-user`); every other option falls through to `filtered_opts` |
| AzSshWrapper.ArcMode | az_ssh_wrapper.py:85-86 | definition of `arc_mode`: `--arc` occurs at least once (property in `ArcAnywhereMeansArcMode`) |
| AzSshWrapper.LastValueFindsLast | az_ssh_wrapper.py:84-92 | the recorded value is absent exactly when no option of that name was given; otherwise it is the value of an occurrence that no later one repeats |
| AzSshWrapper.Parts | az_ssh_wrapper.py:101 | the parts kept from one option are never empty strings |
| AzSshWrapper.Truthy | az_ssh_wrapper.py:101-110 | definition of Python truthiness of a string, used for the parts kept by the flattening and for the extension values: non-empty |
| AzSshWrapper.Flatten | az_ssh_wrapper.py:96-101 | the forwarded words never include an empty string |
| AzSshWrapper.SshOpts | az_ssh_wrapper.py:96-101 | definition of `ssh_opts`: the non-empty parts of the non-extension options that pass `opt_filter` (properties in `SshOptsSplit`, `ControlOptionDropped`, `OtherOptionForwarded`, `NoValueFlagsForwardedInOrder`) |
| AzSshWrapper.ExtensionArg | az_ssh_wrapper.py:106-111 | definition of one conditional extension pair (property in `ExtensionArgPresent`) |
| AzSshWrapper.TargetArgs | az_ssh_wrapper.py:104-114 | definition of the target words in arc and non-arc mode (properties in `ArcTargetWithAllValues`, `ArcTargetWithoutValues`, `UnusableExtensionOmitted`) |
| AzSshWrapper.ForwardArgs | az_ssh_wrapper.py:116-117 | definition of the separator part: `--`, the forwarded options and the remote command, present only when one of them is non-empty (property in `ExecArgsLayout`) |
| AzSshWrapper.ExecArgs | az_ssh_wrapper.py:103-117 | definition of `exec_args` (properties in `ExecArgsLayout`, `ExtensionsIgnoredWithoutArc`, `ArcWithAllValues`, `ArcWithoutValues`) |
| AzSshWrapper.Plan | az_ssh_wrapper.py:66-117 | definition of one invocation: a usage error, or the final words (properties in `ParseCanonical` and the worked examples) |
| AzSshWrapper.Partition | az_ssh_wrapper.py:78-94 | the loop gives arc mode, the last value of each valued extension option, and all other options in order |
| AzSshWrapper.FlattenOpts | az_ssh_wrapper.py:96-101 | the loop gives the non-empty parts of every option that passes `opt_filter`, option after option |
| AzSshWrapper.AppendExtension | az_ssh_wrapper.py:106-111 | an extension flag and its value are appended only when the value was given and is non-empty |
| AzSshWrapper.Assemble | az_ssh_wrapper.py:103-117 | the assembled words are the `az` path, `ssh`, the target words, and the separator part |
| AzSshWrapper.Translate | az_ssh_wrapper.py:78-117 | the body of `main` after parsing computes exactly the specified final words |
| AzSshWrapper.Run | az_ssh_wrapper.py:66-117 | `main` gives a usage error or the final words, exactly as `Plan` defines them |
| WrapperProperties.OptFilterRejectsExactlyControl | az_ssh_wrapper.py:54-59 | `opt_filter` rejects an option if and only if it is `-o` with a value of the form `Control...` |
| WrapperProperties.OptFilterIsCaseSensitivePrefix | az_ssh_wrapper.py:59 | the filter is case-sensitive, anchored at the start and only for `-o`: `ControlMaster`/`ControlPersist` are dropped; lower case, a prefixed `XControl`, `-O` and `Contro` are kept |
| WrapperProperties.PartitionKeepsExactlyStandard | az_ssh_wrapper.py:84-94 | no extension option is kept, and every other option is kept exactly as often as it was given |
| WrapperProperties.PartitionKeepsOrder | az_ssh_wrapper.py:84-94 | the kept options are in their original relative order |
| WrapperProperties.LastOneWins | az_ssh_wrapper.py:87-92 | the value of an extension option that no later occurrence repeats is the one in effect |
| WrapperProperties.ArcAnywhereMeansArcMode | az_ssh_wrapper.py:85-86 | `--arc` anywhere, repeated or not, selects arc mode |
| WrapperProperties.PartsAreNonEmptyParts | az_ssh_wrapper.py:98-101 | one option gives its name if non-empty, then its value if non-empty |
| WrapperProperties.FlattenAppend | az_ssh_wrapper.py:96-101 | flattening keeps the order of the options |
| WrapperProperties.SshOptsSplit | az_ssh_wrapper.py:84-101 | the forwarded words split at any option into what comes before it, what it adds, and what comes after it |
| WrapperProperties.SshOptsAppend | az_ssh_wrapper.py:84-101 | the forwarded words of two runs of options are those of each, in turn |
| WrapperProperties.ControlOptionForwardsNothing | az_ssh_wrapper.py:54-59 | a `-o Control...` option forwards nothing |
| WrapperProperties.ControlOptionDropped | az_ssh_wrapper.py:54-59 | a `-o Control...` option anywhere leaves the forwarded words as if it were absent |
| WrapperProperties.OtherOptionForwarded | az_ssh_wrapper.py:94-101 | any other non-extension option is forwarded in place as its non-empty parts |
| WrapperProperties.SshOptsOne | az_ssh_wrapper.py:94-101 | a single forwarded option contributes exactly its non-empty parts |
| WrapperProperties.SshOptsPair | az_ssh_wrapper.py:96-101 | two options forward the words of the first, then those of the second |
| WrapperProperties.FlagThenControlOption | az_ssh_wrapper.py:54-59 | a no-value flag followed by `-o Control...` forwards the flag's name alone |
| WrapperProperties.FlattenNoValueOpts | az_ssh_wrapper.py:96-101 | options with empty values flatten to exactly their names, one word each, in order |
| WrapperProperties.NoValueFlagsForwardedInOrder | az_ssh_wrapper.py:96-101 | no-value flags are forwarded as one word each, their dashed names, in the order given |
| WrapperProperties.ExecArgsLayout | az_ssh_wrapper.py:103-117 | the words start with the `az` path and `ssh`; the target ends in `--name destination`; `--` follows if and only if options or a remote command are forwarded, and then exactly those follow, in order |
| WrapperProperties.LayoutOfParts | az_ssh_wrapper.py:103-117 | the same layout for any target ending in `--name destination` |
| WrapperProperties.ExtensionsIgnoredWithoutArc | az_ssh_wrapper.py:113-114 | without `--arc` the words are `az ssh --name destination` plus the separator part, and equal those of the same invocation without extension options |
| WrapperProperties.TargetWithoutArc | az_ssh_wrapper.py:113-114 | without `--arc` the target is `--name destination` alone |
| WrapperProperties.ArcWithAllValues | az_ssh_wrapper.py:104-112 | in arc mode with all three values non-empty: `arc`, then subscription, resource group, local user, then `--name destination` |
| WrapperProperties.ArcTargetOfOptions | az_ssh_wrapper.py:104-112 | the arc target words of options whose three extension values are non-empty |
| WrapperProperties.ArcTargetWithAllValues | az_ssh_wrapper.py:104-112 | the arc target words list the three values in that order |
| WrapperProperties.ArcWithoutValues | az_ssh_wrapper.py:104-112 | in arc mode with all three extension values missing or empty, the words are `az ssh arc --name destination` plus the separator part |
| WrapperProperties.ExtensionArgPresent | az_ssh_wrapper.py:106-111 | one extension option is passed on exactly when its value was given and is non-empty, and then as its flag followed by that value |
| WrapperProperties.UnusableExtensionOmitted | az_ssh_wrapper.py:104-112 | each extension option on its own: a missing or empty value contributes nothing to the arc target, whatever the other two values are |
| WrapperProperties.ArcTargetWithoutValues | az_ssh_wrapper.py:104-112 | with no usable extension value the arc target is `arc --name destination` |
| WrapperProperties.ExecWithoutArc | az_ssh_wrapper.py:103-117 | without arc mode the words are fixed by the destination, the forwarded words and the remote command |
| WrapperProperties.FlagThenDestination | az_ssh_wrapper.py:66-68 | a no-value flag, then any positional destination (a lone `-` and the empty word included), parse to that flag with an empty value and that destination |
| WrapperProperties.LowercaseFTakesNoValue | az_ssh_wrapper.py:63 | `-f` takes no value, because its first occurrence has no `:`; `-f host1` has `host1` as destination |
| WrapperProperties.LowercaseFLookup | az_ssh_wrapper.py:63 | the first `f` of the grammar is not followed by `:` |
| WrapperProperties.DashIsNoFlag | az_ssh_wrapper.py:63 | `-` is not a flag of the grammar |
| WrapperProperties.CapitalFIsNotRecognized | az_ssh_wrapper.py:63-72 | `-F` is not in the grammar, so `-F ssh_config host1` is a usage error |
| WrapperProperties.RecognizedIsRenderable | az_ssh_wrapper.py:63-64 | no recognized option of this grammar is the bare `--` |
| WrapperProperties.UnknownFlagIsUsageError | az_ssh_wrapper.py:66-72 | a flag outside the grammar, after any valid options, is a usage error naming that flag |
| WrapperProperties.MissingValueIsUsageError | az_ssh_wrapper.py:66-72 | a value-taking flag as the last word, after any valid options, is a usage error |
| WrapperProperties.UnknownLongIsUsageError | az_ssh_wrapper.py:64-72 | a long option outside the list, after any valid options, is a usage error naming it (the part before any `=`) |
| WrapperProperties.MissingLongValueIsUsageError | az_ssh_wrapper.py:64-72 | a value-taking long option as the last word, after any valid options, is a usage error |
| WrapperProperties.UnknownLongFirst | az_ssh_wrapper.py:64-72 | an unknown long option as the first word is a usage error, whatever follows it |
| WrapperProperties.MissingLongValueAlone | az_ssh_wrapper.py:64-72 | a value-taking long option alone is a usage error |
| WrapperProperties.FooIsUnknown | az_ssh_wrapper.py:64 | `foo` is listed neither bare nor with `=` |
| WrapperProperties.ExampleUnknownLong | az_ssh_wrapper.py:64-72 | `--foo host1` is a usage error naming `foo` |
| WrapperProperties.SubscriptionTakesValue | az_ssh_wrapper.py:64 | `subscription` takes a value |
| WrapperProperties.ExampleMissingSubscription | az_ssh_wrapper.py:64-72 | `--subscription` as the last word is a usage error: its value is missing |
| WrapperProperties.ParseOfScan | az_ssh_wrapper.py:67-68 | when the scan leaves words, the first is the destination and the rest the remote command |
| WrapperProperties.FlagIsNotDash | az_ssh_wrapper.py:63 | no flag of the grammar is the dash |
| WrapperProperties.MissingDestinationIsUsageError | az_ssh_wrapper.py:66-72 | options with no positional argument after them, with or without `--`, are a usage error |
| WrapperProperties.ParseCanonical | az_ssh_wrapper.py:66-117 | any successful parse has a canonical form (options, `--`, destination, command) that parses the same and executes the same words |
| WrapperProperties.ParseOptionsThenDestination | az_ssh_wrapper.py:66-68 | rendered recognized options, any positional destination (a lone `-` and the empty word included) and a remote command parse back to exactly those |
| WrapperProperties.ExampleBareHost | az_ssh_wrapper.py:48 | `az-ssh 1.2.3.4` executes `az ssh --name 1.2.3.4`, with no separator |
| WrapperProperties.LowercaseTLookup | az_ssh_wrapper.py:63 | `-t` takes no value |
| WrapperProperties.LowercaseOLookup | az_ssh_wrapper.py:63 | `-o` takes a value |
| WrapperProperties.LowercasePLookup | az_ssh_wrapper.py:63 | `-p` takes a value |
| WrapperProperties.RenderControlExample | az_ssh_wrapper.py:63 | `-t` and `-o ControlMaster=auto` are written as the words `-t -o ControlMaster=auto` |
| WrapperProperties.ControlExampleNotArc | az_ssh_wrapper.py:84-86 | `-t -o ControlMaster=auto` does not select arc mode |
| WrapperProperties.ControlExampleForwards | az_ssh_wrapper.py:54-59 | `-t -o ControlMaster=auto` forwards `-t` alone |
| WrapperProperties.ExecControlExample | az_ssh_wrapper.py:103-117 | the parsed Control example executes `az ssh --name host1 -- -t` |
| WrapperProperties.ExampleControlDropped | az_ssh_wrapper.py:54-117 | `-t -o ControlMaster=auto host1` executes `az ssh --name host1 -- -t` |
| WrapperProperties.LongLookups | az_ssh_wrapper.py:64 | `--arc` takes no value; the other three extension options take one |
| WrapperProperties.LongFlagOption | az_ssh_wrapper.py:64 | a listed long option without `=` is recognized with an empty value and written alone |
| WrapperProperties.LongValueOption | az_ssh_wrapper.py:64 | a long option listed with `=` is recognized with any value and written with it |
| WrapperProperties.RenderArcExample | az_ssh_wrapper.py:49 | the options of the arc example are recognized and are written back as its own words |
| WrapperProperties.ArcExampleValues | az_ssh_wrapper.py:84-92 | the arc example selects arc mode and takes each extension value from its option |
| WrapperProperties.ArcExampleForwardsNothing | az_ssh_wrapper.py:84-101 | the arc example forwards nothing: every option is an extension option |
| WrapperProperties.ExecArcExample | az_ssh_wrapper.py:103-117 | the parsed arc example executes `az ssh arc --subscription subid --resource-group rg --local-user admin --name server1` |
| WrapperProperties.ExampleArc | az_ssh_wrapper.py:49 | `--arc --subscription subid --resource-group rg --local-user admin server1` executes those words, with no separator |
| WrapperProperties.ExampleRemoteCommand | az_ssh_wrapper.py:66-117 | `host1 ls -la` forwards the remote command after `--`, word for word |
| WrapperProperties.ExampleLoneDash | az_ssh_wrapper.py:66-68 | a lone `-` is a positional argument, so it can be the destination |
| WrapperProperties.FlagThenLoneDash | az_ssh_wrapper.py:66-68 | `-t -` parses to the flag `-t` and the destination `-` |
| WrapperProperties.ExampleEmptyDestination | az_ssh_wrapper.py:66-117 | an empty first word is positional: it is the destination and is executed as `az ssh --name ""` |
| WrapperProperties.AttachedThenDestination | az_ssh_wrapper.py:66-68 | a value-taking flag with its value attached, then any positional destination, parse to that option and that destination |
| WrapperProperties.ExampleAttachedPort | az_ssh_wrapper.py:66-117 | `-p22 host1` executes `az ssh --name host1 -- -p 22`: the attached value is forwarded as its own word |
| WrapperProperties.AttachedPortForwards | az_ssh_wrapper.py:84-101 | the parsed `-p22` example is not in arc mode and forwards `-p` and `22` |
| WrapperProperties.AttachedPortExec | az_ssh_wrapper.py:96-117 | the parsed `-p22` example forwards `-p` and `22` after the separator |

## Left out

- `os.execvp` (`az_ssh_wrapper.py:119`): it replaces the process. The model returns
  the argument vector that would be executed.
- `shutil.which("az")` and the Windows quoting workaround (`az_ssh_wrapper.py:74-76`):
  these are environment lookups. The quoted path is the parameter `azPath`. The case
  where `which` finds nothing is not modelled.
- Printing the error and the usage text, and `sys.exit(2)` (`az_ssh_wrapper.py:13-51`,
  `70-72`): they become the `UsageError` result. The message text is not modelled.
- `sys.argv` is the parameter `argv`, already without the program name.
- Getopt.GetOpt: long names must be given in full. Python's getopt also accepts a
  unique prefix (`--sub` for `--subscription`). That is library behaviour not visible
  in the wrapper's source, so the model rejects such prefixes as not recognized, and an
  exact listing without `=` wins over one with it.
- Getopt.GetOpt: getopt's code is not part of the wrapper's source. Its scanning rules
  are modelled from its documented POSIX behaviour:
  - the scan stops at the first positional argument or a lone `-`;
  - `--` is consumed;
  - short flags may be clustered;
  - a value is attached or comes as the next word.
  Error messages are reduced to the error kind and the option.
- Option values such as `-D [bind:]port` or `-L address` are opaque strings. Their
  contents are not parsed.
