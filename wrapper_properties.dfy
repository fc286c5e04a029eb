/** What the translator promises, proved about the model in module AzSshWrapper: the filter
    rule, the partition, flattening, the layout of the final words and the usage errors; then
    the two examples of the wrapper's usage text and further worked invocations. */
module WrapperProperties {
  import opened Wrappers
  import opened Seqs
  import opened Getopt
  import opened AzSshWrapper

  // ---------------------------------------------------------------------------------------
  // The filter rule.

  /** `opt_filter` rejects an option exactly when it is `-o` with a value that begins with
      `Control`. */
  lemma OptFilterRejectsExactlyControl(o: Opt)
    ensures !OptFilter(o) <==> o.name == "-o" && exists rest :: o.value == "Control" + rest
  {
    if o.name == "-o" && StartsWith(o.value, "Control") {
      var rest := o.value[7..];
      assert o.value == o.value[..7] + rest;
    }
    if o.name == "-o" && exists rest :: o.value == "Control" + rest {
      var rest :| o.value == "Control" + rest;
      assert o.value[..7] == "Control";
    }
  }

  /** The match is case-sensitive, anchored at the start, and only on `-o`. */
  lemma OptFilterIsCaseSensitivePrefix()
    ensures !OptFilter(Opt("-o", "ControlMaster=auto"))
    ensures !OptFilter(Opt("-o", "ControlPersist=60"))
    ensures OptFilter(Opt("-o", "controlmaster=auto"))
    ensures OptFilter(Opt("-o", "XControlPath=/tmp/x"))
    ensures OptFilter(Opt("-O", "ControlMaster=auto"))
    ensures OptFilter(Opt("-o", "Contro"))
  {
    assert "ControlMaster=auto"[..7] == "Control";
    assert "ControlPersist=60"[..7] == "Control";
    assert "controlmaster=auto"[0] != "Control"[0];
    assert "XControlPath=/tmp/x"[0] != "Control"[0];
  }

  // ---------------------------------------------------------------------------------------
  // The partition.

  /** No extension option is forwarded, and every other option is forwarded exactly as often
      as it was given. */
  lemma PartitionKeepsExactlyStandard(opts: seq<Opt>)
    ensures forall o :: o in StandardOpts(opts) ==> !IsExtension(o.name)
    ensures forall o :: o in opts ==>
              multiset(StandardOpts(opts))[o] == if IsExtension(o.name) then 0 else multiset(opts)[o]
  {
    forall o | o in opts
      ensures multiset(StandardOpts(opts))[o] == if IsExtension(o.name) then 0 else multiset(opts)[o]
    {
      FilterCount(opts, IsStandard, o);
    }
  }

  /** The partition keeps the original relative order: an option between two stretches of
      options stays between what those stretches are forwarded as. */
  lemma PartitionKeepsOrder(before: seq<Opt>, o: Opt, after: seq<Opt>)
    ensures StandardOpts(before + [o] + after)
            == StandardOpts(before) + (if IsExtension(o.name) then [] else [o]) + StandardOpts(after)
  {
    FilterAppend(before + [o], after, IsStandard);
    FilterAppend(before, [o], IsStandard);
    assert [o][..0] == [];
  }

  /** Last one wins: an extension value given later than every other occurrence of the same
      option is the one in effect. */
  lemma {:induction false} LastOneWins(before: seq<Opt>, name: string, v: string, after: seq<Opt>)
    requires forall o :: o in after ==> o.name != name
    ensures LastValue(before + [Opt(name, v)] + after, name) == Some(v)
    decreases |after|
  {
    var opts := before + [Opt(name, v)] + after;
    if after == [] {
      assert opts[|opts| - 1] == Opt(name, v);
    } else {
      var init := after[..|after| - 1];
      assert opts[..|opts| - 1] == before + [Opt(name, v)] + init;
      assert opts[|opts| - 1] == after[|after| - 1];
      assert forall o :: o in init ==> o in after;
      LastOneWins(before, name, v, init);
    }
  }

  /** Repeating `--arc`, or giving it anywhere among other options, still means arc mode. */
  lemma ArcAnywhereMeansArcMode(before: seq<Opt>, v: string, after: seq<Opt>)
    ensures ArcMode(before + [Opt("--arc", v)] + after)
  {
    var opts := before + [Opt("--arc", v)] + after;
    assert opts[|before|].name == "--arc";
    LastValueFindsLast(opts, "--arc");
  }

  // ---------------------------------------------------------------------------------------
  // Flattening.

  /** One option flattens to its non-empty parts: a no-value flag to its name alone, a value
      option to its name then its value, or its name alone when the value is empty. */
  lemma PartsAreNonEmptyParts(o: Opt)
    ensures Parts(o) == (if o.name != "" then [o.name] else []) + (if o.value != "" then [o.value] else [])
  {
    var pair := [o.name, o.value];
    assert pair[..1] == [o.name] && [o.name][..0] == [];
    assert Filter([o.name], Truthy) == if Truthy(o.name) then [o.name] else [];
    assert Filter(pair, Truthy) == Filter([o.name], Truthy) + if Truthy(o.value) then [o.value] else [];
  }

  /** Flattening keeps the order of the options. */
  lemma {:induction false} FlattenAppend(a: seq<Opt>, b: seq<Opt>)
    ensures Flatten(a + b) == Flatten(a) + Flatten(b)
    decreases |b|
  {
    if b == [] {
      assert a + b == a;
    } else {
      var init, last := b[..|b| - 1], b[|b| - 1];
      var ab := a + b;
      assert ab[..|ab| - 1] == a + init;
      assert ab[|ab| - 1] == last;
      FlattenAppend(a, init);
      assert Flatten(ab) == Flatten(a + init) + Parts(last);
      assert Flatten(b) == Flatten(init) + Parts(last);
    }
  }

  /** The forwarded words split at any option into what comes before it, what it contributes
      itself, and what comes after it. */
  lemma SshOptsSplit(before: seq<Opt>, o: Opt, after: seq<Opt>)
    ensures SshOpts(before + [o] + after) == SshOpts(before) + SshOpts([o]) + SshOpts(after)
  {
    var s1, s2, s3 := StandardOpts(before), StandardOpts([o]), StandardOpts(after);
    FilterAppend(before + [o], after, IsStandard);
    FilterAppend(before, [o], IsStandard);
    FilterAppend(s1 + s2, s3, OptFilter);
    FilterAppend(s1, s2, OptFilter);
    var k1, k2, k3 := Filter(s1, OptFilter), Filter(s2, OptFilter), Filter(s3, OptFilter);
    FlattenAppend(k1 + k2, k3);
    FlattenAppend(k1, k2);
  }

  /** The forwarded words of two stretches of options are those of each, one after the other. */
  lemma SshOptsAppend(a: seq<Opt>, b: seq<Opt>)
    ensures SshOpts(a + b) == SshOpts(a) + SshOpts(b)
  {
    FilterAppend(a, b, IsStandard);
    var s1, s2 := StandardOpts(a), StandardOpts(b);
    FilterAppend(s1, s2, OptFilter);
    FlattenAppend(Filter(s1, OptFilter), Filter(s2, OptFilter));
  }

  /** A `-o Control...` option on its own forwards nothing. */
  lemma ControlOptionForwardsNothing(rest: string)
    ensures SshOpts([Opt("-o", "Control" + rest)]) == []
  {
    var o := Opt("-o", "Control" + rest);
    assert ("Control" + rest)[..7] == "Control";
    assert !OptFilter(o);
    var s := [o];
    assert s[..0] == [];
    assert StandardOpts(s) == s;
    assert Filter(s, OptFilter) == [];
  }

  /** A `-o Control...` option contributes nothing: the words are those without it. */
  lemma ControlOptionDropped(before: seq<Opt>, rest: string, after: seq<Opt>)
    ensures SshOpts(before + [Opt("-o", "Control" + rest)] + after) == SshOpts(before + after)
  {
    SshOptsSplit(before, Opt("-o", "Control" + rest), after);
    ControlOptionForwardsNothing(rest);
    SshOptsAppend(before, after);
  }

  /** Any other standard option is forwarded in place as its non-empty parts. */
  lemma OtherOptionForwarded(before: seq<Opt>, o: Opt, after: seq<Opt>)
    requires !IsExtension(o.name) && OptFilter(o)
    ensures SshOpts(before + [o] + after) == SshOpts(before) + Parts(o) + SshOpts(after)
  {
    SshOptsSplit(before, o, after);
    SshOptsOne(o);
  }

  /** A single standard option that passes the filter forwards its non-empty parts. */
  lemma SshOptsOne(o: Opt)
    requires !IsExtension(o.name) && OptFilter(o)
    ensures SshOpts([o]) == Parts(o)
  {
    var s := [o];
    assert s[..0] == [];
    assert StandardOpts(s) == s;
    assert Filter(s, OptFilter) == s;
    assert Flatten(s) == Parts(o);
  }

  /** Two options forward the words of the first, then those of the second. */
  lemma SshOptsPair(a: Opt, b: Opt)
    ensures SshOpts([a, b]) == SshOpts([a]) + SshOpts([b])
  {
    SshOptsAppend([a], [b]);
    assert [a] + [b] == [a, b];
  }

  /** A no-value flag followed by `-o Control...` forwards the flag's name alone. */
  lemma FlagThenControlOption(t: Opt, rest: string)
    requires !IsExtension(t.name) && OptFilter(t) && t.name != "" && t.value == ""
    ensures SshOpts([t, Opt("-o", "Control" + rest)]) == [t.name]
  {
    var o := Opt("-o", "Control" + rest);
    SshOptsPair(t, o);
    ControlOptionForwardsNothing(rest);
    SshOptsOne(t);
    PartsAreNonEmptyParts(t);
    assert Parts(t) == [t.name];
    assert SshOpts([t]) + SshOpts([o]) == [t.name] + [];
  }

  /** Flattening options that all have empty values yields exactly their names, one each. */
  lemma {:induction false} FlattenNoValueOpts(opts: seq<Opt>)
    requires forall o :: o in opts ==> o.name != "" && o.value == ""
    ensures |Flatten(opts)| == |opts|
    ensures forall k :: 0 <= k < |opts| ==> Flatten(opts)[k] == opts[k].name
    decreases |opts|
  {
    if opts != [] {
      var init, last := opts[..|opts| - 1], opts[|opts| - 1];
      assert forall o :: o in init ==> o in opts;
      FlattenNoValueOpts(init);
      PartsAreNonEmptyParts(last);
      assert Parts(last) == [last.name];
      assert Flatten(opts) == Flatten(init) + [last.name];
      assert forall k :: 0 <= k < |init| ==> init[k] == opts[k];
    }
  }

  /** No-value flags (the `-t`, `-v`, ... of the grammar) are forwarded as one word each,
      their dashed names, in the order given. */
  lemma NoValueFlagsForwardedInOrder(opts: seq<Opt>)
    requires forall o :: o in opts ==> IsShort(o, SHORT_OPTIONS) && o.value == ""
    ensures |SshOpts(opts)| == |opts|
    ensures forall k :: 0 <= k < |opts| ==> SshOpts(opts)[k] == opts[k].name
  {
    FilterKeepsAll(opts, IsStandard);
    FilterKeepsAll(opts, OptFilter);
    FlattenNoValueOpts(opts);
  }

  // ---------------------------------------------------------------------------------------
  // The final words.

  /** The layout of `exec_args`: the executable and `ssh`, the target words ending in
      `--name destination`, then the separator if and only if there are forwarded words or
      a remote command, followed by exactly those, in order. */
  lemma ExecArgsLayout(opts: seq<Opt>, destination: string, args: seq<string>, azPath: string)
    ensures var e := ExecArgs(opts, destination, args, azPath);
            var n := |e| - |ForwardArgs(SshOpts(opts), args)|;
            && 4 <= n <= |e|
            && e[..2] == [azPath, "ssh"]
            && e[n - 2..n] == ["--name", destination]
            && (n < |e| <==> SshOpts(opts) != [] || args != [])
            && (n < |e| ==> e[n] == "--" && e[n + 1..] == SshOpts(opts) + args)
  {
    var target := TargetArgs(ArcMode(opts), LastValue(opts, "--subscription"),
                             LastValue(opts, "--resource-group"), LastValue(opts, "--local-user"), destination);
    var sshOpts := SshOpts(opts);
    LayoutOfParts(azPath, target, destination, sshOpts, args);
  }

  /** The layout on the three parts of the words, whatever the options were. */
  lemma LayoutOfParts(azPath: string, target: seq<string>, destination: string,
                      sshOpts: seq<string>, args: seq<string>)
    requires |target| >= 2 && target[|target| - 2..] == ["--name", destination]
    ensures var fwd := ForwardArgs(sshOpts, args);
            var e := [azPath, "ssh"] + target + fwd;
            var n := |e| - |fwd|;
            && 4 <= n <= |e|
            && e[..2] == [azPath, "ssh"]
            && e[n - 2..n] == ["--name", destination]
            && (n < |e| <==> sshOpts != [] || args != [])
            && (n < |e| ==> e[n] == "--" && e[n + 1..] == sshOpts + args)
  {
    var fwd := ForwardArgs(sshOpts, args);
    var e := [azPath, "ssh"] + target + fwd;
    assert e[|e| - |fwd|..] == fwd;
    assert e[|e| - |fwd| - 2..|e| - |fwd|] == target[|target| - 2..];
  }

  /** Outside arc mode the target is `--name destination` alone, and the extension options
      are ignored: the words are those of the same invocation without them. */
  lemma ExtensionsIgnoredWithoutArc(opts: seq<Opt>, destination: string, args: seq<string>, azPath: string)
    requires !ArcMode(opts)
    ensures ExecArgs(opts, destination, args, azPath)
            == [azPath, "ssh", "--name", destination] + ForwardArgs(SshOpts(opts), args)
    ensures ExecArgs(opts, destination, args, azPath)
            == ExecArgs(StandardOpts(opts), destination, args, azPath)
  {
    var standard := StandardOpts(opts);
    FilterIdempotent(opts, IsStandard);
    assert !ArcMode(standard) by {
      LastValueFindsLast(standard, "--arc");
      assert forall i :: 0 <= i < |standard| ==> standard[i] in standard;
    }
    TargetWithoutArc(opts, destination, args, azPath);
    TargetWithoutArc(standard, destination, args, azPath);
  }

  /** Outside arc mode the words begin with the executable, `ssh` and `--name destination`. */
  lemma TargetWithoutArc(opts: seq<Opt>, destination: string, args: seq<string>, azPath: string)
    requires !ArcMode(opts)
    ensures ExecArgs(opts, destination, args, azPath)
            == [azPath, "ssh", "--name", destination] + ForwardArgs(SshOpts(opts), args)
  {
    NoArcWords(azPath, destination, ForwardArgs(SshOpts(opts), args));
  }

  /** In arc mode with all three extension values non-empty, they follow `arc` in the order
      subscription, resource group, local user. */
  lemma ArcWithAllValues(opts: seq<Opt>, destination: string, args: seq<string>, azPath: string,
                         sub: string, group: string, user: string)
    requires ArcMode(opts)
    requires LastValue(opts, "--subscription") == Some(sub) && sub != ""
    requires LastValue(opts, "--resource-group") == Some(group) && group != ""
    requires LastValue(opts, "--local-user") == Some(user) && user != ""
    ensures ExecArgs(opts, destination, args, azPath)
            == [azPath, "ssh", "arc", "--subscription", sub, "--resource-group", group,
                "--local-user", user, "--name", destination] + ForwardArgs(SshOpts(opts), args)
  {
    ArcTargetOfOptions(opts, destination, sub, group, user);
    ArcAllWords(azPath, sub, group, user, destination, ForwardArgs(SshOpts(opts), args));
  }

  /** The arc target words of options with all three extension values non-empty. */
  lemma ArcTargetOfOptions(opts: seq<Opt>, destination: string, sub: string, group: string, user: string)
    requires ArcMode(opts)
    requires LastValue(opts, "--subscription") == Some(sub) && sub != ""
    requires LastValue(opts, "--resource-group") == Some(group) && group != ""
    requires LastValue(opts, "--local-user") == Some(user) && user != ""
    ensures TargetArgs(ArcMode(opts), LastValue(opts, "--subscription"), LastValue(opts, "--resource-group"),
                       LastValue(opts, "--local-user"), destination)
            == ["arc", "--subscription", sub, "--resource-group", group, "--local-user", user,
                "--name", destination]
  {
    ArcTargetWithAllValues(sub, group, user, destination);
  }

  /** The arc target words when all three extension values are non-empty. */
  lemma ArcTargetWithAllValues(sub: string, group: string, user: string, destination: string)
    requires sub != "" && group != "" && user != ""
    ensures TargetArgs(true, Some(sub), Some(group), Some(user), destination)
            == ["arc", "--subscription", sub, "--resource-group", group, "--local-user", user,
                "--name", destination]
  {
  }

  /** In arc mode with all three extension values missing or empty, the target is `arc`
      and `--name` alone. */
  lemma ArcWithoutValues(opts: seq<Opt>, destination: string, args: seq<string>, azPath: string)
    requires ArcMode(opts)
    requires LastValue(opts, "--subscription").None? || LastValue(opts, "--subscription") == Some("")
    requires LastValue(opts, "--resource-group").None? || LastValue(opts, "--resource-group") == Some("")
    requires LastValue(opts, "--local-user").None? || LastValue(opts, "--local-user") == Some("")
    ensures ExecArgs(opts, destination, args, azPath)
            == [azPath, "ssh", "arc", "--name", destination] + ForwardArgs(SshOpts(opts), args)
  {
    ArcTargetWithoutValues(LastValue(opts, "--subscription"), LastValue(opts, "--resource-group"),
                           LastValue(opts, "--local-user"), destination);
    ArcNoneWords(azPath, destination, ForwardArgs(SshOpts(opts), args));
  }

  /** The arc target words when no extension value is usable. */
  lemma ArcTargetWithoutValues(sub: Option<string>, group: Option<string>, user: Option<string>,
                               destination: string)
    requires sub.None? || sub == Some("")
    requires group.None? || group == Some("")
    requires user.None? || user == Some("")
    ensures TargetArgs(true, sub, group, user, destination) == ["arc", "--name", destination]
  {
  }

  /** An extension option is passed on exactly when its value was given and is non-empty, and
      then as its flag followed by that value. */
  lemma ExtensionArgPresent(flag: string, v: Option<string>)
    ensures ExtensionArg(flag, v) == [] <==> v.None? || v.value == ""
    ensures ExtensionArg(flag, v) != [] ==> ExtensionArg(flag, v) == [flag, v.value]
  {
  }

  /** Each extension option on its own: a missing or empty value contributes nothing to the arc
      target, whatever the other two values are. */
  lemma UnusableExtensionOmitted(sub: Option<string>, group: Option<string>, user: Option<string>,
                                 destination: string)
    ensures (sub.None? || sub == Some(""))
            ==> TargetArgs(true, sub, group, user, destination) == TargetArgs(true, None, group, user, destination)
    ensures (group.None? || group == Some(""))
            ==> TargetArgs(true, sub, group, user, destination) == TargetArgs(true, sub, None, user, destination)
    ensures (user.None? || user == Some(""))
            ==> TargetArgs(true, sub, group, user, destination) == TargetArgs(true, sub, group, None, destination)
  {
  }

  /** Outside arc mode, the words for options whose forwarded words are known. */
  lemma ExecWithoutArc(opts: seq<Opt>, destination: string, args: seq<string>, azPath: string,
                       sshOpts: seq<string>)
    requires !ArcMode(opts) && SshOpts(opts) == sshOpts
    ensures ExecArgs(opts, destination, args, azPath)
            == [azPath, "ssh", "--name", destination] + ForwardArgs(sshOpts, args)
  {
    TargetWithoutArc(opts, destination, args, azPath);
  }

  // ---------------------------------------------------------------------------------------
  // Parsing and usage errors.

  /** A flag that takes no value, then a destination: the flag is parsed with an empty value
      and the destination is popped. */
  lemma FlagThenDestination(c: char, d: string)
    requires ShortHasArg(c, SHORT_OPTIONS) == Some(false)
    requires Positional(d)
    ensures Parse(["-" + [c], d]) == Success(([Opt("-" + [c], "")], d, []))
  {
    FlagIsNotDash(c);
    FlagThenPositional(c, d, SHORT_OPTIONS, LONG_OPTIONS);
    assert [d] + [] == [d];
    ParseOfScan(["-" + [c], d], [Opt("-" + [c], "")], d, []);
  }

  /** Parsing takes the first word the scan leaves as the destination and the rest as the
      remote command. */
  lemma ParseOfScan(argv: seq<string>, opts: seq<Opt>, d: string, rest: seq<string>)
    requires GetOpt(argv, SHORT_OPTIONS, LONG_OPTIONS) == Success((opts, [d] + rest))
    ensures Parse(argv) == Success((opts, d, rest))
  {
    assert ([d] + rest)[0] == d && ([d] + rest)[1..] == rest;
  }

  /** `-f` occurs twice in the grammar; its first occurrence has no `:`, so it takes no value
      and the next word is the destination. */
  lemma LowercaseFTakesNoValue()
    ensures ShortHasArg('f', SHORT_OPTIONS) == Some(false)
    ensures Parse(["-f", "host1"]) == Success(([Opt("-f", "")], "host1", []))
  {
    assert "-" + ['f'] == "-f" && "host1"[..1][0] != "-"[0];
    LowercaseFLookup();
    FlagThenDestination('f', "host1");
  }

  /** The first `f` of the grammar is followed by `G`, not by `:`. */
  lemma LowercaseFLookup()
    ensures ShortHasArg('f', SHORT_OPTIONS) == Some(false)
  {
    assert SHORT_OPTIONS[5] == 'f' && SHORT_OPTIONS[6] == 'G';
    assert forall j :: 0 <= j < 5 ==> SHORT_OPTIONS[j] != 'f';
    ShortHasArgFirst('f', SHORT_OPTIONS, 5);
  }

  /** The dash is not a flag of the grammar. */
  lemma DashIsNoFlag()
    ensures ShortHasArg('-', SHORT_OPTIONS).None?
  {
    assert '-' !in SHORT_OPTIONS;
    ShortHasArgAbsent('-', SHORT_OPTIONS);
  }

  /** `-F` is not in the grammar, although the usage text lists `-F configfile`. */
  lemma CapitalFIsNotRecognized()
    ensures ShortHasArg('F', SHORT_OPTIONS).None?
    ensures Parse(["-F", "ssh_config", "host1"]) == Failure(GetoptFailed(NotRecognized("F")))
  {
    assert 'F' !in SHORT_OPTIONS;
    ShortHasArgAbsent('F', SHORT_OPTIONS);
    assert "-" + ['F'] == "-F";
    UnknownFlagIsUsageError([], 'F', ["ssh_config", "host1"]);
    assert Render([], SHORT_OPTIONS, LONG_OPTIONS) + ["-" + ['F']] + ["ssh_config", "host1"]
           == ["-F", "ssh_config", "host1"];
  }

  /** A flag of the grammar is never the dash. */
  lemma FlagIsNotDash(c: char)
    requires ShortHasArg(c, SHORT_OPTIONS).Some?
    ensures c != '-'
  {
    DashIsNoFlag();
  }

  /** Every recognized option of this grammar can be rendered: none is called `--`. */
  lemma RecognizedIsRenderable(o: Opt)
    requires Recognized(o, SHORT_OPTIONS, LONG_OPTIONS)
    ensures Renderable(o, SHORT_OPTIONS, LONG_OPTIONS)
  {
    DashIsNoFlag();
    assert LongHasArg("", LONG_OPTIONS).None? by {
      assert forall k :: 0 <= k < |LONG_OPTIONS| ==> |LONG_OPTIONS[k]| > 1;
    }
    assert "--"[1] == '-' && "--"[2..] == "";
  }

  /** A flag outside the grammar, after any valid options, is a usage error. */
  lemma UnknownFlagIsUsageError(opts: seq<Opt>, c: char, rest: seq<string>)
    requires forall o :: o in opts ==> Recognized(o, SHORT_OPTIONS, LONG_OPTIONS)
    requires c != '-' && ShortHasArg(c, SHORT_OPTIONS).None?
    ensures Parse(Render(opts, SHORT_OPTIONS, LONG_OPTIONS) + ["-" + [c]] + rest)
            == Failure(GetoptFailed(NotRecognized([c])))
  {
    forall o | o in opts ensures Renderable(o, SHORT_OPTIONS, LONG_OPTIONS) {
      RecognizedIsRenderable(o);
    }
    var words := Render(opts, SHORT_OPTIONS, LONG_OPTIONS);
    var tail := ["-" + [c]] + rest;
    assert words + ["-" + [c]] + rest == words + tail;
    ScanRendered(opts, tail, SHORT_OPTIONS, LONG_OPTIONS);
    ScanUnknownFlag(c, rest, SHORT_OPTIONS, LONG_OPTIONS);
  }

  /** A value-taking flag as the last word, after any valid options, is a usage error. */
  lemma MissingValueIsUsageError(opts: seq<Opt>, c: char)
    requires forall o :: o in opts ==> Recognized(o, SHORT_OPTIONS, LONG_OPTIONS)
    requires ShortHasArg(c, SHORT_OPTIONS) == Some(true)
    ensures Parse(Render(opts, SHORT_OPTIONS, LONG_OPTIONS) + ["-" + [c]])
            == Failure(GetoptFailed(RequiresArgument([c])))
  {
    forall o | o in opts ensures Renderable(o, SHORT_OPTIONS, LONG_OPTIONS) {
      RecognizedIsRenderable(o);
    }
    FlagIsNotDash(c);
    ScanRendered(opts, ["-" + [c]], SHORT_OPTIONS, LONG_OPTIONS);
    ScanMissingValue(c, SHORT_OPTIONS, LONG_OPTIONS);
  }

  /** A long option outside the list, after any valid options, is a usage error naming it
      (the part before any `=`). */
  lemma UnknownLongIsUsageError(opts: seq<Opt>, n: string, rest: seq<string>)
    requires forall o :: o in opts ==> Recognized(o, SHORT_OPTIONS, LONG_OPTIONS)
    requires n != [] && LongHasArg(SplitAtEquals(n).0, LONG_OPTIONS).None?
    ensures Parse(Render(opts, SHORT_OPTIONS, LONG_OPTIONS) + ["--" + n] + rest)
            == Failure(GetoptFailed(NotRecognized(SplitAtEquals(n).0)))
  {
    forall o | o in opts ensures Renderable(o, SHORT_OPTIONS, LONG_OPTIONS) {
      RecognizedIsRenderable(o);
    }
    var words := Render(opts, SHORT_OPTIONS, LONG_OPTIONS);
    var tail := ["--" + n] + rest;
    assert words + ["--" + n] + rest == words + tail;
    ScanRendered(opts, tail, SHORT_OPTIONS, LONG_OPTIONS);
    ScanUnknownLong(n, rest, SHORT_OPTIONS, LONG_OPTIONS);
  }

  /** A value-taking long option as the last word, after any valid options, is a usage error. */
  lemma MissingLongValueIsUsageError(opts: seq<Opt>, n: string)
    requires forall o :: o in opts ==> Recognized(o, SHORT_OPTIONS, LONG_OPTIONS)
    requires n != [] && '=' !in n && LongHasArg(n, LONG_OPTIONS) == Some(true)
    ensures Parse(Render(opts, SHORT_OPTIONS, LONG_OPTIONS) + ["--" + n])
            == Failure(GetoptFailed(RequiresArgument(n)))
  {
    forall o | o in opts ensures Renderable(o, SHORT_OPTIONS, LONG_OPTIONS) {
      RecognizedIsRenderable(o);
    }
    ScanRendered(opts, ["--" + n], SHORT_OPTIONS, LONG_OPTIONS);
    ScanMissingLongValue(n, SHORT_OPTIONS, LONG_OPTIONS);
  }

  /** An unknown long option as the first word is a usage error, whatever follows it. */
  lemma UnknownLongFirst(n: string, rest: seq<string>)
    requires n != [] && LongHasArg(SplitAtEquals(n).0, LONG_OPTIONS).None?
    ensures Parse(["--" + n] + rest) == Failure(GetoptFailed(NotRecognized(SplitAtEquals(n).0)))
  {
    ScanUnknownLong(n, rest, SHORT_OPTIONS, LONG_OPTIONS);
  }

  /** A value-taking long option alone is a usage error. */
  lemma MissingLongValueAlone(n: string)
    requires n != [] && '=' !in n && LongHasArg(n, LONG_OPTIONS) == Some(true)
    ensures Parse(["--" + n]) == Failure(GetoptFailed(RequiresArgument(n)))
  {
    ScanMissingLongValue(n, SHORT_OPTIONS, LONG_OPTIONS);
  }

  /** `foo` is not one of the long names, with or without `=`. */
  lemma FooIsUnknown()
    ensures SplitAtEquals("foo") == ("foo", None)
    ensures LongHasArg("foo", LONG_OPTIONS).None?
  {
    assert '=' !in "foo";
    assert |LONG_OPTIONS| == 4 && "foo"[0] == 'f';
    assert LONG_OPTIONS[0][0] == 'a' && LONG_OPTIONS[1][0] == 's';
    assert LONG_OPTIONS[2][0] == 'r' && LONG_OPTIONS[3][0] == 'l';
    assert ("foo" + "=")[0] == 'f';
  }

  /** `--foo host1`: an unknown long option is a usage error. */
  lemma ExampleUnknownLong()
    ensures Parse(["--foo", "host1"]) == Failure(GetoptFailed(NotRecognized("foo")))
  {
    FooIsUnknown();
    UnknownLongFirst("foo", ["host1"]);
    assert "--" + "foo" == "--foo";
    assert ["--" + "foo"] + ["host1"] == ["--foo", "host1"];
  }

  /** `--subscription` as the last word: its value is missing, so this is a usage error. */
  lemma ExampleMissingSubscription()
    ensures Parse(["--subscription"]) == Failure(GetoptFailed(RequiresArgument("subscription")))
  {
    SubscriptionTakesValue();
    MissingLongValueAlone("subscription");
    ArcExampleNames();
  }

  /** `subscription` is listed with `=` and holds no `=` itself. */
  lemma SubscriptionTakesValue()
    ensures '=' !in "subscription" && LongHasArg("subscription", LONG_OPTIONS) == Some(true)
  {
    LongLookups();
  }

  /** Options with no positional argument after them, with or without `--`, are a usage error. */
  lemma MissingDestinationIsUsageError(opts: seq<Opt>)
    requires forall o :: o in opts ==> Recognized(o, SHORT_OPTIONS, LONG_OPTIONS)
    ensures Parse(Render(opts, SHORT_OPTIONS, LONG_OPTIONS)) == Failure(MissingDestination)
    ensures Parse(Render(opts, SHORT_OPTIONS, LONG_OPTIONS) + ["--"]) == Failure(MissingDestination)
  {
    forall o | o in opts ensures Renderable(o, SHORT_OPTIONS, LONG_OPTIONS) {
      RecognizedIsRenderable(o);
    }
    var words := Render(opts, SHORT_OPTIONS, LONG_OPTIONS);
    assert words + [] == words;
    ScanRendered(opts, [], SHORT_OPTIONS, LONG_OPTIONS);
    ScanRoundTrip(opts, [], SHORT_OPTIONS, LONG_OPTIONS);
    assert words + ["--"] + [] == words + ["--"];
  }

  /** Any successful parse can be written back in a canonical form (the options, `--`, the
      destination, the remote command) that parses to the same result, and both invocations
      execute the same words. */
  lemma ParseCanonical(argv: seq<string>, azPath: string)
    requires Parse(argv).Success?
    ensures var (opts, destination, args) := Parse(argv).value;
            var canonical := Render(opts, SHORT_OPTIONS, LONG_OPTIONS) + ["--", destination] + args;
            Parse(canonical) == Parse(argv)
            && Plan(canonical, azPath) == Success(ExecArgs(opts, destination, args, azPath))
  {
    var (opts, destination, args) := Parse(argv).value;
    forall o | o in opts ensures Renderable(o, SHORT_OPTIONS, LONG_OPTIONS) {
      RecognizedIsRenderable(o);
    }
    var words := Render(opts, SHORT_OPTIONS, LONG_OPTIONS);
    assert words + ["--", destination] + args == words + ["--"] + ([destination] + args);
    ScanRoundTrip(opts, [destination] + args, SHORT_OPTIONS, LONG_OPTIONS);
    assert ([destination] + args)[1..] == args;
  }

  // ---------------------------------------------------------------------------------------
  // Worked examples, end to end.

  /** `az-ssh 1.2.3.4`: no options, no separator. */
  lemma ExampleBareHost(azPath: string)
    ensures Plan(["1.2.3.4"], azPath) == Success([azPath, "ssh", "--name", "1.2.3.4"])
  {
    assert "1.2.3.4"[0] == '1' && "1.2.3.4"[..1][0] != "-"[0];
    assert Parse(["1.2.3.4"]) == Success(([], "1.2.3.4", []));
    assert SshOpts([]) == [];
    assert !ArcMode([]);
    assert ExecArgs([], "1.2.3.4", [], azPath) == [azPath, "ssh", "--name", "1.2.3.4"];
  }

  /** Recognized options rendered as words, a destination and a remote command parse back to
      exactly those options, that destination and that command. */
  lemma ParseOptionsThenDestination(opts: seq<Opt>, d: string, args: seq<string>)
    requires forall o :: o in opts ==> Recognized(o, SHORT_OPTIONS, LONG_OPTIONS)
    requires Positional(d)
    ensures Parse(Render(opts, SHORT_OPTIONS, LONG_OPTIONS) + [d] + args) == Success((opts, d, args))
  {
    forall o | o in opts ensures Renderable(o, SHORT_OPTIONS, LONG_OPTIONS) {
      RecognizedIsRenderable(o);
    }
    var words := Render(opts, SHORT_OPTIONS, LONG_OPTIONS);
    var rest := [d] + args;
    assert words + [d] + args == words + rest;
    ScanRendered(opts, rest, SHORT_OPTIONS, LONG_OPTIONS);
    ScanStopsAtPositional(d, args, SHORT_OPTIONS, LONG_OPTIONS);
    assert opts + [] == opts;
    assert rest[0] == d && rest[1..] == args;
  }

  /** `-t` takes no value: its first occurrence is followed by `V`. */
  lemma LowercaseTLookup()
    ensures ShortHasArg('t', SHORT_OPTIONS) == Some(false)
  {
    assert SHORT_OPTIONS[16] == 't' && SHORT_OPTIONS[17] == 'V';
    assert forall j :: 0 <= j < 16 ==> SHORT_OPTIONS[j] != 't';
    ShortHasArgFirst('t', SHORT_OPTIONS, 16);
  }

  /** `-o` takes a value: its first occurrence is followed by `:`. */
  lemma LowercaseOLookup()
    ensures ShortHasArg('o', SHORT_OPTIONS) == Some(true)
  {
    assert SHORT_OPTIONS[51] == 'o' && SHORT_OPTIONS[52] == ':';
    assert forall j :: 0 <= j < 51 ==> SHORT_OPTIONS[j] != 'o';
    ShortHasArgFirst('o', SHORT_OPTIONS, 51);
  }

  /** The options of the Control example, written back as words. */
  lemma RenderControlExample()
    ensures Render([Opt("-t", ""), Opt("-o", "ControlMaster=auto")], SHORT_OPTIONS, LONG_OPTIONS)
            == ["-t", "-o", "ControlMaster=auto"]
  {
    var t, o := Opt("-t", ""), Opt("-o", "ControlMaster=auto");
    LowercaseTLookup();
    LowercaseOLookup();
    assert t.name[1] == 't' && o.name[1] == 'o';
    assert Words(t, SHORT_OPTIONS, LONG_OPTIONS) == ["-t"];
    assert Words(o, SHORT_OPTIONS, LONG_OPTIONS) == ["-o", "ControlMaster=auto"];
    assert [o][1..] == [];
    assert Render([o], SHORT_OPTIONS, LONG_OPTIONS) == ["-o", "ControlMaster=auto"];
    assert [t, o][1..] == [o];
  }

  /** The Control example does not select arc mode. */
  lemma ControlExampleNotArc()
    ensures !ArcMode([Opt("-t", ""), Opt("-o", "ControlMaster=auto")])
  {
    var opts := [Opt("-t", ""), Opt("-o", "ControlMaster=auto")];
    LastValueFindsLast(opts, "--arc");
    assert opts[0].name != "--arc" && opts[1].name != "--arc";
  }

  /** The Control example forwards `-t` alone. */
  lemma ControlExampleForwards()
    ensures SshOpts([Opt("-t", ""), Opt("-o", "ControlMaster=auto")]) == ["-t"]
  {
    FlagThenControlOption(Opt("-t", ""), "Master=auto");
    assert "Control" + "Master=auto" == "ControlMaster=auto";
  }

  /** The words the Control example executes, once parsed. */
  lemma ExecControlExample(azPath: string)
    ensures ExecArgs([Opt("-t", ""), Opt("-o", "ControlMaster=auto")], "host1", [], azPath)
            == [azPath, "ssh", "--name", "host1", "--", "-t"]
  {
    ControlExampleNotArc();
    ControlExampleForwards();
    ExecWithoutArc([Opt("-t", ""), Opt("-o", "ControlMaster=auto")], "host1", [], azPath, ["-t"]);
    ControlExampleExecWords(azPath);
  }

  /** `-t -o ControlMaster=auto host1`: the Control option is dropped and `-t` is forwarded
      with its dash. */
  lemma ExampleControlDropped(azPath: string)
    ensures Plan(["-t", "-o", "ControlMaster=auto", "host1"], azPath)
            == Success([azPath, "ssh", "--name", "host1", "--", "-t"])
  {
    var opts := [Opt("-t", ""), Opt("-o", "ControlMaster=auto")];
    LowercaseTLookup();
    LowercaseOLookup();
    assert forall k :: 0 <= k < |opts| ==> opts[k].name[1] in "to";
    assert forall o :: o in opts ==> IsShort(o, SHORT_OPTIONS);
    RenderControlExample();
    assert "host1"[..1][0] != "-"[0];
    ParseOptionsThenDestination(opts, "host1", []);
    ControlExampleWords();
    ExecControlExample(azPath);
  }

  /** The four long options take a value exactly when they are listed with `=`. */
  lemma LongLookups()
    ensures LongHasArg("arc", LONG_OPTIONS) == Some(false)
    ensures LongHasArg("subscription", LONG_OPTIONS) == Some(true)
    ensures LongHasArg("resource-group", LONG_OPTIONS) == Some(true)
    ensures LongHasArg("local-user", LONG_OPTIONS) == Some(true)
  {
    assert LONG_OPTIONS[0] == "arc";
    assert "subscription" + "=" == LONG_OPTIONS[1];
    assert "resource-group" + "=" == LONG_OPTIONS[2];
    assert "local-user" + "=" == LONG_OPTIONS[3];
    assert forall k :: 0 <= k < |LONG_OPTIONS| ==> LONG_OPTIONS[k][|LONG_OPTIONS[k]| - 1] == "="[0] || k == 0;
    assert forall k :: 0 <= k < |LONG_OPTIONS| ==> |LONG_OPTIONS[k]| != |"resource-group"| || k == 2;
  }

  /** A listed long option without `=` is recognized with an empty value and written alone. */
  lemma LongFlagOption(n: string)
    requires '=' !in n && LongHasArg(n, LONG_OPTIONS) == Some(false)
    ensures Recognized(Opt("--" + n, ""), SHORT_OPTIONS, LONG_OPTIONS)
    ensures Words(Opt("--" + n, ""), SHORT_OPTIONS, LONG_OPTIONS) == ["--" + n]
  {
    var name := "--" + n;
    assert name[..2] == "--" && name[2..] == n;
  }

  /** A long option listed with `=` is recognized with any value and written with it. */
  lemma LongValueOption(n: string, v: string)
    requires '=' !in n && LongHasArg(n, LONG_OPTIONS) == Some(true)
    ensures Recognized(Opt("--" + n, v), SHORT_OPTIONS, LONG_OPTIONS)
    ensures Words(Opt("--" + n, v), SHORT_OPTIONS, LONG_OPTIONS) == ["--" + n, v]
  {
    var name := "--" + n;
    assert name[..2] == "--" && name[2..] == n;
  }

  /** Four options are written as the words of each, in order. */
  lemma RenderFour(a: Opt, b: Opt, c: Opt, d: Opt, shortopts: string, longopts: seq<string>)
    ensures Render([a, b, c, d], shortopts, longopts)
            == Words(a, shortopts, longopts) + Words(b, shortopts, longopts)
               + Words(c, shortopts, longopts) + Words(d, shortopts, longopts)
  {
    var wa, wb := Words(a, shortopts, longopts), Words(b, shortopts, longopts);
    var wc, wd := Words(c, shortopts, longopts), Words(d, shortopts, longopts);
    assert [d][1..] == [];
    assert Render([d], shortopts, longopts) == wd by { assert wd + [] == wd; }
    assert [c, d][1..] == [d];
    assert Render([c, d], shortopts, longopts) == wc + wd;
    assert [b, c, d][1..] == [c, d];
    assert Render([b, c, d], shortopts, longopts) == wb + (wc + wd);
    assert [a, b, c, d][1..] == [b, c, d];
    assert wa + (wb + (wc + wd)) == wa + wb + wc + wd;
  }

  /** The options of the arc example are recognized and written back as words. */
  lemma RenderArcExample()
    ensures var opts := [Opt("--arc", ""), Opt("--subscription", "subid"), Opt("--resource-group", "rg"),
                         Opt("--local-user", "admin")];
            && (forall o :: o in opts ==> Recognized(o, SHORT_OPTIONS, LONG_OPTIONS))
            && Render(opts, SHORT_OPTIONS, LONG_OPTIONS)
               == ["--arc", "--subscription", "subid", "--resource-group", "rg", "--local-user", "admin"]
  {
    LongLookups();
    ArcExampleNames();
    LongFlagOption("arc");
    LongValueOption("subscription", "subid");
    LongValueOption("resource-group", "rg");
    LongValueOption("local-user", "admin");
    RenderFour(Opt("--arc", ""), Opt("--subscription", "subid"), Opt("--resource-group", "rg"),
               Opt("--local-user", "admin"), SHORT_OPTIONS, LONG_OPTIONS);
    ConcatArcWords();
  }

  /** The arc example selects arc mode and takes each extension value from its option. */
  lemma ArcExampleValues()
    ensures var opts := [Opt("--arc", ""), Opt("--subscription", "subid"), Opt("--resource-group", "rg"),
                         Opt("--local-user", "admin")];
            && ArcMode(opts)
            && LastValue(opts, "--subscription") == Some("subid")
            && LastValue(opts, "--resource-group") == Some("rg")
            && LastValue(opts, "--local-user") == Some("admin")
  {
    var arc, sub := Opt("--arc", ""), Opt("--subscription", "subid");
    var group, user := Opt("--resource-group", "rg"), Opt("--local-user", "admin");
    Splits(arc, sub, group, user);
    ArcAnywhereMeansArcMode([], "", [sub, group, user]);
    LastOneWins([arc], "--subscription", "subid", [group, user]);
    LastOneWins([arc, sub], "--resource-group", "rg", [user]);
    LastOneWins([arc, sub, group], "--local-user", "admin", []);
  }

  /** The arc example forwards nothing: every option is an extension option. */
  lemma ArcExampleForwardsNothing()
    ensures SshOpts([Opt("--arc", ""), Opt("--subscription", "subid"), Opt("--resource-group", "rg"),
                     Opt("--local-user", "admin")]) == []
  {
    var opts := [Opt("--arc", ""), Opt("--subscription", "subid"), Opt("--resource-group", "rg"),
                 Opt("--local-user", "admin")];
    assert forall k :: 0 <= k < |opts| ==> IsExtension(opts[k].name);
    FilterDropsAll(opts, IsStandard);
    assert Filter([], OptFilter) == [];
  }

  /** The words of the arc example, once parsed. */
  lemma ExecArcExample(azPath: string)
    ensures ExecArgs([Opt("--arc", ""), Opt("--subscription", "subid"), Opt("--resource-group", "rg"),
                      Opt("--local-user", "admin")], "server1", [], azPath)
            == [azPath, "ssh", "arc", "--subscription", "subid", "--resource-group", "rg",
                "--local-user", "admin", "--name", "server1"]
  {
    var opts := [Opt("--arc", ""), Opt("--subscription", "subid"), Opt("--resource-group", "rg"),
                 Opt("--local-user", "admin")];
    ArcExampleValues();
    ArcExampleForwardsNothing();
    ArcWithAllValues(opts, "server1", [], azPath, "subid", "rg", "admin");
    assert ForwardArgs([], []) == [];
    ArcExampleExecWords(azPath);
  }

  /** `--arc --subscription subid --resource-group rg --local-user admin server1`. */
  lemma ExampleArc(azPath: string)
    ensures Plan(["--arc", "--subscription", "subid", "--resource-group", "rg",
                  "--local-user", "admin", "server1"], azPath)
            == Success([azPath, "ssh", "arc", "--subscription", "subid", "--resource-group", "rg",
                        "--local-user", "admin", "--name", "server1"])
  {
    var opts := [Opt("--arc", ""), Opt("--subscription", "subid"), Opt("--resource-group", "rg"),
                 Opt("--local-user", "admin")];
    RenderArcExample();
    assert "server1"[..1][0] != "-"[0];
    ParseOptionsThenDestination(opts, "server1", []);
    ArcExampleWords();
    ExecArcExample(azPath);
  }

  /** `host1 ls -la`: the remote command is forwarded after the separator, verbatim. */
  lemma ExampleRemoteCommand(azPath: string)
    ensures Plan(["host1", "ls", "-la"], azPath)
            == Success([azPath, "ssh", "--name", "host1", "--", "ls", "-la"])
  {
    assert "host1"[0] == 'h' && "host1"[..1][0] != "-"[0];
    assert Parse(["host1", "ls", "-la"]) == Success(([], "host1", ["ls", "-la"]));
    assert SshOpts([]) == [];
    assert !ArcMode([]);
    assert ExecArgs([], "host1", ["ls", "-la"], azPath) == [azPath, "ssh", "--name", "host1", "--", "ls", "-la"];
  }

  /** A lone `-` is a positional argument, so it can be the destination. */
  lemma ExampleLoneDash(azPath: string)
    ensures Plan(["-"], azPath) == Success([azPath, "ssh", "--name", "-"])
  {
    assert GetOpt(["-"], SHORT_OPTIONS, LONG_OPTIONS) == Success(([], ["-"]));
    assert Parse(["-"]) == Success(([], "-", []));
    assert SshOpts([]) == [];
    assert !ArcMode([]);
    assert ExecArgs([], "-", [], azPath) == [azPath, "ssh", "--name", "-"];
  }

  /** The empty word is positional too: it is popped as the destination and forwarded as the
      (empty) `--name` value. */
  lemma ExampleEmptyDestination(azPath: string)
    ensures Plan([""], azPath) == Success([azPath, "ssh", "--name", ""])
  {
    assert Positional("");
    ScanStopsAtPositional("", [], SHORT_OPTIONS, LONG_OPTIONS);
    assert [""] + [] == [""];
    ParseOfScan([""], [], "", []);
    assert SshOpts([]) == [];
    assert !ArcMode([]);
    assert ExecArgs([], "", [], azPath) == [azPath, "ssh", "--name", ""];
  }

  /** `-t -`: a lone `-` after a flag ends the scan and is the destination. */
  lemma FlagThenLoneDash()
    ensures Parse(["-t", "-"]) == Success(([Opt("-t", "")], "-", []))
  {
    assert "-" + ['t'] == "-t";
    LowercaseTLookup();
    FlagThenDestination('t', "-");
  }

  /** `-p` takes a value: its first occurrence is followed by `:`. */
  lemma LowercasePLookup()
    ensures ShortHasArg('p', SHORT_OPTIONS) == Some(true)
  {
    assert SHORT_OPTIONS[53] == 'p' && SHORT_OPTIONS[54] == ':';
    assert forall j :: 0 <= j < 53 ==> SHORT_OPTIONS[j] != 'p';
    ShortHasArgFirst('p', SHORT_OPTIONS, 53);
  }

  /** A value-taking flag with its value attached, then a destination: the option is parsed
      with that value and the destination is popped. */
  lemma AttachedThenDestination(c: char, v: string, d: string)
    requires ShortHasArg(c, SHORT_OPTIONS) == Some(true) && v != []
    requires Positional(d)
    ensures Parse(["-" + [c] + v, d]) == Success(([Opt("-" + [c], v)], d, []))
  {
    FlagIsNotDash(c);
    AttachedThenPositional(c, v, d, SHORT_OPTIONS, LONG_OPTIONS);
    assert [d] + [] == [d];
    ParseOfScan(["-" + [c] + v, d], [Opt("-" + [c], v)], d, []);
  }

  /** `-p22 host1`: an attached value is split from its flag and forwarded as its own word. */
  lemma ExampleAttachedPort(azPath: string)
    ensures Plan(["-p22", "host1"], azPath) == Success([azPath, "ssh", "--name", "host1", "--", "-p", "22"])
  {
    LowercasePLookup();
    assert "-" + ['p'] + "22" == "-p22" && "-" + ['p'] == "-p" && "host1"[..1][0] != "-"[0];
    AttachedThenDestination('p', "22", "host1");
    AttachedPortExec(azPath);
  }

  /** The words `-p22 host1` executes, once parsed. */
  lemma AttachedPortExec(azPath: string)
    ensures ExecArgs([Opt("-p", "22")], "host1", [], azPath) == [azPath, "ssh", "--name", "host1", "--", "-p", "22"]
  {
    AttachedPortForwards();
    ExecWithoutArc([Opt("-p", "22")], "host1", [], azPath, ["-p", "22"]);
    AttachedPortExecWords(azPath);
  }

  /** The parsed `-p22` example is not in arc mode and forwards `-p` and `22`. */
  lemma AttachedPortForwards()
    ensures !ArcMode([Opt("-p", "22")])
    ensures SshOpts([Opt("-p", "22")]) == ["-p", "22"]
  {
    var p := Opt("-p", "22");
    assert !ArcMode([p]) by {
      LastValueFindsLast([p], "--arc");
    }
    SshOptsOne(p);
    PartsAreNonEmptyParts(p);
  }

  // ---------------------------------------------------------------------------------------
  // Proof glue: identities between sequence literals. They say nothing about the model; they
  // are kept as lemmas of their own so that the lemmas above that use them stay cheap to prove.

  lemma NoArcWords(azPath: string, destination: string, fwd: seq<string>)
    ensures [azPath, "ssh"] + ["--name", destination] + fwd == [azPath, "ssh", "--name", destination] + fwd
  {
    assert [azPath, "ssh"] + ["--name", destination] == [azPath, "ssh", "--name", destination];
  }

  lemma ArcAllWords(azPath: string, sub: string, group: string, user: string, destination: string,
                    fwd: seq<string>)
    ensures [azPath, "ssh"] + ["arc", "--subscription", sub, "--resource-group", group, "--local-user", user,
                               "--name", destination] + fwd
            == [azPath, "ssh", "arc", "--subscription", sub, "--resource-group", group, "--local-user", user,
                "--name", destination] + fwd
  {
  }

  lemma ArcNoneWords(azPath: string, destination: string, fwd: seq<string>)
    ensures [azPath, "ssh"] + ["arc", "--name", destination] + fwd
            == [azPath, "ssh", "arc", "--name", destination] + fwd
  {
  }

  /** The words of the Control example with `-t` forwarded. */
  lemma ControlExampleExecWords(azPath: string)
    ensures [azPath, "ssh", "--name", "host1"] + ForwardArgs(["-t"], [])
            == [azPath, "ssh", "--name", "host1", "--", "-t"]
  {
    assert ForwardArgs(["-t"], []) == ["--", "-t"];
  }

  /** The argument vector of the Control example, as rendered options then the destination. */
  lemma ControlExampleWords()
    ensures ["-t", "-o", "ControlMaster=auto"] + ["host1"] + [] == ["-t", "-o", "ControlMaster=auto", "host1"]
  {
  }

  /** Four elements, split at each position. */
  lemma Splits<T>(a: T, b: T, c: T, d: T)
    ensures [a, b, c, d] == [] + [a] + [b, c, d]
    ensures [a, b, c, d] == [a] + [b] + [c, d]
    ensures [a, b, c, d] == [a, b] + [c] + [d]
    ensures [a, b, c, d] == [a, b, c] + [d] + []
  {
  }

  /** The names of the four long options of the arc example. */
  lemma ArcExampleNames()
    ensures "--" + "arc" == "--arc" && "--" + "subscription" == "--subscription"
    ensures "--" + "resource-group" == "--resource-group" && "--" + "local-user" == "--local-user"
    ensures '=' !in "arc" && '=' !in "subscription" && '=' !in "resource-group" && '=' !in "local-user"
  {
  }

  /** The rendered words of the arc example, concatenated. */
  lemma ConcatArcWords()
    ensures ["--arc"] + ["--subscription", "subid"] + ["--resource-group", "rg"] + ["--local-user", "admin"]
            == ["--arc", "--subscription", "subid", "--resource-group", "rg", "--local-user", "admin"]
  {
  }

  /** The words of the arc example with nothing forwarded. */
  lemma ArcExampleExecWords(azPath: string)
    ensures [azPath, "ssh", "arc", "--subscription", "subid", "--resource-group", "rg",
             "--local-user", "admin", "--name", "server1"] + []
            == [azPath, "ssh", "arc", "--subscription", "subid", "--resource-group", "rg",
                "--local-user", "admin", "--name", "server1"]
  {
  }

  /** The argument vector of the arc example, as rendered options then the destination. */
  lemma ArcExampleWords()
    ensures ["--arc", "--subscription", "subid", "--resource-group", "rg", "--local-user", "admin"]
            + ["server1"] + []
            == ["--arc", "--subscription", "subid", "--resource-group", "rg", "--local-user", "admin",
                "server1"]
  {
  }

  lemma AttachedPortExecWords(azPath: string)
    ensures [azPath, "ssh", "--name", "host1"] + ForwardArgs(["-p", "22"], [])
            == [azPath, "ssh", "--name", "host1", "--", "-p", "22"]
  {
    assert ForwardArgs(["-p", "22"], []) == ["--", "-p", "22"];
  }
}
