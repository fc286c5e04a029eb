/** Python's POSIX-style `getopt.getopt` as the wrapper uses it: a short-option grammar
    string in which a letter followed by `:` takes a value, a list of long names in which a
    trailing `=` means the option takes a value, scanning that stops at the first positional
    argument or at `--`. Long names must be given in full; unique-prefix abbreviation is not
    modelled. */
module Getopt {
  import opened Wrappers
  import opened Seqs

  /** One parsed option: its name with its dashes (`-t`, `--arc`) and its value, or `""`. */
  datatype Opt = Opt(name: string, value: string)

  /** The three ways the scan fails; `opt` is the option without its dashes. */
  datatype GetoptError =
    | NotRecognized(opt: string)
    | RequiresArgument(opt: string)
    | MustNotHaveArgument(opt: string)

  type Parsed = Result<(seq<Opt>, seq<string>), GetoptError>

  /** Whether the short flag `c` takes a value: `None` if `c` is not in the grammar, otherwise
      whether its FIRST occurrence is followed by `:`. A `:` is never itself a flag. */
  function ShortHasArg(c: char, shortopts: string): Option<bool> {
    if shortopts == [] then None
    else if shortopts[0] == c && c != ':' then Some(|shortopts| > 1 && shortopts[1] == ':')
    else ShortHasArg(c, shortopts[1..])
  }

  /** A flag is unknown exactly when it is `:` or does not occur in the grammar. */
  lemma {:induction false} ShortHasArgAbsent(c: char, shortopts: string)
    ensures ShortHasArg(c, shortopts).None? <==> c == ':' || c !in shortopts
    decreases |shortopts|
  {
    if shortopts != [] && !(shortopts[0] == c && c != ':') {
      ShortHasArgAbsent(c, shortopts[1..]);
      assert c in shortopts <==> c == shortopts[0] || c in shortopts[1..] by {
        assert shortopts == [shortopts[0]] + shortopts[1..];
      }
    }
  }

  /** The first occurrence of `c` decides: it takes a value exactly when a `:` follows it. */
  lemma {:induction false} ShortHasArgFirst(c: char, shortopts: string, i: nat)
    requires i < |shortopts| && shortopts[i] == c && c != ':'
    requires forall j :: 0 <= j < i ==> shortopts[j] != c
    ensures ShortHasArg(c, shortopts) == Some(i + 1 < |shortopts| && shortopts[i + 1] == ':')
    decreases i
  {
    if i > 0 {
      var tail := shortopts[1..];
      assert forall j :: 0 <= j < i - 1 ==> tail[j] == shortopts[j + 1];
      ShortHasArgFirst(c, tail, i - 1);
    }
  }

  /** Whether the long option `name` takes a value: `None` if neither `name` nor `name=` is
      listed; an exact listing without `=` wins. */
  function LongHasArg(name: string, longopts: seq<string>): Option<bool> {
    if name in longopts then Some(false)
    else if name + "=" in longopts then Some(true)
    else None
  }

  /** Splits `--name=value` at its first `=`; without `=` there is no attached value. */
  function SplitAtEquals(s: string): (r: (string, Option<string>))
    ensures '=' !in r.0
    ensures r.1.None? ==> r.0 == s
    ensures r.1.Some? ==> s == r.0 + "=" + r.1.value
  {
    if s == [] then ([], None)
    else if s[0] == '=' then ([], Some(s[1..]))
    else
      var (name, value) := SplitAtEquals(s[1..]);
      ([s[0]] + name, value)
  }

  /** A short option the grammar accepts, with an empty value when the flag takes none. */
  predicate IsShort(o: Opt, shortopts: string) {
    |o.name| == 2 && o.name[0] == '-' &&
    match ShortHasArg(o.name[1], shortopts)
    case None => false
    case Some(hasArg) => hasArg || o.value == ""
  }

  /** A long option the grammar accepts, with an empty value when the option takes none; its
      name holds no `=`, since the scan splits at the first one. */
  predicate IsLong(o: Opt, longopts: seq<string>) {
    |o.name| >= 2 && o.name[..2] == "--" && '=' !in o.name[2..] &&
    match LongHasArg(o.name[2..], longopts)
    case None => false
    case Some(hasArg) => hasArg || o.value == ""
  }

  /** An option the scan can produce. */
  predicate Recognized(o: Opt, shortopts: string, longopts: seq<string>) {
    IsShort(o, shortopts) || IsLong(o, longopts)
  }

  /** Scans one cluster of short flags (`-tv`, `-p22`, `-p` followed by a value). */
  function DoShorts(optstring: string, shortopts: string, args: seq<string>): (r: Parsed)
    ensures r.Success? ==> IsSuffix(r.value.1, args)
    ensures r.Success? ==> forall o :: o in r.value.0 ==> IsShort(o, shortopts)
    decreases |optstring|
  {
    if optstring == [] then Success(([], args))
    else
      var c := optstring[0];
      match ShortHasArg(c, shortopts)
      case None => Failure(NotRecognized([c]))
      case Some(true) =>
        if |optstring| > 1 then Success(([Opt("-" + [c], optstring[1..])], args))
        else if args == [] then Failure(RequiresArgument([c]))
        else Success(([Opt("-" + [c], args[0])], args[1..]))
      case Some(false) =>
        match DoShorts(optstring[1..], shortopts, args)
        case Failure(e) => Failure(e)
        case Success((more, rest)) => Success(([Opt("-" + [c], "")] + more, rest))
  }

  /** Scans one long option, given without its leading `--`. */
  function DoLongs(opt: string, longopts: seq<string>, args: seq<string>): (r: Parsed)
    ensures r.Success? ==> IsSuffix(r.value.1, args)
    ensures r.Success? ==> forall o :: o in r.value.0 ==> IsLong(o, longopts)
  {
    var (name, optarg) := SplitAtEquals(opt);
    assert ("--" + name)[2..] == name;
    match LongHasArg(name, longopts)
    case None => Failure(NotRecognized(name))
    case Some(true) =>
      if optarg.Some? then Success(([Opt("--" + name, optarg.value)], args))
      else if args == [] then Failure(RequiresArgument(name))
      else Success(([Opt("--" + name, args[0])], args[1..]))
    case Some(false) =>
      if optarg.Some? then Failure(MustNotHaveArgument(name))
      else Success(([Opt("--" + name, "")], args))
  }

  /** Puts `opts` in front of the options of a successful scan; a failure stays a failure. */
  function Prepend(opts: seq<Opt>, r: Parsed): Parsed {
    match r
    case Failure(e) => Failure(e)
    case Success((more, rest)) => Success((opts + more, rest))
  }

  /** A word that ends the scan and stays positional: a lone `-`, or any word that does not
      begin with a dash, the empty word included. */
  predicate Positional(word: string) {
    word == "-" || !StartsWith(word, "-")
  }

  /** The scan itself: options until the first positional argument (a lone `-` counts as one)
      or until `--`, which is consumed. Returns the options in order and the arguments left. */
  function GetOpt(args: seq<string>, shortopts: string, longopts: seq<string>): (r: Parsed)
    ensures r.Success? ==> IsSuffix(r.value.1, args)
    ensures r.Success? ==> forall o :: o in r.value.0 ==> Recognized(o, shortopts, longopts)
    decreases |args|
  {
    if args == [] || args[0] == "-" || !StartsWith(args[0], "-") then Success(([], args))
    else if args[0] == "--" then Success(([], args[1..]))
    else
      var step :=
        if StartsWith(args[0], "--") then DoLongs(args[0][2..], longopts, args[1..])
        else DoShorts(args[0][1..], shortopts, args[1..]);
      match step
      case Failure(e) => Failure(e)
      case Success((opts, rest)) =>
        var r := Prepend(opts, GetOpt(rest, shortopts, longopts));
        assert r.Success? ==> forall o :: o in r.value.0 ==> o in opts || o in GetOpt(rest, shortopts, longopts).value.0;
        r
  }

  // ---------------------------------------------------------------------------------------
  // Rendering options back into an argument vector: the inverse the scan is proved against.

  /** Whether the option called `name` takes a value in this grammar. */
  predicate TakesValue(name: string, shortopts: string, longopts: seq<string>) {
    if |name| == 2 && name[0] == '-' && name[1] != '-' then ShortHasArg(name[1], shortopts) == Some(true)
    else if |name| >= 2 && name[..2] == "--" then LongHasArg(name[2..], longopts) == Some(true)
    else false
  }

  /** An option that can be written back as argument words and read again unchanged: it is
      recognized and it is not the bare `--`, which would end the scan. */
  predicate Renderable(o: Opt, shortopts: string, longopts: seq<string>) {
    Recognized(o, shortopts, longopts) && o.name != "--"
  }

  /** The argument words of one option: its name alone, or its name then its value. */
  function Words(o: Opt, shortopts: string, longopts: seq<string>): seq<string> {
    if TakesValue(o.name, shortopts, longopts) then [o.name, o.value] else [o.name]
  }

  /** The argument words of `opts`, in order. */
  function Render(opts: seq<Opt>, shortopts: string, longopts: seq<string>): seq<string> {
    if opts == [] then []
    else Words(opts[0], shortopts, longopts) + Render(opts[1..], shortopts, longopts)
  }

  /** Reading one rendered option consumes exactly its words. */
  lemma ScanOne(o: Opt, tail: seq<string>, shortopts: string, longopts: seq<string>)
    requires Renderable(o, shortopts, longopts)
    ensures GetOpt(Words(o, shortopts, longopts) + tail, shortopts, longopts)
            == Prepend([o], GetOpt(tail, shortopts, longopts))
  {
    if IsShort(o, shortopts) {
      ScanOneShort(o, tail, shortopts, longopts);
    } else {
      ScanOneLong(o, tail, shortopts, longopts);
    }
  }

  /** Reading one rendered short option: a single-flag cluster, then its value word if any. */
  lemma ScanOneShort(o: Opt, tail: seq<string>, shortopts: string, longopts: seq<string>)
    requires IsShort(o, shortopts) && o.name != "--"
    ensures GetOpt(Words(o, shortopts, longopts) + tail, shortopts, longopts)
            == Prepend([o], GetOpt(tail, shortopts, longopts))
  {
    var c := o.name[1];
    assert o.name == "-" + [c];
    var args := Words(o, shortopts, longopts) + tail;
    assert args[0] == o.name && args[0][1..] == [c];
    assert args[0][1] == c && "--"[1] == '-';
    if TakesValue(o.name, shortopts, longopts) {
      assert args[1..] == [o.value] + tail;
      ScanValueFlag(c, o.value, tail, shortopts);
    } else {
      assert args[1..] == tail;
      assert o == Opt("-" + [c], "");
      ScanNoValueFlag(c, tail, shortopts);
    }
  }

  /** A cluster of one value-taking flag takes the next word as its value. */
  lemma ScanValueFlag(c: char, v: string, tail: seq<string>, shortopts: string)
    requires ShortHasArg(c, shortopts) == Some(true)
    ensures DoShorts([c], shortopts, [v] + tail) == Success(([Opt("-" + [c], v)], tail))
  {
    var after := [v] + tail;
    assert [c][0] == c && |[c]| == 1;
    assert after[0] == v && after[1..] == tail;
  }

  /** Reading one rendered long option: `--name`, then its value word if it takes one. */
  lemma ScanOneLong(o: Opt, tail: seq<string>, shortopts: string, longopts: seq<string>)
    requires IsLong(o, longopts) && o.name != "--"
    ensures GetOpt(Words(o, shortopts, longopts) + tail, shortopts, longopts)
            == Prepend([o], GetOpt(tail, shortopts, longopts))
  {
    var n := o.name[2..];
    assert o.name == "--" + n;
    var args := Words(o, shortopts, longopts) + tail;
    assert args[0] == o.name && args[0][2..] == n;
    assert StartsWith(args[0], "--") && StartsWith(args[0], "-") by {
      assert args[0][..2] == "--" && args[0][..1] == "-";
    }
    if TakesValue(o.name, shortopts, longopts) {
      assert args[1..] == [o.value] + tail;
      ScanLongValue(o, n, tail, longopts);
    } else {
      assert args[1..] == tail;
      ScanLongFlag(o, n, tail, longopts);
    }
  }

  /** A long option that takes a value takes the next word as its value. */
  lemma ScanLongValue(o: Opt, n: string, tail: seq<string>, longopts: seq<string>)
    requires o.name == "--" + n && '=' !in n && LongHasArg(n, longopts) == Some(true)
    ensures DoLongs(n, longopts, [o.value] + tail) == Success(([o], tail))
  {
    assert SplitAtEquals(n) == (n, None);
    var after := [o.value] + tail;
    assert after[0] == o.value && after[1..] == tail;
  }

  /** A long option without a value consumes nothing after its own word. */
  lemma ScanLongFlag(o: Opt, n: string, tail: seq<string>, longopts: seq<string>)
    requires o.name == "--" + n && '=' !in n && LongHasArg(n, longopts) == Some(false)
    requires o.value == ""
    ensures DoLongs(n, longopts, tail) == Success(([o], tail))
  {
    assert SplitAtEquals(n) == (n, None);
  }

  /** Scanning rendered options, then anything else, yields those options then the scan of
      the rest. */
  lemma {:induction false} ScanRendered(opts: seq<Opt>, tail: seq<string>, shortopts: string, longopts: seq<string>)
    requires forall o :: o in opts ==> Renderable(o, shortopts, longopts)
    ensures GetOpt(Render(opts, shortopts, longopts) + tail, shortopts, longopts)
            == Prepend(opts, GetOpt(tail, shortopts, longopts))
    decreases |opts|
  {
    var rest := GetOpt(tail, shortopts, longopts);
    if opts == [] {
      assert Render(opts, shortopts, longopts) + tail == tail;
      assert rest.Success? ==> opts + rest.value.0 == rest.value.0;
    } else {
      var o, others := opts[0], opts[1..];
      var later := Render(others, shortopts, longopts) + tail;
      var words := Words(o, shortopts, longopts);
      assert Render(opts, shortopts, longopts) + tail == words + later;
      assert opts == [o] + others;
      ScanOne(o, later, shortopts, longopts);
      ScanRendered(others, tail, shortopts, longopts);
      assert GetOpt(words + later, shortopts, longopts) == Prepend([o], Prepend(others, rest));
      PrependTwice([o], others, rest);
    }
  }

  /** Prepending twice is prepending the concatenation. */
  lemma PrependTwice(a: seq<Opt>, b: seq<Opt>, r: Parsed)
    ensures Prepend(a, Prepend(b, r)) == Prepend(a + b, r)
  {
    if r.Success? {
      assert a + (b + r.value.0) == a + b + r.value.0;
    }
  }

  /** Round trip: rendered options followed by `--` and positional arguments scan back to
      exactly those options and those arguments. */
  lemma ScanRoundTrip(opts: seq<Opt>, positional: seq<string>, shortopts: string, longopts: seq<string>)
    requires forall o :: o in opts ==> Renderable(o, shortopts, longopts)
    ensures GetOpt(Render(opts, shortopts, longopts) + ["--"] + positional, shortopts, longopts)
            == Success((opts, positional))
  {
    var words := Render(opts, shortopts, longopts);
    assert words + ["--"] + positional == words + (["--"] + positional);
    ScanRendered(opts, ["--"] + positional, shortopts, longopts);
    ScanSeparator(positional, shortopts, longopts);
    assert opts + [] == opts;
  }

  /** `--` ends the scan and is consumed. */
  lemma ScanSeparator(positional: seq<string>, shortopts: string, longopts: seq<string>)
    ensures GetOpt(["--"] + positional, shortopts, longopts) == Success(([], positional))
  {
    var args := ["--"] + positional;
    assert args[0] == "--" && args[1..] == positional;
  }

  /** A positional word (a lone `-`, the empty word, or a word not beginning with a dash)
      ends the scan and is left in place. */
  lemma ScanStopsAtPositional(word: string, rest: seq<string>, shortopts: string, longopts: seq<string>)
    requires Positional(word)
    ensures GetOpt([word] + rest, shortopts, longopts) == Success(([], [word] + rest))
  {
    assert ([word] + rest)[0] == word;
  }

  /** A bare flag followed by a positional word scans to that flag and leaves the word. */
  lemma FlagThenPositional(c: char, d: string, shortopts: string, longopts: seq<string>)
    requires c != '-' && ShortHasArg(c, shortopts) == Some(false)
    requires Positional(d)
    ensures GetOpt(["-" + [c], d], shortopts, longopts) == Success(([Opt("-" + [c], "")], [d]))
  {
    var args := ["-" + [c], d];
    assert args[0][1..] == [c] && args[1..] == [d];
    assert args[0][1] == c && "--"[1] == '-';
    ScanNoValueFlag(c, [d], shortopts);
    ScanStopsAtPositional(d, [], shortopts, longopts);
    assert [d] + [] == [d];
    assert [Opt("-" + [c], "")] + [] == [Opt("-" + [c], "")];
  }

  /** A cluster of one flag that takes no value yields that flag with an empty value. */
  lemma ScanNoValueFlag(c: char, rest: seq<string>, shortopts: string)
    requires ShortHasArg(c, shortopts) == Some(false)
    ensures DoShorts([c], shortopts, rest) == Success(([Opt("-" + [c], "")], rest))
  {
    assert [c][0] == c && [c][1..] == [];
    assert [Opt("-" + [c], "")] + [] == [Opt("-" + [c], "")];
  }

  /** A flag outside the grammar makes the scan fail, naming the flag. */
  lemma ScanUnknownFlag(c: char, rest: seq<string>, shortopts: string, longopts: seq<string>)
    requires c != '-' && ShortHasArg(c, shortopts).None?
    ensures GetOpt(["-" + [c]] + rest, shortopts, longopts) == Failure(NotRecognized([c]))
  {
    var args := ["-" + [c]] + rest;
    assert args[0] == "-" + [c] && args[0][1..] == [c];
    assert args[0][1] == c && "--"[1] == '-';
    assert [c][0] == c;
  }

  /** A value-taking flag as the last word makes the scan fail: its value is missing. */
  lemma ScanMissingValue(c: char, shortopts: string, longopts: seq<string>)
    requires c != '-' && ShortHasArg(c, shortopts) == Some(true)
    ensures GetOpt(["-" + [c]], shortopts, longopts) == Failure(RequiresArgument([c]))
  {
    var args := ["-" + [c]];
    assert args[0][1..] == [c] && args[1..] == [];
    assert args[0][1] == c && "--"[1] == '-';
    assert [c][0] == c && |[c]| == 1;
  }

  /** A value attached to a value-taking flag (`-p22`) is that flag's value. */
  lemma ScanAttachedShort(c: char, v: string, rest: seq<string>, shortopts: string, longopts: seq<string>)
    requires c != '-' && ShortHasArg(c, shortopts) == Some(true) && v != []
    ensures GetOpt(["-" + [c] + v] + rest, shortopts, longopts)
            == Prepend([Opt("-" + [c], v)], GetOpt(rest, shortopts, longopts))
  {
    var w := "-" + [c] + v;
    assert |w| >= 3 && w[0] == '-' && w[1] == c && w[1..] == [c] + v;
    assert StartsWith(w, "-") && w != "-" && w != "--" by { assert w[..1] == "-"; }
    assert !StartsWith(w, "--") by { assert w[1] != "--"[1]; }
    var args := [w] + rest;
    assert args[0] == w && args[1..] == rest;
    ScanAttachedValue(c, v, rest, shortopts);
  }

  /** The cluster of a value-taking flag and an attached value yields that one option. */
  lemma ScanAttachedValue(c: char, v: string, rest: seq<string>, shortopts: string)
    requires ShortHasArg(c, shortopts) == Some(true) && v != []
    ensures DoShorts([c] + v, shortopts, rest) == Success(([Opt("-" + [c], v)], rest))
  {
    assert ([c] + v)[0] == c && ([c] + v)[1..] == v && |[c] + v| > 1;
  }

  /** A value-taking flag with its value attached, then a positional word: the scan yields
      that option and leaves the word. */
  lemma AttachedThenPositional(c: char, v: string, d: string, shortopts: string, longopts: seq<string>)
    requires c != '-' && ShortHasArg(c, shortopts) == Some(true) && v != []
    requires Positional(d)
    ensures GetOpt(["-" + [c] + v, d], shortopts, longopts) == Success(([Opt("-" + [c], v)], [d]))
  {
    ScanAttachedShort(c, v, [d], shortopts, longopts);
    ScanStopsAtPositional(d, [], shortopts, longopts);
    assert ["-" + [c] + v] + [d] == ["-" + [c] + v, d] && [d] + [] == [d];
    assert [Opt("-" + [c], v)] + [] == [Opt("-" + [c], v)];
  }

  /** A cluster of two no-value flags (`-tv`) yields both, in order. */
  lemma ScanCluster(c: char, d: char, rest: seq<string>, shortopts: string, longopts: seq<string>)
    requires c != '-' && ShortHasArg(c, shortopts) == Some(false) && ShortHasArg(d, shortopts) == Some(false)
    ensures GetOpt(["-" + [c, d]] + rest, shortopts, longopts)
            == Prepend([Opt("-" + [c], ""), Opt("-" + [d], "")], GetOpt(rest, shortopts, longopts))
  {
    var args := ["-" + [c, d]] + rest;
    assert args[0][1..] == [c, d] && args[1..] == rest;
    assert args[0][1] == c && "--"[1] == '-';
    assert [c, d][0] == c && [c, d][1..] == [d];
    ScanNoValueFlag(d, rest, shortopts);
    assert [Opt("-" + [c], "")] + [Opt("-" + [d], "")] == [Opt("-" + [c], ""), Opt("-" + [d], "")];
  }

  /** `--name=value` gives a value-taking long option its value in the same word. */
  lemma ScanAttachedLong(n: string, v: string, rest: seq<string>, shortopts: string, longopts: seq<string>)
    requires '=' !in n && LongHasArg(n, longopts) == Some(true)
    ensures GetOpt(["--" + n + "=" + v] + rest, shortopts, longopts)
            == Prepend([Opt("--" + n, v)], GetOpt(rest, shortopts, longopts))
  {
    var w := "--" + n + "=" + v;
    var args := [w] + rest;
    assert args[0] == w && args[1..] == rest;
    assert w[..2] == "--" && w[..1] == "-" && w != "--" && w != "-";
    assert w[2..] == n + "=" + v;
    SplitAtFirstEquals(n, v);
  }

  /** A word without `=`, then `=`, splits at that `=`. */
  lemma {:induction false} SplitAtFirstEquals(n: string, v: string)
    requires '=' !in n
    ensures SplitAtEquals(n + "=" + v) == (n, Some(v))
    decreases |n|
  {
    var s := n + "=" + v;
    if n == [] {
      assert s == "=" + v && s[1..] == v;
    } else {
      assert s[0] == n[0] && s[1..] == n[1..] + "=" + v;
      assert '=' !in n[1..];
      SplitAtFirstEquals(n[1..], v);
      assert [n[0]] + n[1..] == n;
    }
  }

  /** A value attached to a long option that takes none (`--arc=x`) makes the scan fail. */
  lemma ScanUnwantedValue(n: string, v: string, rest: seq<string>, shortopts: string, longopts: seq<string>)
    requires '=' !in n && LongHasArg(n, longopts) == Some(false)
    ensures GetOpt(["--" + n + "=" + v] + rest, shortopts, longopts) == Failure(MustNotHaveArgument(n))
  {
    var w := "--" + n + "=" + v;
    var args := [w] + rest;
    assert args[0] == w && args[1..] == rest;
    assert w[..2] == "--" && w[..1] == "-" && w != "--" && w != "-";
    assert w[2..] == n + "=" + v;
    SplitAtFirstEquals(n, v);
  }

  /** A long option outside the list makes the scan fail, naming it without any `=value`. */
  lemma ScanUnknownLong(n: string, rest: seq<string>, shortopts: string, longopts: seq<string>)
    requires n != [] && LongHasArg(SplitAtEquals(n).0, longopts).None?
    ensures GetOpt(["--" + n] + rest, shortopts, longopts) == Failure(NotRecognized(SplitAtEquals(n).0))
  {
    var w := "--" + n;
    var args := [w] + rest;
    assert args[0] == w && args[1..] == rest;
    assert w[..2] == "--" && w[..1] == "-" && w != "--" && w != "-";
    assert w[2..] == n;
  }

  /** A value-taking long option as the last word makes the scan fail: its value is missing. */
  lemma ScanMissingLongValue(n: string, shortopts: string, longopts: seq<string>)
    requires n != [] && '=' !in n && LongHasArg(n, longopts) == Some(true)
    ensures GetOpt(["--" + n], shortopts, longopts) == Failure(RequiresArgument(n))
  {
    var w := "--" + n;
    var args := [w];
    assert args[0] == w && args[1..] == [];
    assert w[..2] == "--" && w[..1] == "-" && w != "--" && w != "-";
    assert w[2..] == n;
    assert SplitAtEquals(n) == (n, None);
  }
}
