/**
 * Config: the command line options, the directive tree read from the
 * configuration file, and the lookups the server makes in it (the vhost
 * with its fallback to the default vhost, and the per-vhost directives).
 */
module ConfConfig {
  import opened ConfLexer
  import opened ConfTree
  import opened ConfBuffer
  import opened ConfParser

  /** show_help, show_version and config_file, as parse_argv leaves them. */
  datatype Options = Options(help: bool, version: bool, file: Option<string>)

  /**
   * What one parse_argv call yields: whether it succeeded, the options, and
   * the argv index `i` it leaves behind (one further when `-c` took the
   * next entry as its file name).
   */
  datatype ArgStep = ArgStep(ok: bool, opts: Options, next: nat)

  /** How parse_options ends: it returns a status, or exit(0) after help or version output. */
  datatype Outcome = Returned(status: Status) | Exited

  /** The option letters that only set a flag. */
  predicate IsFlagLetter(ch: char) {
    ch == '?' || ch == 'h' || ch == 'v' || ch == 'V'
  }

  predicate AllFlagLetters(fl: string) {
    forall k :: 0 <= k < |fl| ==> IsFlagLetter(fl[k])
  }

  /** Whether `fl` holds a letter that asks for help, or for the version. */
  predicate AsksHelp(fl: string) {
    '?' in fl || 'h' in fl
  }

  predicate AsksVersion(fl: string) {
    'v' in fl || 'V' in fl
  }

  /**
   * The loop of parse_argv over the option letters `arg[k..]` of
   * `argv[i]`: flag letters set their flag, `c` takes the rest of the
   * argument or else the next entry of `argv` (whose terminating NULL is
   * its end), and any other letter is an error.
   */
  function ScanLetters(arg: string, k: nat, i: nat, argv: seq<string>, o: Options): (r: ArgStep)
    requires k <= |arg|
    ensures r.next == i || r.next == i + 1
    ensures (o.help ==> r.opts.help) && (o.version ==> r.opts.version)
    ensures r.opts.file != o.file ==> r.ok && r.opts.file.Some?
    ensures r.ok && r.next != i ==> r.next < |argv|
    decreases |arg| - k
  {
    if k == |arg| then ArgStep(true, o, i)
    else if arg[k] == '?' || arg[k] == 'h' then ScanLetters(arg, k + 1, i, argv, o.(help := true))
    else if arg[k] == 'v' || arg[k] == 'V' then ScanLetters(arg, k + 1, i, argv, o.(version := true))
    else if arg[k] == 'c' then
      if k + 1 < |arg| then ArgStep(true, o.(file := Some(arg[k + 1..])), i)
      else if i + 1 < |argv| then ArgStep(true, o.(file := Some(CString(argv[i + 1]))), i + 1)
      else ArgStep(false, o, i + 1)
    else ArgStep(false, o, i)
  }

  /**
   * parse_argv(i, argv) on the options `o`: the argument, read as a C
   * string, must start with `-`; the letters after it are then scanned.
   */
  function ArgvStep(i: nat, argv: seq<string>, o: Options): (r: ArgStep)
    requires i < |argv|
    ensures r.ok ==> |CString(argv[i])| > 0 && CString(argv[i])[0] == '-'
    ensures r.next == i || r.next == i + 1
    ensures r.ok ==> r.next < |argv|
    ensures (o.help ==> r.opts.help) && (o.version ==> r.opts.version)
    ensures r.opts.file == o.file || r.opts.file.Some?
  {
    var arg := CString(argv[i]);
    if |arg| == 0 || arg[0] != '-' then ArgStep(false, o, i) else ScanLetters(arg, 1, i, argv, o)
  }

  /** `o` after the flag letters `fl`. */
  function WithFlags(o: Options, fl: string): Options {
    o.(help := o.help || AsksHelp(fl), version := o.version || AsksVersion(fl))
  }

  /** A run of flag letters only sets flags and goes on scanning after them. */
  lemma {:induction false} FlagLettersRun(arg: string, k: nat, fl: string, i: nat, argv: seq<string>, o: Options)
    requires k + |fl| <= |arg| && arg[k..k + |fl|] == fl && AllFlagLetters(fl)
    ensures ScanLetters(arg, k, i, argv, o) == ScanLetters(arg, k + |fl|, i, argv, WithFlags(o, fl))
    decreases |fl|
  {
    if fl != [] {
      assert arg[k] == fl[0] && IsFlagLetter(fl[0]);
      assert arg[k + 1..k + |fl|] == fl[1..];
      var o' := WithFlags(o, [fl[0]]);
      FlagLettersRun(arg, k + 1, fl[1..], i, argv, o');
      assert fl == [fl[0]] + fl[1..];
      assert WithFlags(o', fl[1..]) == WithFlags(o, fl);
    }
  }

  /** Flag letters leave the NUL-free argument `['-'] + fl + tail` as it is. */
  lemma DashArgument(fl: string, tail: string)
    requires AllFlagLetters(fl) && '\0' !in tail
    ensures CString(['-'] + fl + tail) == ['-'] + fl + tail
  {
    var a := ['-'] + fl + tail;
    assert '\0' !in a;
    PlainWordKept(a);
  }

  /** `-` followed by flag letters sets the flags they name and nothing else. */
  lemma FlagOptions(i: nat, argv: seq<string>, fl: string, o: Options)
    requires i < |argv| && argv[i] == ['-'] + fl && AllFlagLetters(fl)
    ensures ArgvStep(i, argv, o) == ArgStep(true, WithFlags(o, fl), i)
  {
    DashArgument(fl, []);
    assert ['-'] + fl + [] == argv[i];
    FlagLettersRun(argv[i], 1, fl, i, argv, o);
  }

  /** `-c` followed by a file name in the same argument sets that file. */
  lemma InlineConfigFile(i: nat, argv: seq<string>, fl: string, path: string, o: Options)
    requires i < |argv| && argv[i] == ['-'] + fl + ['c'] + path && AllFlagLetters(fl)
    requires path != [] && '\0' !in path
    ensures ArgvStep(i, argv, o) == ArgStep(true, WithFlags(o, fl).(file := Some(path)), i)
  {
    var a := argv[i];
    DashArgument(fl, ['c'] + path);
    assert a == ['-'] + fl + (['c'] + path);
    FlagLettersRun(a, 1, fl, i, argv, o);
    assert a[1 + |fl|] == 'c' && a[2 + |fl|..] == path;
  }

  /**
   * `-c` ending its argument takes the next entry as the file name and
   * advances `i` past it; with no next entry it is an error.
   */
  lemma NextConfigFile(i: nat, argv: seq<string>, fl: string, o: Options)
    requires i < |argv| && argv[i] == ['-'] + fl + ['c'] && AllFlagLetters(fl)
    ensures ArgvStep(i, argv, o)
         == if i + 1 < |argv| then ArgStep(true, WithFlags(o, fl).(file := Some(CString(argv[i + 1]))), i + 1)
            else ArgStep(false, WithFlags(o, fl), i + 1)
  {
    DashArgument(fl, ['c']);
    FlagLettersRun(argv[i], 1, fl, i, argv, o);
    assert argv[i][1 + |fl|] == 'c';
  }

  /** An argument not starting with `-` is an error and changes nothing. */
  lemma NotAnOption(i: nat, argv: seq<string>, o: Options)
    requires i < |argv| && '\0' !in argv[i] && (argv[i] == [] || argv[i][0] != '-')
    ensures ArgvStep(i, argv, o) == ArgStep(false, o, i)
  {
    PlainWordKept(argv[i]);
  }

  /** A letter other than `?`, `h`, `v`, `V` and `c` is an error; the flags before it stay set. */
  lemma UnknownOption(i: nat, argv: seq<string>, fl: string, ch: char, tail: string, o: Options)
    requires i < |argv| && argv[i] == ['-'] + fl + [ch] + tail && AllFlagLetters(fl)
    requires !IsFlagLetter(ch) && ch != 'c' && ch != '\0' && '\0' !in tail
    ensures ArgvStep(i, argv, o) == ArgStep(false, WithFlags(o, fl), i)
  {
    var a := argv[i];
    assert '\0' !in [ch] + tail;
    DashArgument(fl, [ch] + tail);
    assert a == ['-'] + fl + ([ch] + tail);
    FlagLettersRun(a, 1, fl, i, argv, o);
    assert a[1 + |fl|] == ch;
  }

  /**
   * The argument loop of parse_options from index `i`: each entry goes to
   * parse_argv, which may consume the next one too; the first error ends it.
   */
  function ScanArgs(argv: seq<string>, i: nat, o: Options): (r: ArgStep)
    ensures r.ok ==> r.next == (if i < |argv| then |argv| else i)
    ensures !r.ok ==> i <= r.next <= |argv|
    ensures (o.help ==> r.opts.help) && (o.version ==> r.opts.version)
    ensures r.opts.file == o.file || r.opts.file.Some?
    decreases |argv| - i
  {
    if i >= |argv| then ArgStep(true, o, i)
    else
      var step := ArgvStep(i, argv, o);
      if !step.ok then step else ScanArgs(argv, step.next + 1, step.opts)
  }

  /** The usual command line `prog -c file` names the configuration file and nothing else. */
  lemma ConfigFileArgument(argv: seq<string>, o: Options)
    requires |argv| == 3 && argv[1] == "-c" && '\0' !in argv[2]
    ensures ScanArgs(argv, 1, o) == ArgStep(true, o.(file := Some(argv[2])), 3)
  {
    assert argv[1] == ['-'] + [] + ['c'];
    NextConfigFile(1, argv, [], o);
    PlainWordKept(argv[2]);
    assert WithFlags(o, []) == o;
  }

  /**
   * The rest of parse_options once the arguments are scanned into `o`, on
   * the file system `files` and the tree `root`: exit after help or
   * version, INVALID without a config file or when it cannot be opened,
   * the parse status when parsing fails, and INVALID unless a `listen`
   * directive with arguments was read. The new tree holds the directives
   * parsed, appended to those `root` already had.
   */
  function FinishOptions(o: Options, files: map<string, FileImage>, root: Node): (r: (Outcome, Node))
    ensures r.1.name == root.name && r.1.args == root.args && r.1.line == root.line
    ensures root.children <= r.1.children
    ensures !o.help && !o.version && o.file.Some? && o.file.value in files
            ==> r.1.children == ParseFile(files[o.file.value], root.children).children
    ensures !o.help && !o.version && (o.file.None? || o.file.value !in files) ==> r == (Returned(Failed(Invalid)), root)
    ensures r.0 == Returned(Ok) <==> && !o.help && !o.version && o.file.Some? && o.file.value in files
                                     && ParseFile(files[o.file.value], root.children).status == Ok
                                     && r.1.Get("listen").Some? && |r.1.Get("listen").value.args| > 0
    ensures r.0 == Returned(Ok) ==> |files[o.file.value].bytes| <= Capacity
    ensures !o.help && !o.version && o.file.Some? && o.file.value in files
            && ParseFile(files[o.file.value], root.children).status != Ok
            ==> r.0 == Returned(ParseFile(files[o.file.value], root.children).status)
    ensures r.0 == Exited <==> o.help || o.version
    ensures r.0.Returned? && r.0.status != Ok ==> r.0.status.code == Invalid || r.0.status.code == Eof || r.0.status.code == BlockEnd
  {
    if o.help || o.version then (Exited, root)
    else if o.file.None? || o.file.value !in files then (Returned(Failed(Invalid)), root)
    else
      var p := ParseFile(files[o.file.value], root.children);
      var root' := root.(children := p.children);
      if p.status != Ok then (Returned(p.status), root')
      else
        var listen := root'.Get("listen");
        if listen.None? || |listen.value.args| == 0 then (Returned(Failed(Invalid)), root')
        else (Returned(Ok), root')
  }

  /** `n` is a `vhost` directive whose first argument is `v`. */
  predicate IsVhostFor(n: Node, v: string) {
    n.name == "vhost" && n.Arg0() == v
  }

  /** `ns[i]` is the first `vhost v` directive of `ns`. */
  predicate IsFirstVhost(ns: seq<Node>, v: string, i: int) {
    0 <= i < |ns| && IsVhostFor(ns[i], v) && forall j :: 0 <= j < i ==> !IsVhostFor(ns[j], v)
  }

  /** The scan of get_vhost over the root's directives. */
  function FindVhost(ns: seq<Node>, v: string): (r: Option<Node>)
    ensures r.Some? <==> exists i :: 0 <= i < |ns| && IsVhostFor(ns[i], v)
    ensures r.Some? ==> exists i :: IsFirstVhost(ns, v, i) && ns[i] == r.value
    decreases |ns|
  {
    if ns == [] then None
    else if IsVhostFor(ns[0], v) then
      assert IsFirstVhost(ns, v, 0);
      Some(ns[0])
    else
      var r := FindVhost(ns[1..], v);
      assert forall i :: 0 < i < |ns| ==> ns[i] == ns[1..][i - 1];
      if r.Some? then
        var k :| IsFirstVhost(ns[1..], v, k) && ns[1..][k] == r.value;
        assert IsFirstVhost(ns, v, k + 1);
        r
      else r
  }

  /** Config: the options from the command line and the configuration tree. */
  class Config {
    var showHelp: bool
    var showVersion: bool
    var configFile: Option<string>
    var root: Node
    /** RTMP_VHOST_DEFAULT, whose value is not part of this model. */
    const defaultVhost: string

    /** Config(): no options, and the empty tree `root` at line 0. */
    constructor(defaultVhost: string)
      ensures !showHelp && !showVersion && configFile == None
      ensures root == Node("root", [], 0, []) && this.defaultVhost == defaultVhost
    {
      showHelp, showVersion, configFile := false, false, None;
      root := Node("root", [], 0, []);
      this.defaultVhost := defaultVhost;
    }

    function Opts(): Options
      reads this
    {
      Options(showHelp, showVersion, configFile)
    }

    /** The tree has a `vhost v` directive at top level. */
    ghost predicate HasVhost(v: string)
      reads this
    {
      exists i :: 0 <= i < |root.children| && IsVhostFor(root.children[i], v)
    }

    /**
     * get_vhost(v): the first `vhost v` directive; failing that, the first
     * one for the default vhost; failing that, none.
     */
    function GetVhost(v: string): (r: Option<Node>)
      reads this
      ensures r.Some? <==> HasVhost(v) || (v != defaultVhost && HasVhost(defaultVhost))
      ensures HasVhost(v) ==> exists i :: IsFirstVhost(root.children, v, i) && r == Some(root.children[i])
      ensures !HasVhost(v) && r.Some? ==> exists i :: IsFirstVhost(root.children, defaultVhost, i) && r == Some(root.children[i])
      decreases if v == defaultVhost then 0 else 1
    {
      var conf := FindVhost(root.children, v);
      if conf.Some? then conf
      else if v != defaultVhost then GetVhost(defaultVhost)
      else None
    }

    /**
     * `r` is what the get_* wrappers answer for the directive `name`: the
     * first directive of that name inside the vhost get_vhost finds, none
     * when there is no such vhost or directive.
     */
    ghost predicate VhostAnswer(v: string, name: string, r: Option<Node>)
      reads this
    {
      var conf := GetVhost(v);
      && (r.Some? <==> conf.Some? && exists i :: 0 <= i < |conf.value.children| && conf.value.children[i].name == name)
      && (r.Some? ==> exists i :: IsFirstNamed(conf.value.children, name, i) && conf.value.children[i] == r.value)
    }

    /** get_gop_cache(v). */
    function GetGopCache(v: string): (r: Option<Node>)
      reads this
      ensures VhostAnswer(v, "gop_cache", r)
    {
      var conf := GetVhost(v);
      if conf.None? then None else conf.value.Get("gop_cache")
    }

    /** get_refer(v). */
    function GetRefer(v: string): (r: Option<Node>)
      reads this
      ensures VhostAnswer(v, "refer", r)
    {
      var conf := GetVhost(v);
      if conf.None? then None else conf.value.Get("refer")
    }

    /** get_refer_play(v). */
    function GetReferPlay(v: string): (r: Option<Node>)
      reads this
      ensures VhostAnswer(v, "refer_play", r)
    {
      var conf := GetVhost(v);
      if conf.None? then None else conf.value.Get("refer_play")
    }

    /** get_refer_publish(v). */
    function GetReferPublish(v: string): (r: Option<Node>)
      reads this
      ensures VhostAnswer(v, "refer_publish", r)
    {
      var conf := GetVhost(v);
      if conf.None? then None else conf.value.Get("refer_publish")
    }

    /** get_listen(): the first top-level `listen` directive. */
    function GetListen(): (r: Option<Node>)
      reads this
      ensures r.Some? <==> exists i :: 0 <= i < |root.children| && root.children[i].name == "listen"
      ensures r.Some? ==> exists i :: IsFirstNamed(root.children, "listen", i) && root.children[i] == r.value
    {
      root.Get("listen")
    }

    /**
     * parse_argv(i, argv): scans the option letters of `argv[i]` into the
     * options; `i'` is `i` advanced past a file name taken from the next
     * entry.
     */
    method ParseArgv(i: nat, argv: seq<string>) returns (status: Status, i': nat)
      requires i < |argv|
      modifies this`showHelp, this`showVersion, this`configFile
      ensures var r := ArgvStep(i, argv, old(Opts()));
              status == (if r.ok then Ok else Failed(Invalid)) && Opts() == r.opts && i' == r.next
    {
      i' := i;
      var arg := CString(argv[i]);
      if |arg| == 0 || arg[0] != '-' {
        return Failed(Invalid), i';
      }
      ghost var goal := ArgvStep(i, argv, Opts());
      var k := 1;
      while k < |arg|
        invariant 1 <= k <= |arg| && i' == i
        invariant ScanLetters(arg, k, i, argv, Opts()) == goal
        decreases |arg| - k
      {
        var ch := arg[k];
        k := k + 1;
        if ch == '?' || ch == 'h' {
          showHelp := true;
        } else if ch == 'v' || ch == 'V' {
          showVersion := true;
        } else if ch == 'c' {
          if k < |arg| {
            configFile := Some(arg[k..]);
            return Ok, i';
          }
          i' := i' + 1;
          if i' < |argv| {
            configFile := Some(CString(argv[i']));
            return Ok, i';
          }
          return Failed(Invalid), i';
        } else {
          return Failed(Invalid), i';
        }
      }
      status := Ok;
    }

    /**
     * parse_options(argc, argv), with `files` the files open() can find:
     * the options are scanned, then the configuration file is parsed into
     * `root` and checked for a `listen` directive.
     */
    method ParseOptions(argv: seq<string>, files: map<string, FileImage>) returns (outcome: Outcome)
      modifies this`showHelp, this`showVersion, this`configFile, this`root
      ensures var scan := ScanArgs(argv, 1, old(Opts()));
              && Opts() == scan.opts
              && (!scan.ok ==> outcome == Returned(Failed(Invalid)) && root == old(root))
              && (scan.ok ==> (outcome, root) == FinishOptions(scan.opts, files, old(root)))
    {
      ghost var goal := ScanArgs(argv, 1, Opts());
      var i := 1;
      while i < |argv|
        invariant 1 <= i && root == old(root)
        invariant ScanArgs(argv, i, Opts()) == goal
        decreases |argv| - i
      {
        var status;
        status, i := ParseArgv(i, argv);
        if status != Ok {
          return Returned(status);
        }
        i := i + 1;
      }
      if showHelp || showVersion {
        return Exited;
      }
      if configFile.None? {
        return Returned(Failed(Invalid));
      }
      var f := if configFile.value in files then Some(files[configFile.value]) else None;
      var status, children := Parse(f, root.children);
      root := root.(children := children);
      if status != Ok {
        return Returned(status);
      }
      var listen := GetListen();
      if listen.None? || |listen.value.args| == 0 {
        return Returned(Failed(Invalid));
      }
      outcome := Returned(Ok);
    }
  }
}
