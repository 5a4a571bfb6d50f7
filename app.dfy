/** The application: its builder, its top-level dispatch and its help text. */
module Apps {
  import opened Types
  import opened Normalizer
  import Commands

  type Command = Commands.Command

  datatype App = App(usage: string, commands: seq<Command>, action: Action)

  /** `App::default`, which `App::new` returns. */
  function Default(): (app: App)
    ensures app.usage == "cli [command] [arg]" && app.commands == [] && app.action == DefaultAppAction
  {
    App("cli [command] [arg]", [], DefaultAppAction)
  }

  function New(): (app: App)
    ensures app == Default() && app.commands == [] && app.usage == "cli [command] [arg]"
  {
    Default()
  }

  function WithUsage(app: App, usage: string): (r: App)
    ensures r.usage == usage && r.commands == app.commands && r.action == app.action
  {
    app.(usage := usage)
  }

  function WithAction(app: App, action: Action): (r: App)
    ensures r.action == action && r.usage == app.usage && r.commands == app.commands
  {
    app.(action := action)
  }

  // ---------------------------------------------------------------------------
  // Registering commands
  // ---------------------------------------------------------------------------

  /** Registering a command either yields the extended app or fails, where the
      library panics, because the name is taken. */
  datatype Registration = Registered(app: App) | AlreadyRegistered(name: string)

  predicate NameTaken(commands: seq<Command>, name: string) {
    exists j :: 0 <= j < |commands| && commands[j].name == name
  }

  predicate NamesDistinct(commands: seq<Command>) {
    forall i, j :: 0 <= i < j < |commands| ==> commands[i].name != commands[j].name
  }

  /** The specification of `App::command`. */
  function WithCommand(app: App, c: Command): Registration {
    if NameTaken(app.commands, c.name) then AlreadyRegistered(c.name)
    else Registered(app.(commands := app.commands + [c]))
  }

  /** `App::command`: scan the registered commands for the new name, then push. */
  method AddCommand(app: App, c: Command) returns (r: Registration)
    ensures r == WithCommand(app, c)
    ensures r.AlreadyRegistered? <==> exists j :: 0 <= j < |app.commands| && app.commands[j].name == c.name
    ensures r.AlreadyRegistered? ==> r.name == c.name
    ensures r.Registered? ==> r.app.commands == app.commands + [c] && r.app.usage == app.usage && r.app.action == app.action
  {
    var i := 0;
    while i < |app.commands|
      invariant i <= |app.commands|
      invariant forall j :: 0 <= j < i ==> app.commands[j].name != c.name
    {
      if app.commands[i].name == c.name {
        return AlreadyRegistered(c.name);
      }
      i := i + 1;
    }
    r := Registered(app.(commands := app.commands + [c]));
  }

  /** A chain of `.command(..)` calls; the first refusal ends the chain. */
  function WithCommands(app: App, cs: seq<Command>): Registration
    decreases |cs|
  {
    if cs == [] then Registered(app)
    else
      match WithCommands(app, cs[..|cs| - 1])
      case Registered(a) => WithCommand(a, cs[|cs| - 1])
      case AlreadyRegistered(n) => AlreadyRegistered(n)
  }

  /** A chain of registrations succeeds exactly when all names, the earlier
      ones included, are pairwise distinct, and then the commands are the
      earlier ones followed by the new ones in call order. */
  lemma {:induction false} WithCommandsDistinct(app: App, cs: seq<Command>)
    requires NamesDistinct(app.commands)
    ensures var r := WithCommands(app, cs);
      (r.Registered? <==> NamesDistinct(app.commands + cs)) &&
      (r.Registered? ==> r.app == app.(commands := app.commands + cs))
    decreases |cs|
  {
    if cs != [] {
      var init, last := cs[..|cs| - 1], cs[|cs| - 1];
      WithCommandsDistinct(app, init);
      var all := app.commands + cs;
      assert all == app.commands + init + [last];
      assert forall k :: 0 <= k < |app.commands + init| ==> (app.commands + init)[k] == all[k];
      if !NamesDistinct(app.commands + init) {
        var i, j :| 0 <= i < j < |app.commands + init| && (app.commands + init)[i].name == (app.commands + init)[j].name;
        assert all[i].name == all[j].name;
      } else if NameTaken(app.commands + init, last.name) {
        var j :| 0 <= j < |app.commands + init| && (app.commands + init)[j].name == last.name;
        assert all[j].name == all[|all| - 1].name;
      }
    }
  }

  /** Registering never changes which command an already matching token
      selects; a token nothing matched before selects the new command exactly
      when the new command matches it. */
  lemma WithCommandKeepsLookup(app: App, c: Command, token: string)
    requires WithCommand(app, c).Registered?
    ensures var found := Find(WithCommand(app, c).app.commands, token);
      if Find(app.commands, token).Some? then found == Find(app.commands, token)
      else found == (if Matches(c, token) then Some(|app.commands|) else None)
  {
    var cs := WithCommand(app, c).app.commands;
    assert cs == app.commands + [c];
    var found := Find(cs, token);
    if Find(app.commands, token).Some? {
      var i := Find(app.commands, token).value;
      assert FirstMatch(cs, token, i);
      FirstMatchUnique(cs, token, i, found);
    } else if Matches(c, token) {
      assert FirstMatch(cs, token, |app.commands|);
      FirstMatchUnique(cs, token, |app.commands|, found);
    } else {
      assert forall j :: 0 <= j < |cs| ==> !Matches(cs[j], token);
    }
  }

  // ---------------------------------------------------------------------------
  // Looking up and dispatching
  // ---------------------------------------------------------------------------

  /** A command matches a token equal to its name or to one of its aliases. */
  predicate Matches(c: Command, token: string) {
    match c.alias
    case Some(alias) => c.name == token || token in alias
    case None => c.name == token
  }

  predicate FirstMatch(commands: seq<Command>, token: string, i: nat) {
    i < |commands| && Matches(commands[i], token) &&
    forall j :: 0 <= j < i ==> !Matches(commands[j], token)
  }

  /** `commands.iter().find(..)`: the first matching command in registration order. */
  function Find(commands: seq<Command>, token: string): (r: Option<nat>)
    ensures r.Some? ==> FirstMatch(commands, token, r.value)
    ensures r.None? <==> forall j :: 0 <= j < |commands| ==> !Matches(commands[j], token)
    decreases |commands|
  {
    if commands == [] then None
    else if Matches(commands[0], token) then Some(0)
    else
      match Find(commands[1..], token)
      case Some(i) => Some(i + 1)
      case None => None
  }

  lemma FirstMatchUnique(commands: seq<Command>, token: string, i: nat, r: Option<nat>)
    requires FirstMatch(commands, token, i) && r == Find(commands, token)
    ensures r == Some(i)
  {
    if r.Some? {
      assert !(r.value < i) && !(i < r.value);
    }
  }

  /** What running the application did. */
  datatype AppEffect =
    | AppHelpShown                                        // `self.help()` on the app
    | DefaultInvoked(action: Action, args: seq<string>)   // the app's own action
    | Dispatched(index: nat, run: Commands.CommandEffect) // the command at `index` ran

  /** The routing after normalisation, with the candidate token and the
      arguments handed to a matching command as parameters. */
  function Route(app: App, n: seq<string>, candidate: Option<string>, rest: seq<string>): (r: RunResult<AppEffect>)
    requires |n| > 0
    ensures r.Ok?
    ensures r.effect.Dispatched? <==> candidate.Some? && exists j :: 0 <= j < |app.commands| && Matches(app.commands[j], candidate.value)
    ensures r.effect.Dispatched? ==>
      FirstMatch(app.commands, candidate.value, r.effect.index) &&
      r.effect.run == Commands.RunWithResult(app.commands[r.effect.index], rest).effect
    ensures !r.effect.Dispatched? ==> (r.effect.AppHelpShown? <==> Commands.HelpRequested(n))
    ensures r.effect.DefaultInvoked? ==> r.effect.action == app.action && r.effect.args == n[1..]
  {
    var found := if candidate.Some? then Find(app.commands, candidate.value) else None;
    if found.Some? then
      // the command's own result is passed on; it is always `Ok`
      Ok(Dispatched(found.value, Commands.RunWithResult(app.commands[found.value], rest).effect))
    else if Commands.HelpRequested(n) then Ok(AppHelpShown)
    else Ok(DefaultInvoked(app.action, n[1..]))
  }

  /** `App::run_with_result` as written: the candidate is element 0 of the
      normalised vector, and a matching command receives elements 1 onwards.
      `split_at(1)` panics on an empty vector, hence the precondition. */
  function RunWithResult(app: App, args: seq<string>): (r: RunResult<AppEffect>)
    requires |args| > 0
    ensures var n := Normalized(args); |n| > 0 && r == Route(app, n, Some(n[0]), n[1..])
    ensures var n := Normalized(args);
      r.Ok? &&
      (r.effect.Dispatched? <==> exists j :: 0 <= j < |app.commands| && Matches(app.commands[j], n[0])) &&
      (r.effect.Dispatched? ==>
         FirstMatch(app.commands, n[0], r.effect.index) &&
         r.effect.run == Commands.RunWithResult(app.commands[r.effect.index], n[1..]).effect) &&
      (r.effect.AppHelpShown? <==> !r.effect.Dispatched? && Commands.HelpRequested(n)) &&
      (r.effect.DefaultInvoked? <==> !r.effect.Dispatched? && !Commands.HelpRequested(n)) &&
      (r.effect.DefaultInvoked? ==> r.effect.action == app.action && r.effect.args == n[1..])
  {
    NormalizedLength(args);
    var n := Normalized(args);
    Route(app, n, Some(n[0]), n[1..])
  }

  /** The dispatch the surrounding code evidently intends: the candidate is
      element 1, the first token after the program path, and a matching
      command receives elements 2 onwards; with no token after the program
      path nothing can match. */
  function RunWithUserCandidate(app: App, args: seq<string>): (r: RunResult<AppEffect>)
    requires |args| > 0
    ensures var n := Normalized(args);
      r.Ok? && |n| > 0 &&
      (r.effect.Dispatched? <==> |n| > 1 && exists j :: 0 <= j < |app.commands| && Matches(app.commands[j], n[1])) &&
      (r.effect.Dispatched? ==>
         FirstMatch(app.commands, n[1], r.effect.index) &&
         r.effect.run == Commands.RunWithResult(app.commands[r.effect.index], n[2..]).effect) &&
      (r.effect.AppHelpShown? <==> !r.effect.Dispatched? && Commands.HelpRequested(n)) &&
      (r.effect.DefaultInvoked? <==> !r.effect.Dispatched? && !Commands.HelpRequested(n)) &&
      (r.effect.DefaultInvoked? ==> r.effect.action == app.action && r.effect.args == n[1..])
  {
    NormalizedLength(args);
    var n := Normalized(args);
    if |n| > 1 then Route(app, n, Some(n[1]), n[2..]) else Route(app, n, None, [])
  }

  /** `normalized_args`, the copy in the application: the same fold. */
  method NormalizedArgs(raw: seq<string>) returns (acc: seq<string>)
    ensures acc == Normalized(raw)
  {
    acc := [];
    for i := 0 to |raw|
      invariant acc == Normalized(raw[..i])
    {
      var cur := raw[i];
      assert raw[..i + 1][..i] == raw[..i];
      if |cur| > 0 && cur[0] == '-' && '=' in cur {
        var splitted := SplitAtFirstEquals(cur);
        acc := acc + splitted;
      } else {
        acc := acc + [cur];
      }
    }
    assert raw[..|raw|] == raw;
  }

  // ---------------------------------------------------------------------------
  // Help text
  // ---------------------------------------------------------------------------

  /** `alias.join(", ")` */
  function Join(parts: seq<string>, sep: string): string
    decreases |parts|
  {
    if parts == [] then ""
    else if |parts| == 1 then parts[0]
    else parts[0] + sep + Join(parts[1..], sep)
  }

  /** The name column of a command: its aliases, then its name, separated by ", ". */
  function RenderedName(c: Command): string {
    match c.alias
    case Some(alias) => Join(alias, ", ") + ", " + c.name
    case None => c.name
  }

  function DescriptionOrEmpty(c: Command): string {
    match c.description
    case Some(d) => d
    case None => ""
  }

  function Spaces(n: nat): (s: string)
    ensures |s| == n && forall k :: 0 <= k < n ==> s[k] == ' '
  {
    seq(n, _ => ' ')
  }

  /** The name column of `c` fits in `width` characters. */
  predicate Fits(c: Command, width: nat) {
    |RenderedName(c)| <= width
  }

  predicate FitsWidth(commands: seq<Command>, width: nat) {
    forall k :: 0 <= k < |commands| ==> Fits(commands[k], width)
  }

  /** `name_max_len`: the longest name column; `.max().unwrap()` needs a command. */
  function MaxRenderedLen(commands: seq<Command>): (m: nat)
    requires |commands| > 0
    ensures FitsWidth(commands, m)
    ensures exists k :: 0 <= k < |commands| && |RenderedName(commands[k])| == m
    decreases |commands|
  {
    var here := |RenderedName(commands[0])|;
    if |commands| == 1 then here
    else
      var rest := MaxRenderedLen(commands[1..]);
      assert forall k :: 1 <= k < |commands| ==> commands[k] == commands[1..][k - 1];
      if here >= rest then here else rest
  }

  /** One line of the command table; the padding `width - |name|` is a
      natural number because the name fits. */
  function Row(c: Command, width: nat): string
    requires Fits(c, width)
  {
    "\t" + RenderedName(c) + " " + Spaces(width - |RenderedName(c)|) + ": " + DescriptionOrEmpty(c) + "\n"
  }

  function Rows(commands: seq<Command>, width: nat): string
    requires FitsWidth(commands, width)
    decreases |commands|
  {
    if commands == [] then ""
    else Rows(commands[..|commands| - 1], width) + Row(commands[|commands| - 1], width)
  }

  /** The specification of `command_help_text`. */
  function CommandTable(commands: seq<Command>): string
    requires |commands| > 0
  {
    "\nCommands:\n" + Rows(commands, MaxRenderedLen(commands))
  }

  /** `command_help_text`: the heading, then one row per command, built up in
      a loop. */
  method CommandHelpText(app: App) returns (text: string)
    requires |app.commands| > 0
    ensures text == CommandTable(app.commands)
  {
    var commands := app.commands;
    text := "\nCommands:\n";
    var nameMaxLen := MaxRenderedLen(commands);
    assert text == "\nCommands:\n" + Rows(commands[..0], nameMaxLen) by {
      assert commands[..0] == [];
      assert text + "" == text;
    }
    for i := 0 to |commands|
      invariant FitsWidth(commands[..i], nameMaxLen)
      invariant text == "\nCommands:\n" + Rows(commands[..i], nameMaxLen)
    {
      var c := commands[i];
      var commandName := RenderedName(c);
      var description := DescriptionOrEmpty(c);
      var line := "\t" + commandName + " " + Spaces(nameMaxLen - |commandName|) + ": " + description + "\n";
      assert line == Row(c, nameMaxLen);
      TableStep(commands, i, nameMaxLen, text, line);
      text := text + line;
    }
    assert commands[..|commands|] == commands;
  }

  /** One turn of the loop in `CommandHelpText`: the line it appends is the
      next row of the table. */
  lemma TableStep(commands: seq<Command>, i: nat, width: nat, text: string, line: string)
    requires i < |commands| && FitsWidth(commands, width)
    requires FitsWidth(commands[..i], width) && text == "\nCommands:\n" + Rows(commands[..i], width)
    requires line == Row(commands[i], width)
    ensures FitsWidth(commands[..i + 1], width)
    ensures text + line == "\nCommands:\n" + Rows(commands[..i + 1], width)
  {
    assert commands[..i + 1][..i] == commands[..i];
    FitsPrefix(commands, i + 1, width);
    ConcatAssoc("\nCommands:\n", Rows(commands[..i], width), line);
  }

  /** `App::help_text`: the usage block, then the command table. */
  method HelpText(app: App) returns (text: string)
    requires |app.commands| > 0
    ensures text == "Usage:\n\t" + app.usage + "\n\n" + CommandTable(app.commands)
  {
    text := "";
    text := text + "Usage:\n\t" + app.usage + "\n\n";
    var table := CommandHelpText(app);
    text := text + table;
  }

  /** Every row puts `": "` at the same column, two past the widest name, and
      the name column starts after a tab; a missing description leaves the row
      empty after `": "`. */
  lemma RowLayout(c: Command, width: nat)
    requires Fits(c, width)
    ensures var row, name, d := Row(c, width), RenderedName(c), DescriptionOrEmpty(c);
      |row| == width + 5 + |d| &&
      row[0] == '\t' && row[1..1 + |name|] == name &&
      row[width + 2..width + 4] == ": " &&
      row[width + 4..width + 4 + |d|] == d && row[|row| - 1] == '\n' &&
      (c.description.None? ==> |row| == width + 5)
  {
    var name, d := RenderedName(c), DescriptionOrEmpty(c);
    var pad := Spaces(width - |name|);
    var row := Row(c, width);
    assert row == "\t" + name + " " + pad + ": " + d + "\n";
    assert |"\t" + name + " " + pad| == width + 2;
  }

  lemma FitsConcat(a: seq<Command>, b: seq<Command>, width: nat)
    requires FitsWidth(a, width) && FitsWidth(b, width)
    ensures FitsWidth(a + b, width)
  {
    forall k | 0 <= k < |a + b| ensures Fits((a + b)[k], width) {
      if k < |a| { assert (a + b)[k] == a[k]; } else { assert (a + b)[k] == b[k - |a|]; }
    }
  }

  lemma FitsPrefix(a: seq<Command>, i: nat, width: nat)
    requires FitsWidth(a, width) && i <= |a|
    ensures FitsWidth(a[..i], width)
  {
    forall k | 0 <= k < i ensures Fits(a[..i][k], width) { assert a[..i][k] == a[k]; }
  }

  /** The table keeps registration order: it distributes over concatenation. */
  lemma {:induction false} RowsConcat(a: seq<Command>, b: seq<Command>, width: nat)
    requires FitsWidth(a, width) && FitsWidth(b, width)
    ensures FitsWidth(a + b, width) && Rows(a + b, width) == Rows(a, width) + Rows(b, width)
    decreases |b|
  {
    FitsConcat(a, b, width);
    if b == [] {
      assert a + b == a;
    } else {
      var b', last := b[..|b| - 1], b[|b| - 1];
      FitsPrefix(b, |b| - 1, width);
      FitsConcat(a, b', width);
      assert Rows(a + b, width) == Rows(a + b', width) + Row(last, width) by {
        var ab := a + b;
        assert ab[..|ab| - 1] == a + b';
        assert ab[|ab| - 1] == last;
      }
      assert Rows(b, width) == Rows(b', width) + Row(last, width);
      RowsConcat(a, b', width);
      ConcatAssoc(Rows(a, width), Rows(b', width), Row(last, width));
    }
  }

  lemma {:induction false} JoinSnoc(parts: seq<string>, last: string, sep: string)
    requires parts != []
    ensures Join(parts + [last], sep) == Join(parts, sep) + sep + last
    decreases |parts|
  {
    if |parts| > 1 {
      assert (parts + [last])[1..] == parts[1..] + [last];
      JoinSnoc(parts[1..], last, sep);
    } else {
      assert (parts + [last])[1..] == [last];
    }
  }

  /** With at least one alias the name column is the aliases followed by the
      name, all joined by ", "; it always ends with the name. */
  lemma RenderedNameIsJoin(c: Command)
    ensures var name := RenderedName(c);
      |c.name| <= |name| && name[|name| - |c.name|..] == c.name &&
      (c.alias.Some? && c.alias.value != [] ==> name == Join(c.alias.value + [c.name], ", "))
  {
    if c.alias.Some? && c.alias.value != [] {
      JoinSnoc(c.alias.value, c.name, ", ");
    }
  }

  // ---------------------------------------------------------------------------
  // Worked examples
  // ---------------------------------------------------------------------------

  /** Command "hello" with alias "hi" and action 1. */
  function Hello(): Command {
    Commands.WithAction(Commands.WithAlias(Commands.New("hello"), "hi"), UserAction(1))
  }

  /** An application with default action 0 and the command above. */
  function HelloApp(): App {
    WithAction(New(), UserAction(0)).(commands := [Hello()])
  }

  /** `HelloApp` is what the builder chain produces, and registering a second
      command named "hello" is refused. */
  lemma HelloAppBuilt()
    ensures WithCommand(WithAction(New(), UserAction(0)), Hello()) == Registered(HelloApp())
    ensures WithCommand(HelloApp(), Commands.New("hello")) == AlreadyRegistered("hello")
  {
    assert HelloApp().commands[0].name == "hello";
  }

  lemma PlainTokens(raw: seq<string>)
    requires forall i :: 0 <= i < |raw| ==> '=' !in raw[i]
    ensures Normalized(raw) == raw
  {
    NormalizedIdentity(raw);
  }

  /** As written, element 0 is the candidate: the program path never names a
      command, so "prog hi world" runs the default action on "hi", "world". */
  lemma ProgramPathIsCandidate()
    ensures RunWithResult(HelloApp(), ["prog", "hi", "world"]) == Ok(DefaultInvoked(UserAction(0), ["hi", "world"]))
  {
    var app, n := HelloApp(), ["prog", "hi", "world"];
    assert Normalized(n) == n by { PlainTokens(n); }
    assert Find(app.commands, "prog") == None by { assert !Matches(Hello(), "prog"); }
    assert !Commands.HelpRequested(n);
    assert RunWithResult(app, n) == Route(app, n, Some("prog"), ["hi", "world"]);
  }

  /** "world" reaches an action unchanged, since nothing in it needs splitting. */
  lemma HelloRunsOnWorld()
    ensures Commands.RunWithResult(Hello(), ["world"]) == Ok(Commands.ActionInvoked(UserAction(1), ["world"]))
  {
    var w := "world";
    assert w != "-h" && w != "--help" by { assert |w| == 5; }
    PlainActionRuns(Hello(), w);
  }

  /** A command with an action, given one token that is neither split nor a
      help flag, runs that action on the token. */
  lemma PlainActionRuns(c: Commands.Command, w: string)
    requires c.action.Some? && '=' !in w && w != "-h" && w != "--help"
    ensures Commands.RunWithResult(c, [w]) == Ok(Commands.ActionInvoked(c.action.value, [w]))
  {
    PlainTokens([w]);
  }

  /** Without a program path in front, "hi world" reaches the command through
      its alias, and its action gets "world". */
  lemma AliasReachesCommand()
    ensures RunWithResult(HelloApp(), ["hi", "world"]) == Ok(Dispatched(0, Commands.ActionInvoked(UserAction(1), ["world"])))
  {
    var app, n := HelloApp(), ["hi", "world"];
    assert Normalized(n) == n by { PlainTokens(n); }
    assert Find(app.commands, "hi") == Some(0) by { assert Matches(Hello(), "hi"); }
    assert n[1..] == ["world"];
    HelloRunsOnWorld();
    assert RunWithResult(app, n) == Route(app, n, Some("hi"), ["world"]);
  }

  /** An application without commands, given a help flag, ends in
      `AppHelpShown`: the point where the help printer would build the
      command table of an empty list. */
  lemma HelpWithoutCommands(app: App, args: seq<string>)
    requires |args| > 0 && app.commands == [] && Commands.HelpRequested(Normalized(args))
    ensures RunWithResult(app, args) == Ok(AppHelpShown)
  {
  }

  /** With element 1 as the candidate, "prog hi world" runs the command's
      action on "world". */
  lemma UserCandidateExample()
    ensures RunWithUserCandidate(HelloApp(), ["prog", "hi", "world"]) == Ok(Dispatched(0, Commands.ActionInvoked(UserAction(1), ["world"])))
  {
    var app, n := HelloApp(), ["prog", "hi", "world"];
    assert Normalized(n) == n by { PlainTokens(n); }
    assert Find(app.commands, "hi") == Some(0) by { assert Matches(Hello(), "hi"); }
    assert n[2..] == ["world"];
    HelloRunsOnWorld();
    assert RunWithUserCandidate(app, n) == Route(app, n, Some("hi"), ["world"]);
  }

  /** With element 1 as the candidate, "prog --help" shows the application help. */
  lemma UserCandidateHelp()
    ensures RunWithUserCandidate(HelloApp(), ["prog", "--help"]) == Ok(AppHelpShown)
  {
    var app, n := HelloApp(), ["prog", "--help"];
    assert Normalized(n) == n by { PlainTokens(n); }
    assert Find(app.commands, "--help") == None by { assert !Matches(Hello(), "--help"); }
    assert Commands.HelpRequested(n);
    assert RunWithUserCandidate(app, n) == Route(app, n, Some("--help"), []);
  }

  /** The command normalises its arguments again: a help flag hidden in a
      value part at the application level (`--x=-h=1`) becomes a token of its
      own, so a command reached by `name` shows help instead of running its
      action, although the application-level vector holds no help flag. */
  lemma RenormalizationShowsHelp(app: App, name: string, flag: string, value: string)
    requires '=' !in name && '=' !in flag && |flag| > 0 && flag[0] == '-'
    requires flag != "-h" && flag != "--help" && name != "-h" && name != "--help"
    requires Find(app.commands, name).Some? && app.commands[Find(app.commands, name).value].action.Some?
    ensures var raw, i := [name, flag + "=-h=" + value], Find(app.commands, name).value;
      Normalized(raw) == [name, flag, "-h=" + value] &&
      !Commands.HelpRequested(Normalized(raw)) &&
      RunWithResult(app, raw) == Ok(Dispatched(i, Commands.HelpShown))
  {
    var hidden := "-h=" + value;
    var raw, n := [name, flag + "=-h=" + value], [name, flag, hidden];
    assert flag + "=-h=" + value == flag + "=" + hidden;
    NormalizedFlagAfterPlain(name, flag, hidden);
    HiddenHelpFlag(name, flag, value);
    DispatchedCommandShowsHelp(app, raw, n, value);
  }

  lemma HiddenHelpFlag(name: string, flag: string, value: string)
    requires flag != "-h" && flag != "--help" && name != "-h" && name != "--help"
    ensures !Commands.HelpRequested([name, flag, "-h=" + value])
  {
    var hidden := "-h=" + value;
    assert hidden[1] == 'h' && "--help"[1] == '-';
    assert |hidden| > |"-h"|;
  }

  lemma DispatchedCommandShowsHelp(app: App, raw: seq<string>, n: seq<string>, value: string)
    requires |raw| > 0 && Normalized(raw) == n && |n| == 3 && n[2] == "-h=" + value
    requires Find(app.commands, n[0]).Some?
    ensures RunWithResult(app, raw) == Ok(Dispatched(Find(app.commands, n[0]).value, Commands.HelpShown))
  {
    var i := Find(app.commands, n[0]).value;
    assert Commands.RunWithResult(app.commands[i], n[1..]) == Ok(Commands.HelpShown) by {
      Commands.HelpFlagWithValueRequestsHelp(app.commands[i], n[1..], 1, value);
    }
  }
}
