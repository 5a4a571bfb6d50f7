/** A sub-command: its builder, its dispatch and its help text. */
module Commands {
  import opened Types
  import opened Normalizer

  datatype Command = Command(
    name: string,
    alias: Option<seq<string>>,
    description: Option<string>,
    usage: Option<string>,
    action: Option<Action>)

  /** The aliases registered so far, in registration order. */
  function Aliases(c: Command): seq<string> {
    match c.alias
    case Some(a) => a
    case None => []
  }

  /** `Command::new`: the given name, every optional field absent. */
  function New(name: string): (c: Command)
    ensures c.name == name && c.alias == None && c.description == None
    ensures c.usage == None && c.action == None
  {
    Command(name, None, None, None, None)
  }

  function WithDescription(c: Command, description: string): (r: Command)
    ensures r.description == Some(description)
    ensures r.name == c.name && r.alias == c.alias && r.usage == c.usage && r.action == c.action
  {
    c.(description := Some(description))
  }

  function WithUsage(c: Command, usage: string): (r: Command)
    ensures r.usage == Some(usage)
    ensures r.name == c.name && r.alias == c.alias && r.description == c.description && r.action == c.action
  {
    c.(usage := Some(usage))
  }

  function WithAction(c: Command, action: Action): (r: Command)
    ensures r.action == Some(action)
    ensures r.name == c.name && r.alias == c.alias && r.description == c.description && r.usage == c.usage
  {
    c.(action := Some(action))
  }

  /** `alias` pushes onto the existing list, or starts a one-element list. */
  function WithAlias(c: Command, name: string): (r: Command)
    ensures r.alias.Some? && r.alias.value == Aliases(c) + [name]
    ensures r.name == c.name && r.description == c.description && r.usage == c.usage && r.action == c.action
  {
    match c.alias
    case Some(a) => c.(alias := Some(a + [name]))
    case None => c.(alias := Some([name]))
  }

  /** A chain of `.alias(..)` calls, in call order. */
  function WithAliases(c: Command, names: seq<string>): Command
    decreases |names|
  {
    if names == [] then c else WithAlias(WithAliases(c, names[..|names| - 1]), names[|names| - 1])
  }

  /** Chained `alias` calls keep every alias, in call order, after the earlier
      ones, and change no other field. */
  lemma {:induction false} WithAliasesAppends(c: Command, names: seq<string>)
    ensures var r := WithAliases(c, names);
      Aliases(r) == Aliases(c) + names &&
      (r.alias.Some? <==> c.alias.Some? || names != []) &&
      r == c.(alias := r.alias)
    decreases |names|
  {
    if names != [] {
      var init := names[..|names| - 1];
      WithAliasesAppends(c, init);
      assert Aliases(c) + names == Aliases(c) + init + [names[|names| - 1]];
    }
  }

  /** `normalized_args`: the fold with a mutable accumulator. */
  method NormalizedArgs(raw: seq<string>) returns (acc: seq<string>)
    ensures acc == Normalized(raw)
  {
    acc := [];
    for i := 0 to |raw|
      invariant acc == Normalized(raw[..i])
    {
      var cur := raw[i];
      assert raw[..i + 1][..i] == raw[..i];
      if |cur| > 0 && cur[0] == '-' && '=' in cur {
        var splitted := SplitAtFirstEquals(cur);
        acc := acc + splitted;
      } else {
        acc := acc + [cur];
      }
    }
    assert raw[..|raw|] == raw;
  }

  /** `args.contains("-h") || args.contains("--help")` */
  predicate HelpRequested(args: seq<string>) {
    "-h" in args || "--help" in args
  }

  /** What running a command did. */
  datatype CommandEffect =
    | HelpShown                                        // `self.help()`
    | ActionInvoked(action: Action, args: seq<string>) // `action(args)`

  /** `Command::run_with_result`: help when asked for or when there is no
      action, otherwise the action on the whole normalised vector; never an
      error. */
  function RunWithResult(c: Command, args: seq<string>): (r: RunResult<CommandEffect>)
    ensures r.Ok?
    ensures r.effect.ActionInvoked? <==> c.action.Some? && !HelpRequested(Normalized(args))
    ensures r.effect.ActionInvoked? ==> r.effect.action == c.action.value && r.effect.args == Normalized(args)
  {
    var args := Normalized(args);
    match c.action
    case Some(action) =>
      if HelpRequested(args) then Ok(HelpShown)
      else Ok(ActionInvoked(action, args))
    case None => Ok(HelpShown)
  }

  /** A `-h` or `--help` token reaches the help check even when written as
      `-h=...`, because the check runs after normalisation. */
  lemma HelpFlagWithValueRequestsHelp(c: Command, args: seq<string>, i: nat, value: string)
    requires i < |args| && args[i] == "-h=" + value
    ensures RunWithResult(c, args) == Ok(HelpShown)
  {
    assert '=' in args[i] by { assert args[i][2] == '='; }
    SplitUnique(args[i], "-h", value);
    NormalizedAt(args, i);
  }

  function DescriptionBlock(c: Command): string {
    match c.description
    case Some(d) => "Description:\n\t" + d + "\n\n"
    case None => ""
  }

  function UsageBlock(c: Command): string {
    match c.usage
    case Some(u) => "Usage:\n\t" + u + "\n\n"
    case None => ""
  }

  /** `help_text`: the description block, when there is a description, comes
      before the usage block, when there is a usage; nothing else. */
  function HelpText(c: Command): (text: string)
    ensures c.description.Some? ==> "Description:\n\t" + c.description.value + "\n\n" <= text
    ensures c.usage.Some? ==> var block := "Usage:\n\t" + c.usage.value + "\n\n";
      |block| <= |text| && text[|text| - |block|..] == block
    ensures c.description.None? ==> text == UsageBlock(c)
    ensures c.usage.None? ==> text == DescriptionBlock(c)
    ensures |text| == |DescriptionBlock(c)| + |UsageBlock(c)|
    ensures text == "" <==> c.description.None? && c.usage.None?
  {
    var text := "";
    var text := if c.description.Some? then text + "Description:\n\t" + c.description.value + "\n\n" else text;
    var text := if c.usage.Some? then text + "Usage:\n\t" + c.usage.value + "\n\n" else text;
    text
  }
}
