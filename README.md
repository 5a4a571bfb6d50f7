# suihorse dispatch core in Dafny

suihorse is a small Rust library for command-line programs. A host program
builds an `App` with a usage line, a default action and a list of named
sub-commands (`Command`). Each command has optional aliases, a description,
a usage line and an action. `App::run_with_result` routes the process
arguments:

1. It normalises the argument vector. A token that starts with `-` and
   contains `=` is split at its first `=` into two tokens.
2. It takes element 0 of the result as the candidate command name. The
   command is looked up by name or alias, in registration order.
3. A matching command gets the remaining tokens. The command normalises
   them again, then shows its help (when `-h`/`--help` is among them or it
   has no action) or runs its action.
4. With no match, the application shows its own help when `-h`/`--help` is
   anywhere in the vector. Otherwise it runs its default action on
   everything after element 0.

This model covers that dispatch, the builders and the help texts.

- Files and modules:
  - `types.dfy`: shared values (actions, the error kind, the result type).
  - `normalizer.dfy` (`Normalizer`): argument normalisation and what is
    proved about it.
  - `command.dfy` (`Commands`): `src/command.rs`.
  - `app.dfy` (`Apps`): `src/app.rs`.
- Builders take `self` by value and return the updated value, so `App`
  and `Command` are datatypes and each setter is a function.
- An action is a Rust function pointer. It is modelled by its identity
  (`Types.Action`).
- Side effects are returned as values, since running an action and printing
  help are not modelled:
  - `Commands.CommandEffect` records what a command did: showed help, or
    invoked an action on given arguments.
  - `Apps.AppEffect` records what the application did: showed its help,
    invoked its default action, or dispatched to command *i* with that
    command's effect.
- The three explicit loops and folds of the source are methods, each
  proved equal to a specification function:
  - the `fold` in both copies of `normalized_args`;
  - the duplicate-name scan in `App::command`;
  - the row loop in `command_help_text`.

  The other iterations, `iter().find` (src/app.rs:164), `map(..).max()`
  (src/app.rs:207-217) and `join` (src/app.rs:211), are the recursive
  functions `Apps.Find`, `Apps.MaxRenderedLen` and `Apps.Join`.
- The library's error type declares one kind, `NotFound`
  (src/error.rs:16-19), which reads as the case of a command without an
  action. No code path returns it: `Command::run_with_result`
  shows help and returns `Ok`. The model follows the code.
  `Commands.RunWithResult` and `Apps.RunWithResult` both promise `r.Ok?`.
- `App::command` panics on a duplicate name. The model returns
  `AlreadyRegistered(name)` instead.
- `run_with_result` calls `split_at(1)` and `first().unwrap()`, which fail on
  an empty vector, so the model requires a non-empty argument vector.
  Normalisation never shortens a vector, so that is enough.
  `command_help_text` calls `.max().unwrap()`, so the model requires at
  least one command.

## Model

| member | source | states |
|---|---|---|
| Normalizer.SplitAtFirstEquals | src/app.rs:191-194 | `splitn(2, '=')` on a token containing `=` gives two pieces `p`, `v` with `p + "=" + v` equal to the token and no `=` in `p` |
| Normalizer.SplitUnique | src/app.rs:192-193 | that split is the only decomposition `p + "=" + v` with no `=` in `p` |
| Normalizer.NormalizeToken | src/app.rs:191-197 | a token starting with `-` and containing `=` becomes flag and value (the flag starts with `-`, has no `=`, and re-glued gives the token); any other token is kept as it is |
| Normalizer.NormalizedLength | src/app.rs:189-200 | the normalised vector is the raw one plus one token per split token |
| Normalizer.NormalizedConcat | src/app.rs:189-200 | normalisation works token by token: it distributes over concatenation, so input order is kept |
| Normalizer.NormalizedAt | src/app.rs:189-200 | raw token `i` lands at offset `i` plus the number of split tokens before it, copied unchanged or as its flag/value pair |
| Normalizer.NormalizedIdentity | src/app.rs:189-200 | normalisation leaves a vector unchanged exactly when no token is split (both directions) |
| Normalizer.RejoinNormalized | src/app.rs:189-200 | round trip: gluing each split pair back with `=` gives the raw vector |
| Normalizer.NormalizedTwice | src/app.rs:189-200 | normalising twice equals normalising once when no flag's value part is itself of the form `-X=Y` |
| Normalizer.NormalizedNotIdempotent | src/app.rs:189-200 | without that condition a second pass splits again: `--a=-b=c` becomes `--a`, `-b=c` and then `--a`, `-b`, `c` |
| Normalizer.NormalizedFlagAfterPlain | src/app.rs:189-200 | a plain token followed by `flag=value` normalises to three tokens: plain, flag, value |
| Commands.New | src/command.rs:29-34 | the given name; alias, description, usage and action absent |
| Commands.WithDescription | src/command.rs:46-49 | sets the description and changes no other field |
| Commands.WithUsage | src/command.rs:61-64 | sets the usage and changes no other field |
| Commands.WithAction | src/command.rs:77-80 | sets the action and changes no other field |
| Commands.WithAlias | src/command.rs:92-99 | appends the alias to the existing list, or starts a one-element list; no other field changes |
| Commands.WithAliasesAppends | src/command.rs:92-99 | a chain of `alias` calls keeps every alias, in call order, after the earlier ones, and changes nothing else |
| Commands.NormalizedArgs | src/command.rs:101-112 | the fold with its accumulator computes the normalised vector |
| Commands.RunWithResult | src/command.rs:115-132 | always `Ok`; the action runs exactly when there is one and neither `-h` nor `--help` is among the normalised arguments, and then it gets the whole normalised vector; otherwise help is shown |
| Commands.HelpFlagWithValueRequestsHelp | src/command.rs:116-123 | a token `-h=...` is split before the help check, so the command shows help |
| Commands.HelpText | src/command.rs:136-148 | the description block, if any, is a prefix; the usage block, if any, is a suffix; the text holds only these two blocks and is empty exactly when both fields are absent |
| Apps.Default | src/app.rs:27-35 | usage `cli [command] [arg]`, no commands, the built-in default action |
| Apps.New | src/app.rs:47-49 | the same as the default application |
| Apps.WithUsage | src/app.rs:61-64 | sets the usage and changes nothing else |
| Apps.WithAction | src/app.rs:122-125 | sets the default action and changes nothing else |
| Apps.AddCommand | src/app.rs:100-109 | refuses exactly when a registered command has the same name, reporting that name; otherwise appends the command and keeps usage and action |
| Apps.WithCommandsDistinct | src/app.rs:100-109 | a chain of registrations on distinct names succeeds exactly when all names are pairwise distinct, and then appends the commands in call order |
| Apps.WithCommandKeepsLookup | src/app.rs:100-109 | registering never changes which command a token already selected; an unmatched token selects the new command exactly when it matches it |
| Apps.HelloAppBuilt | src/app.rs:100-109 | the builder chain yields the example application; a second command named `hello` is refused |
| Apps.Find | src/app.rs:164-167 | returns the first command, in registration order, whose name or one of whose aliases equals the token; `None` exactly when none does |
| Apps.FirstMatchUnique | src/app.rs:164-167 | the first match is unique, so it is what the lookup returns |
| Apps.Route | src/app.rs:164-183 | dispatches exactly when a candidate matches, passing the command's own result on; otherwise shows help exactly when `-h`/`--help` is present, else runs the default action on elements 1 onwards |
| Apps.RunWithResult | src/app.rs:158-184 | as written: element 0 of the normalised vector is the candidate and a matching command gets elements 1 onwards; always `Ok`; both directions of each case |
| Apps.RunWithUserCandidate | src/app.rs:158-184 | corrected dispatch: element 1 is the candidate and a matching command gets elements 2 onwards; no match with only the program path present |
| Apps.ProgramPathIsCandidate | src/app.rs:159-181 | as written, `prog hi world` does not reach command `hello` (alias `hi`); the default action runs on `hi`, `world` |
| Apps.AliasReachesCommand | src/app.rs:164-171 | `hi world` reaches `hello` through its alias, and its action gets `world` |
| Apps.UserCandidateExample | src/app.rs:160-171 | with element 1 as the candidate, `prog hi world` runs the command's action on `world` |
| Apps.HelpWithoutCommands | src/app.rs:173-178 | with no commands nothing matches, so a help flag leads to the application help (where the source's printer would panic, see Left out) |
| Apps.UserCandidateHelp | src/app.rs:175-178 | with element 1 as the candidate, `prog --help` shows the application help |
| Apps.HelloRunsOnWorld | src/command.rs:118-125 | the example command runs its action on `world` |
| Apps.PlainActionRuns | src/command.rs:118-125 | a command with an action, given one token that is neither split nor a help flag, runs the action on it |
| Apps.PlainTokens | src/app.rs:189-200 | a vector with no `=` in any token is left unchanged by normalisation |
| Apps.RenormalizationShowsHelp | src/app.rs:159-171 | a help flag hidden in a value part (`name --x=-h=1`) is not seen at application level, but the command normalises again and shows help instead of running its action |
| Apps.HiddenHelpFlag | src/app.rs:175 | `name`, `--x`, `-h=...` holds neither `-h` nor `--help` as a token |
| Apps.DispatchedCommandShowsHelp | src/app.rs:171 | a dispatched command whose arguments hold `-h=...` shows help |
| Apps.NormalizedArgs | src/app.rs:189-200 | the application's copy of the fold computes the same normalised vector |
| Apps.Spaces | src/app.rs:234 | `" ".repeat(n)`: `n` spaces |
| Apps.MaxRenderedLen | src/app.rs:207-217 | every command's name column fits in the result and some command attains it |
| Apps.CommandHelpText | src/app.rs:202-240 | the loop builds the heading followed by one row per command, in registration order, all padded to the widest name column |
| Apps.TableStep | src/app.rs:219-237 | one loop turn appends exactly the next row of the table |
| Apps.RowLayout | src/app.rs:231-236 | every row starts with a tab and the name column, puts `": "` at the same column (two past the widest name), then the description (empty when absent), then a newline |
| Apps.RowsConcat | src/app.rs:219-237 | the table keeps registration order: its rows distribute over concatenation |
| Apps.JoinSnoc | src/app.rs:211 | `join(", ")` of a list with one more element is the shorter join, the separator and that element |
| Apps.RenderedNameIsJoin | src/app.rs:210-214 | the name column ends with the command name; with aliases it is aliases then name, joined by `", "` |
| Apps.HelpText | src/app.rs:244-250 | the usage block followed by the command table |

## Left out

- `App::run`: it only turns an error result into a panic. `run_with_result` never returns an error value, though it can panic inside `help()` (next line and below).
- `help()`: printing a help text belongs to the `Help` trait in `src/help.rs`, which is not part of this model. The model records the call as `HelpShown`/`AppHelpShown` and models the texts that `help()` would print (`Commands.HelpText`, `Apps.HelpText`).
- Action bodies, including the default action's `println!("j")`. Actions are modelled by identity only, and console output is not modelled.
- Process arguments and the program's entry point (`examples/basic_app.rs`), and the re-exports in `src/lib.rs`.
- The `Display` implementations of `ActionError` and `ActionErrorKind` in `src/error.rs`: they only format the one error kind.
- The panic of `App::command`: it is modelled as the value `AlreadyRegistered(name)`, not as a program abort.
- Apps.MaxRenderedLen: lengths are counted in characters, while Rust's `len()` counts UTF-8 bytes. The two agree for ASCII names and aliases only.
- Apps.RowLayout: the column is in characters. For non-ASCII names the byte-based padding of the source differs.
- Apps.WithCommandsDistinct: it assumes the registered names are already distinct. That holds for every application built from `App::new`/`App::default` through `App::command`. The fields of `App` are public (src/app.rs:20-24), so a struct literal or a direct write to `commands` can break it, and then the lemma says nothing.
- Apps.RunWithResult: on an application without commands, a help flag yields `AppHelpShown` (`Apps.HelpWithoutCommands`). There the source calls `help()`, which prints the help text. Assuming it prints `help_text`, `command_help_text` panics in `.max().unwrap()` on the empty list (src/app.rs:207-217), so `--help` on such an application, as in examples/basic_app.rs, would panic instead of returning `Ok`. `src/help.rs` is not part of this model, so this panic is not modelled.

## Findings

| source | as written | input that shows it | evidently intended | confidence | as-written member | corrected member |
|---|---|---|---|---|---|---|
| src/app.rs:160-161 | the candidate command is element 0 of the normalised vector, which holds the program path; a matching command gets elements 1 onwards | `["prog", "hi", "world"]`, with command `hello` (alias `hi`): the default action runs on `hi`, `world` and the command is never reached | element 1, the first user token, is the candidate, and the command gets elements 2 onwards; the default action already gets elements 1 onwards and the comment at line 172 speaks of the 2nd arg | high; not executed | Apps.ProgramPathIsCandidate | Apps.RunWithUserCandidate |
