/** The menu item variants: a closed set of payloads with a display name
    and an action, and the error an action reports when its process does
    not start. */
module MenuItemModels {
  import Base

  /** A launch failure: the OS error (as its text), a message, and the
      command that was being started. */
  datatype ActionError = ActionError(cause: string, error: string, command: string)

  const CommandLabel: string := "\n  Command: "
  const CauseLabel: string := "\n  Cause: "

  /** `Display for ActionError`. */
  function Display(e: ActionError): (r: string)
    ensures Base.StartsWith(r, e.error)
    ensures |r| == |e.error| + |CommandLabel| + |e.command| + |CauseLabel| + |e.cause|
  {
    e.error + CommandLabel + e.command + CauseLabel + e.cause
  }

  /** Index of the first line break, or the length when there is none. */
  function FirstNewline(s: string): (i: nat)
    ensures i <= |s|
    ensures forall k :: 0 <= k < i ==> s[k] != '\n'
    ensures i < |s| ==> s[i] == '\n'
  {
    if s == [] || s[0] == '\n' then 0 else 1 + FirstNewline(s[1..])
  }

  /** Reads a displayed error back: the message up to the first line
      break, the command on the next line, the cause after that. */
  function Parse(s: string): Base.Option<ActionError>
  {
    var i := FirstNewline(s);
    var rest := s[i..];
    if !Base.StartsWith(rest, CommandLabel) then Base.None
    else
      var afterCommand := rest[|CommandLabel|..];
      var j := FirstNewline(afterCommand);
      var tail := afterCommand[j..];
      if !Base.StartsWith(tail, CauseLabel) then Base.None
      else Base.Some(ActionError(tail[|CauseLabel|..], s[..i], afterCommand[..j]))
  }

  lemma {:induction false} FirstNewlineAfter(a: string, b: string)
    requires '\n' !in a && b != [] && b[0] == '\n'
    ensures FirstNewline(a + b) == |a|
  {
    if a != [] {
      assert (a + b)[1..] == a[1..] + b;
      FirstNewlineAfter(a[1..], b);
    }
  }

  /** The displayed form keeps every field: when the message and the
      command hold no line break, reading the text back gives the error. */
  lemma DisplayRoundTrip(e: ActionError)
    requires '\n' !in e.error && '\n' !in e.command
    ensures Parse(Display(e)) == Base.Some(e)
  {
    var s := Display(e);
    var afterCommand := e.command + CauseLabel + e.cause;
    assert s == e.error + (CommandLabel + afterCommand);
    FirstNewlineAfter(e.error, CommandLabel + afterCommand);
    assert s[|e.error|..] == CommandLabel + afterCommand;
    assert s[..|e.error|] == e.error;
    var rest := s[|e.error|..];
    assert rest[|CommandLabel|..] == afterCommand;
    assert afterCommand == e.command + (CauseLabel + e.cause);
    FirstNewlineAfter(e.command, CauseLabel + e.cause);
    assert afterCommand[|e.command|..] == CauseLabel + e.cause;
    assert afterCommand[..|e.command|] == e.command;
  }

  datatype Application = Application(name: string, description: string, exec: string)

  datatype ShellCommand = ShellCommand(exec: string)

  datatype MenuItemModel =
    | Application(application: Application)
    | Command(shellCommand: ShellCommand)
    | String(text: string)
    | None

  /** `Application::new` stores its arguments unchanged. */
  function NewApplication(name: string, description: string, exec: string): (a: Application)
    ensures a.name == name && a.description == description && a.exec == exec
  {
    Application.Application(name, description, exec)
  }

  /** `ShellCommand::new`. */
  function NewShellCommand(exec: string): (c: ShellCommand)
    ensures c.exec == exec
  {
    ShellCommand.ShellCommand(exec)
  }

  /** `Default` is the `None` variant. */
  function Default(): (item: MenuItemModel)
    ensures item.None?
  {
    None
  }

  /** `name()`: the application's name, the command's `exec`, the
      string itself; the `None` variant panics, so it is excluded. */
  function Name(item: MenuItemModel): (r: string)
    requires !item.None?
    ensures item.Application? ==> r == item.application.name
    ensures item.Command? ==> r == item.shellCommand.exec
    ensures item.String? ==> r == item.text
  {
    match item
    case Application(a) => a.name
    case Command(c) => c.exec
    case String(s) => s
  }

  /** The program `run_action` asks the OS to start, if any: the
      application's or the command's `exec`, and nothing for a string. */
  function SpawnedProgram(item: MenuItemModel): (r: Base.Option<string>)
    requires !item.None?
    ensures r.Some? <==> !item.String?
  {
    match item
    case Application(a) => Base.Some(a.exec)
    case Command(c) => Base.Some(c.exec)
    case String(_) => Base.None
  }

  /** The error `Application::launch` reports. */
  function ApplicationLaunchError(a: Application, cause: string): (e: ActionError)
    ensures e.error == "Failed to start application '" + a.name + "'"
    ensures e.command == a.exec && e.cause == cause
  {
    ActionError(cause, "Failed to start application '" + a.name + "'", a.exec)
  }

  /** The error `ShellCommand::launch` reports. */
  function ShellCommandLaunchError(c: ShellCommand, cause: string): (e: ActionError)
    ensures e.error == "Failed to execute command"
    ensures e.command == c.exec && e.cause == cause
  {
    ActionError(cause, "Failed to execute command", c.exec)
  }

  /** `run_action()`, given what the OS answers to the spawn request; the
      `None` variant panics, so it is excluded. An action fails exactly
      when it spawns a program and the OS refuses; the error then names
      that program as its command and carries the OS error as its cause.
      A string item spawns nothing and never fails. */
  function RunAction(item: MenuItemModel, outcome: Base.SpawnOutcome): (r: Base.Result<(), ActionError>)
    requires !item.None?
    ensures r.Err? <==> SpawnedProgram(item).Some? && outcome.SpawnFailed?
    ensures r.Err? ==> r.error.command == SpawnedProgram(item).value && r.error.cause == outcome.cause
    ensures r.Err? && item.Application? ==> r.error == ApplicationLaunchError(item.application, outcome.cause)
    ensures r.Err? && item.Command? ==> r.error == ShellCommandLaunchError(item.shellCommand, outcome.cause)
  {
    match item
    case Application(a) =>
      if outcome.Started? then Base.Ok(()) else Base.Err(ApplicationLaunchError(a, outcome.cause))
    case Command(c) =>
      if outcome.Started? then Base.Ok(()) else Base.Err(ShellCommandLaunchError(c, outcome.cause))
    case String(_) => Base.Ok(())
  }

  /** `Into<MenuItemModel>` for an application. */
  function FromApplication(a: Application): (item: MenuItemModel)
    ensures item.Application? && item.application == a
  {
    MenuItemModel.Application(a)
  }

  /** `Into<MenuItemModel>` for a shell command. */
  function FromShellCommand(c: ShellCommand): (item: MenuItemModel)
    ensures item.Command? && item.shellCommand == c
  {
    Command(c)
  }

  /** `Into<MenuItemModel>` for a string. */
  function FromString(s: string): (item: MenuItemModel)
    ensures item.String? && item.text == s
  {
    String(s)
  }

  /** Every converted payload is a usable item whose name is the payload's
      name: the application's name, the command's `exec`, the string. */
  lemma NameOfConverted(a: Application, c: ShellCommand, s: string)
    ensures !FromApplication(a).None? && Name(FromApplication(a)) == a.name
    ensures !FromShellCommand(c).None? && Name(FromShellCommand(c)) == c.exec
    ensures !FromString(s).None? && Name(FromString(s)) == s
  {
  }
}
