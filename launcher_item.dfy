/** The launcher item variants: the same closed set of payloads as the
    menu items, whose `launch` unwraps the spawn result instead of
    returning an error. */
module LauncherItems {
  import Base

  datatype Application = Application(name: string, description: string, exec: string)

  datatype ShellCommand = ShellCommand(exec: string)

  datatype LauncherItem =
    | Application(application: Application)
    | Command(shellCommand: ShellCommand)
    | String(text: string)
    | None

  /** What `launch()` does: print the string, start the program, or panic
      because the OS refused to start it (`spawn().unwrap()`). */
  datatype LaunchEffect = Printed(line: string) | Spawned(program: string) | Panicked(program: string, cause: string)

  /** `Application::new` stores its arguments unchanged. */
  function NewApplication(name: string, description: string, exec: string): (a: Application)
    ensures a.name == name && a.description == description && a.exec == exec
  {
    Application.Application(name, description, exec)
  }

  /** `ShellCommand::new`. */
  function NewShellCommand(exec: string): (c: ShellCommand)
    ensures c.exec == exec
  {
    ShellCommand.ShellCommand(exec)
  }

  /** `Default` is the `None` variant. */
  function Default(): (item: LauncherItem)
    ensures item.None?
  {
    None
  }

  /** `name()`: the application's name, the command's `exec`, the
      string itself; the `None` variant panics, so it is excluded. */
  function Name(item: LauncherItem): (r: string)
    requires !item.None?
    ensures item.Application? ==> r == item.application.name
    ensures item.Command? ==> r == item.shellCommand.exec
    ensures item.String? ==> r == item.text
  {
    match item
    case Application(a) => a.name
    case Command(c) => c.exec
    case String(s) => s
  }

  /** `spawn().unwrap()` on `program`. */
  function StartProgram(program: string, outcome: Base.SpawnOutcome): (r: LaunchEffect)
    ensures !r.Printed? && r.program == program
    ensures r.Panicked? <==> outcome.SpawnFailed?
    ensures r.Panicked? ==> r.cause == outcome.cause
  {
    if outcome.Started? then Spawned(program) else Panicked(program, outcome.cause)
  }

  /** `launch()`, given what the OS answers to the spawn request; the
      `None` variant panics, so it is excluded. A string is printed whatever
      the OS would say; an application or a command starts its `exec` as
      the program, and panics exactly when the OS refuses. */
  function Launch(item: LauncherItem, outcome: Base.SpawnOutcome): (r: LaunchEffect)
    requires !item.None?
    ensures item.String? ==> r == Printed(item.text)
    ensures !item.String? ==> !r.Printed?
    ensures item.Application? ==> r.program == item.application.exec
    ensures item.Command? ==> r.program == Name(item)
    ensures r.Panicked? <==> !item.String? && outcome.SpawnFailed?
  {
    match item
    case Application(a) => StartProgram(a.exec, outcome)
    case Command(c) => StartProgram(c.exec, outcome)
    case String(s) => Printed(s)
  }

  /** `Into<LauncherItem>` for an application. */
  function FromApplication(a: Application): (item: LauncherItem)
    ensures item.Application? && item.application == a
  {
    LauncherItem.Application(a)
  }

  /** `Into<LauncherItem>` for a shell command. */
  function FromShellCommand(c: ShellCommand): (item: LauncherItem)
    ensures item.Command? && item.shellCommand == c
  {
    Command(c)
  }

  /** `Into<LauncherItem>` for a string. */
  function FromString(s: string): (item: LauncherItem)
    ensures item.String? && item.text == s
  {
    String(s)
  }

  /** Every converted payload is a usable item whose name is the payload's
      name: the application's name, the command's `exec`, the string. */
  lemma NameOfConverted(a: Application, c: ShellCommand, s: string)
    ensures !FromApplication(a).None? && Name(FromApplication(a)) == a.name
    ensures !FromShellCommand(c).None? && Name(FromShellCommand(c)) == c.exec
    ensures !FromString(s).None? && Name(FromString(s)) == s
  {
  }
}
