/** Launching the command in the guest (`start_program_in_guest` in
    vexec.py): the program specification sent to the guest agent and the
    agent's reply. */
module Launcher {
  import opened Wrappers

  /** The `ProgramSpec` handed to `StartProgramInGuest`. */
  datatype ProgramSpec = ProgramSpec(
    programPath: string,
    arguments: string,
    workingDirectory: Option<string>)

  /** Python truthiness of the optional `working_dir` argument: `None` and
      the empty string are false. */
  predicate Truthy(workingDir: Option<string>)
  {
    workingDir.Some? && workingDir.value != ""
  }

  /** The specification built from the command line: path and arguments
      always, the working directory only when it is truthy. */
  function BuildProgramSpec(programPath: string, args: string, workingDir: Option<string>): (spec: ProgramSpec)
    ensures spec.programPath == programPath && spec.arguments == args
    ensures spec.workingDirectory.Some? <==> Truthy(workingDir)
    ensures spec.workingDirectory.Some? ==> spec.workingDirectory == workingDir
    ensures spec.workingDirectory != Some("")
  {
    var spec := ProgramSpec(programPath, args, None);
    if Truthy(workingDir) then spec.(workingDirectory := workingDir) else spec
  }

  /** What `StartProgramInGuest` does from the caller's point of view: it
      returns a pid (which may be absent) or raises. Invalid guest
      credentials, other method faults and unexpected errors are all
      re-raised unchanged, so one `LaunchFault` stands for all three. */
  datatype LaunchReply = Started(pid: Option<int>) | LaunchFault
}
