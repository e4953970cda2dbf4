/** The process executor the services are given: a command, its arguments and an
    optional working directory, to the command's output or the error it failed with.
    Nothing here runs a process; callers receive the executor as a value. */
module Process {
  import opened Wrappers

  type Executor = (string, seq<string>, Option<string>) -> Result<string, string>
}
