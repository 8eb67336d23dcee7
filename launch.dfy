/**
 * The choice `launchCommand` makes before spawning a child process: the first
 * positional command-line argument is the program, the rest are its arguments,
 * and with no positional argument nothing is spawned.
 */
module Launch {
  import opened Wrappers

  /** A child process to start: program name and argument vector. */
  datatype Command = Command(program: string, args: seq<string>)

  /** The positional argument list that asks for `c` to be spawned. */
  function Invocation(c: Command): seq<string>
  {
    [c.program] + c.args
  }

  /**
   * What `launchCommand` spawns for the positional arguments `positional`
   * (yargs' `argv._`): nothing when the list is empty, otherwise element 0
   * with the remaining elements as its arguments.
   */
  function LaunchCommand(positional: seq<string>): (r: Option<Command>)
    ensures r.None? <==> positional == []
    ensures r.Some? ==> Invocation(r.value) == positional
  {
    if |positional| > 0 then Some(Command(positional[0], positional[1..])) else None
  }

  /** Every command can be requested, and is requested by exactly its invocation. */
  lemma LaunchInvocation(c: Command)
    ensures LaunchCommand(Invocation(c)) == Some(c)
  {
  }
}
