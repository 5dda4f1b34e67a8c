/** The consumer's side of a shutdown handshake, the same in both benchmarks: poll until a
    call finds nothing, load the done flag, and once it is set drain until a call finds
    nothing again.
 */
module Shutdown {

  datatype Phase = Poll | AskDone | Drain | Returned

  function OnEmpty(phase: Phase): Phase {
    if phase == Poll then AskDone else Returned
  }

  function OnFlag(done: bool): Phase {
    if done then Drain else Poll
  }
}
