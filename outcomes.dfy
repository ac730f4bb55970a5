/** How an operation of the model ends: the value a Java method returns,
    the exception it throws, or Stalled when a loop whose progress depends
    on the engine or the socket has used up the fuel it was given. */
module Outcomes {

  /** The exception classes the modelled code throws or lets escape. */
  datatype JavaException =
    | SSLException            // javax.net.ssl.SSLException
    | IOException             // java.io.IOException
    | ClosedChannelException  // java.nio.channels.ClosedChannelException
    | IllegalStateException   // java.lang.IllegalStateException
    | BufferOverflowException // java.nio.BufferOverflowException
    | NullPointerException    // java.lang.NullPointerException
    | IllegalArgumentException // java.lang.IllegalArgumentException

  datatype Option<+T> = None | Some(value: T)

  datatype Outcome<+T> =
    | Returned(value: T)
    | Threw(exception: JavaException)
    | Stalled
}
