/**
The serial port as the receivers see it: a stream of bytes and the answers the driver gives when it
is asked how many of them have arrived. Every arrival pattern gives some list of answers, so a
statement about all answer lists covers every way of cutting the stream into chunks.
 */
module SerialPort {
  import opened Integers

  class Uart<T> {
    /** What has not been read yet, whether it has arrived or not. */
    var wire: seq<T>
    /** The answers to the coming receive-count queries; a zero is an idle tick. The observed run
        ends when they are used up. */
    var polls: seq<nat>

    method RxCount() returns (n: nat)
      requires polls != []
      modifies this`polls
      ensures polls == old(polls)[1..]
      ensures n == Min(old(polls)[0], |wire|)
    {
      n := Min(polls[0], |wire|);
      polls := polls[1..];
    }

    /** Reads exactly what was asked for. */
    method Read(n: nat) returns (data: seq<T>)
      requires n <= |wire|
      modifies this`wire
      ensures data == old(wire)[..n] && wire == old(wire)[n..]
    {
      data := wire[..n];
      wire := wire[n..];
    }
  }
}
