/** The `io.Writer` every response function writes to. A sink keeps what it
    has accepted so far and how many more bytes it will take before it fails;
    a write beyond that is cut short and reported, as the contract of
    `io.Writer` demands (a count below the length comes with an error). */
module Sinks {
  import opened Results
  import opened Wire

  datatype WriteError = ShortWrite

  class Sink {
    /** Everything written to the sink so far. */
    var bytes: string
    /** How many more bytes the sink accepts. */
    var room: nat

    constructor (room: nat)
      ensures bytes == [] && this.room == room
    {
      bytes := [];
      this.room := room;
    }

    /** Write: takes as much of `p` as there is room for and reports an error
        when that is not all of it. */
    method Write(p: string) returns (n: nat, err: Option<WriteError>)
      modifies this
      ensures n == Min(|p|, old(room)) && room == old(room) - n
      ensures bytes == old(bytes) + p[..n]
      ensures err.None? <==> n == |p|
    {
      n := Min(|p|, room);
      bytes := bytes + p[..n];
      room := room - n;
      err := if n == |p| then None else Some(ShortWrite);
    }
  }

  /** Two writes in a row leave what one write of both pieces would: the
      second piece only starts once the first is wholly taken. */
  lemma WritesCompose(p: string, q: string, room: nat)
    ensures var n := Min(|p|, room);
            p[..n] + q[..Min(|q|, room - n)] == (p + q)[..Min(|p + q|, room)]
  {
    var n := Min(|p|, room);
    if n < |p| {
      assert (p + q)[..room] == p[..room];
    } else {
      assert (p + q)[..Min(|p + q|, room)] == p + q[..Min(|q|, room - n)];
    }
  }
}
