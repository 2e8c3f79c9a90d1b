/** The part of the operating system the caster uses: open descriptors, and for each
    connection ever accepted the chunks the caster has sent to it. A descriptor may be
    given out again after it was closed, a connection number never is. */
module Net {

  datatype Net = Net(conn: map<int, nat>, chunks: seq<seq<string>>, badCloses: nat)

  const EMPTY := Net(map[], [], 0)

  /** Every open descriptor has a connection of its own. */
  ghost predicate Valid(net: Net) {
    && (forall fd | fd in net.conn :: net.conn[fd] < |net.chunks|)
    && (forall f, g | f in net.conn && g in net.conn && f != g :: net.conn[f] != net.conn[g])
  }

  function Accept(net: Net, fd: int): Net {
    net.(conn := net.conn[fd := |net.chunks|], chunks := net.chunks + [[]])
  }

  /** Whether a send goes out: the descriptor is open and the kernel takes the chunk. */
  predicate Sends(net: Net, fd: int, ok: bool) {
    ok && fd in net.conn && net.conn[fd] < |net.chunks|
  }

  /** A chunk is delivered whole or not at all. */
  function Send(net: Net, fd: int, chunk: string, ok: bool): (r: Net)
    ensures !Sends(net, fd, ok) ==> r == net
  {
    if Sends(net, fd, ok) then
      var k := net.conn[fd];
      net.(chunks := net.chunks[k := net.chunks[k] + [chunk]])
    else net
  }

  /** `close`: on a descriptor that is not open it is an error and does nothing else. */
  function Close(net: Net, fd: int): Net {
    if fd in net.conn then net.(conn := net.conn - {fd}) else net.(badCloses := net.badCloses + 1)
  }
}
