/** The class NtripServer, as far as its handshake goes. */
module NtripServerClass {
  import opened Text
  import opened Handshake
  import A = Agreement
  import Wire

  class NtripServer {
    const config: Wire.ServerConfig
    var running: bool
    var socketFd: int
    var closed: seq<int>
    var sent: seq<string>

    constructor (config: Wire.ServerConfig)
      ensures this.config == config && !running && socketFd == -1 && closed == [] && sent == []
    {
      this.config := config;
      running, socketFd, closed, sent := false, -1, [], [];
    }

    method Stop()
      modifies this
      ensures !running && sent == old(sent)
      ensures socketFd == if old(socketFd) > 0 then -1 else old(socketFd)
      ensures closed == old(closed) + if old(socketFd) > 0 then [old(socketFd)] else []
    {
      running := false;
      if socketFd > 0 {
        closed := closed + [socketFd];
        socketFd := -1;
      }
    }

    /** `fd` is the new socket, -1 if there is none; `connectOk` and `requestOk` say whether
        it connects and whether the request goes out. */
    method Run(fd: int, connectOk: bool, requestOk: bool, polls: nat -> Poll) returns (ok: bool)
      modifies this
      ensures old(running) ==> ok && running && socketFd == old(socketFd) && closed == old(closed) && sent == old(sent)
      ensures !old(running) ==>
                && !running && (ok <==> fd != -1 && connectOk && requestOk && Succeeds(polls))
                && socketFd == (if ok then fd else Released(old(socketFd)))
                && closed == old(closed) + ToClose(old(socketFd)) + (if ok || fd == -1 then [] else [fd])
                && sent == old(sent) + if fd != -1 && connectOk then [Wire.ServerRequest(config)] else []
      ensures !old(running) && ok ==>
                exists j | 0 <= j < 29 :: polls(j).Chunk? && (Contains(polls(j).text, "HTTP/1.1 200 OK")
                                                              || Contains(polls(j).text, "ICY 200 OK"))
      ensures !old(running) && fd != -1 && connectOk && requestOk ==> A.CasterAgrees(polls, ok)
    {
      hide Accepts, Succeeds, Answered, Quiet, AcceptedAt, A.CasterAgrees;
      A.SuccessAgrees(polls);
      SuccessIs(polls);
      if running {
        return true;
      }
      Stop();
      if fd == -1 {
        return false;
      }
      if !connectOk {
        closed := closed + [fd];
        return false;
      }
      sent := sent + [Wire.ServerRequest(config)];
      if !requestOk {
        closed := closed + [fd];
        return false;
      }
      QuietEnd(polls);
      var timeout := TIMEOUT;
      while true
        invariant 0 <= timeout <= TIMEOUT && Quiet(polls, TIMEOUT - timeout) && !running
        invariant socketFd == Released(old(socketFd)) && closed == old(closed) + ToClose(old(socketFd))
        invariant sent == old(sent) + [Wire.ServerRequest(config)]
        decreases timeout
      {
        var more := timeout != 0;
        timeout := timeout - 1;
        if !more {
          break;
        }
        QuietStep(polls, TIMEOUT - 1 - timeout);
        var p := polls(TIMEOUT - 1 - timeout);
        if p.Chunk? {
          if Accepts(p.text) {
            break;
          }
        } else if p.Closed? {
          closed := closed + [fd];
          return false;
        }
      }
      if timeout <= 0 {
        closed := closed + [fd];
        return false;
      }
      socketFd := fd;
      return true;
    }
  }
}
