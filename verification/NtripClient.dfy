/** The class NtripClient: its handshake and its receive loop. */
module NtripClientClass {
  import opened Text
  import opened Handshake
  import A = Agreement
  import Gga
  import W = Watchdog
  import Wire

  class NtripClient {
    const config: Wire.ClientConfig
    var running: bool
    var socketFd: int
    var closed: seq<int>
    var gga: string
    var ggaIsUpdate: bool
    var sent: seq<string>
    var delivered: seq<string>

    constructor (config: Wire.ClientConfig)
      ensures this.config == config && !running && socketFd == -1 && closed == []
      ensures gga == "" && !ggaIsUpdate && sent == [] && delivered == []
    {
      this.config := config;
      running, socketFd, closed, gga, ggaIsUpdate, sent, delivered := false, -1, [], "", false, [], [];
    }

    method SetGgaBuffer(text: string)
      modifies this`gga, this`ggaIsUpdate
      ensures gga == text && ggaIsUpdate
    {
      gga, ggaIsUpdate := text, true;
    }

    method Stop()
      modifies this`running, this`socketFd, this`closed
      ensures !running
      ensures socketFd == if old(socketFd) > 0 then -1 else old(socketFd)
      ensures closed == old(closed) + if old(socketFd) > 0 then [old(socketFd)] else []
    {
      running := false;
      if socketFd > 0 {
        closed := closed + [socketFd];
        socketFd := -1;
      }
    }

    /** `fd` is the new socket, -1 if there is none; `connectOk` says whether it connects,
        `requestOk` and `ggaOk` whether the two sends work; `body` is the GGA sentence made
        for the client's position. */
    method Run(fd: int, connectOk: bool, requestOk: bool, polls: nat -> Poll, body: string, ggaOk: bool)
      returns (ok: bool)
      requires Gga.IsBody(body)
      modifies this`running, this`socketFd, this`closed, this`gga, this`sent
      ensures old(running) ==>
                && ok && running && socketFd == old(socketFd) && closed == old(closed)
                && gga == old(gga) && sent == old(sent)
      ensures !old(running) ==>
                && !running && (ok <==> fd != -1 && connectOk && requestOk && Succeeds(polls) && ggaOk)
                && socketFd == (if ok then fd else Released(old(socketFd)))
                && closed == old(closed) + ToClose(old(socketFd)) + (if ok || fd == -1 then [] else [fd])
      ensures !old(running) ==>
                var reached := fd != -1 && connectOk && requestOk && Answered(polls);
                && gga == (if reached && old(gga) == "" then Gga.Sentence(body) else old(gga))
                && sent == old(sent) + (if fd != -1 && connectOk then [Wire.ClientRequest(config)] else [])
                                     + (if reached then [gga] else [])
      ensures !old(running) && ok ==>
                exists j | 0 <= j < 29 :: polls(j).Chunk? && (Contains(polls(j).text, "HTTP/1.1 200 OK")
                                                              || Contains(polls(j).text, "ICY 200 OK"))
      ensures !old(running) && fd != -1 && connectOk && requestOk && ggaOk ==> A.CasterAgrees(polls, ok)
    {
      hide Accepts, Succeeds, Answered, Quiet, AcceptedAt, Gga.IsBody, Gga.Frame, Wire.ClientRequest, A.CasterAgrees;
      A.SuccessAgrees(polls);
      SuccessIs(polls);
      if running {
        return true;
      }
      Stop();
      if fd == -1 {
        return false;
      }
      if !connectOk {
        closed := closed + [fd];
        return false;
      }
      sent := sent + [Wire.ClientRequest(config)];
      if !requestOk {
        closed := closed + [fd];
        return false;
      }
      QuietEnd(polls);
      var timeout := TIMEOUT;
      while true
        invariant 0 <= timeout <= TIMEOUT && Quiet(polls, TIMEOUT - timeout) && !running
        invariant socketFd == Released(old(socketFd)) && closed == old(closed) + ToClose(old(socketFd))
        invariant sent == old(sent) + [Wire.ClientRequest(config)] && gga == old(gga)
        decreases timeout
      {
        var more := timeout != 0;
        timeout := timeout - 1;
        if !more {
          break;
        }
        QuietStep(polls, TIMEOUT - 1 - timeout);
        var p := polls(TIMEOUT - 1 - timeout);
        if p.Chunk? {
          if Accepts(p.text) {
            if gga == "" {
              var ret;
              ret, gga := Gga.GGAFrameGenerate(body);
            }
            sent := sent + [gga];
            if !ggaOk {
              closed := closed + [fd];
              return false;
            }
            break;
          }
        } else if p.Closed? {
          closed := closed + [fd];
          return false;
        }
      }
      if timeout <= 0 {
        closed := closed + [fd];
        return false;
      }
      socketFd := fd;
      return true;
    }

    /** The report at the end of an interval. */
    method Report(body: string)
      requires Gga.IsBody(body)
      modifies this`gga, this`sent
      ensures gga == (if ggaIsUpdate then old(gga) else Gga.Sentence(body)) && sent == old(sent) + [gga]
    {
      hide Gga.Sentence, Gga.IsBody;
      if !ggaIsUpdate {
        var ret;
        ret, gga := Gga.GGAFrameGenerate(body);
      }
      sent := sent + [gga];
    }

    ghost function Value(counter: int, begun: int, log: seq<W.Mark>, done: bool): W.Watch
      reads this
    {
      W.Watch(counter, begun, gga, ggaIsUpdate, log, done)
    }

    /** One pass of the receive loop; `ended` if it leaves the loop. */
    method Pass(p: W.Pass, interval: int, counter: int, begun: int, ghost log: seq<W.Mark>)
      returns (ended: bool, counter': int, begun': int, ghost marks: seq<W.Mark>)
      requires Gga.IsBody(p.body)
      modifies this`gga, this`ggaIsUpdate, this`sent, this`delivered
      ensures Value(counter', begun', log + marks, ended) == W.Tick(old(Value(counter, begun, log, false)), p, interval)
      ensures sent == old(sent) + W.Sentences(marks) && delivered == old(delivered) + W.Texts(marks)
    {
      hide Gga.Sentence, Gga.IsBody, W.Sentences, W.Texts;
      W.EmptyLog(log);
      ended, counter', begun', marks := false, counter, begun, [];
      if p.update.Some? {
        SetGgaBuffer(p.update.value);
      }
      if !p.running {
        ended := true;
        return;
      }
      match p.receipt {
        case EndOfStream =>
          ended := true;
          return;
        case Error(fatal) =>
          if fatal {
            ended := true;
            return;
          }
        case Payload(text) =>
          counter' := W.PERIOD;
          delivered := delivered + [text];
          W.LogAfter(marks, text);
          marks := marks + [W.Received(text)];
          if |text| == W.BUFFER_SIZE {
            return;
          }
      }
      if p.now - begun >= interval {
        counter' := counter' - 1;
        if counter' + 1 <= 0 {
          ended := true;
          return;
        }
        begun' := p.restart;
        Report(p.body);
        W.LogAfter(marks, gga);
        assert log + (marks + [W.Reported(gga)]) == (log + marks) + [W.Reported(gga)];
        marks := marks + [W.Reported(gga)];
      }
    }

    /** The receive loop, for the passes the environment provides: `ended` says whether the
        loop comes to its end within them, and then the socket is closed. The application is
        given each payload, and it may set a sentence of its own at any time. */
    method ThreadHandler(start: int, passes: seq<W.Pass>, interval: int) returns (ended: bool)
      requires forall i | 0 <= i < |passes| :: Gga.IsBody(passes[i].body)
      modifies this
      ensures var w := W.Watched(W.Start(start, old(gga), old(ggaIsUpdate)), passes, interval);
              && ended == w.done && running == !ended && gga == w.gga && ggaIsUpdate == w.ggaIsSet
              && sent == old(sent) + W.Sentences(w.log) && delivered == old(delivered) + W.Texts(w.log)
      ensures socketFd == if ended then Released(old(socketFd)) else old(socketFd)
      ensures closed == old(closed) + if ended then ToClose(old(socketFd)) else []
    {
      hide W.Watched, W.Tick, W.Sentences, W.Texts, Gga.IsBody;
      ghost var w0 := W.Start(start, gga, ggaIsUpdate);
      ghost var log: seq<W.Mark> := [];
      var counter, begun := W.PERIOD, start;
      running, ended := true, false;
      var i := 0;
      W.Nothing(w0, passes, interval);
      W.EmptyLog(log);
      while i < |passes| && !ended
        invariant 0 <= i <= |passes| && running && socketFd == old(socketFd) && closed == old(closed)
        invariant W.Watched(w0, passes[..i], interval) == Value(counter, begun, log, ended)
        invariant sent == old(sent) + W.Sentences(log) && delivered == old(delivered) + W.Texts(log)
      {
        W.WatchedStep(w0, passes, i, interval);
        ghost var marks;
        ended, counter, begun, marks := Pass(passes[i], interval, counter, begun, log);
        W.LogConcat(log, marks);
        log := log + marks;
        i := i + 1;
      }
      if ended {
        if socketFd > 0 {
          closed := closed + [socketFd];
          socketFd := -1;
        }
        running := false;
        W.DoneStays(w0, passes, i, interval);
      } else {
        assert passes[..i] == passes;
      }
    }
  }
}
