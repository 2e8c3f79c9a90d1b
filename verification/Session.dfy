/** From end to end: a server's printed request, a client's printed request, and all that
    the client ever receives. */
module Session {
  import opened Text
  import opened Requests
  import opened Caster
  import opened Tables
  import opened Ownership
  import opened Delivery
  import opened Wire
  import opened Parsing
  import opened LoginDecision
  import opened Handshake
  import opened Agreement
  import Headers
  import History
  import Net
  import Split

  // ---------- a server stays ----------

  /** `mount` stands at `q`, and its server is connection `sid`. */
  ghost predicate Serves(st: State, mount: Mount, sid: nat, q: nat) {
    q < |st.mounts| && History.SameMount(st.mounts[q], mount) && IsOn(st.net, mount.serverFd, sid)
  }

  /** The mount is there as long as the server's connection is open. */
  ghost predicate Serving(st: State, mount: Mount, sid: nat) {
    Connected(st.net, sid) ==> exists q :: Serves(st, mount, sid, q)
  }

  lemma RecvServing(st: State, e: Event, mount: Mount, sid: nat, q: nat)
    requires Net.Valid(st.net) && Serves(st, mount, sid, q) && e.Recv?
    ensures Serving(Step(st, e), mount, sid)
  {
    hide ParseData, Complete, Net.Valid, Connected, Names;
    var r := ParseData(st, e.fd, e.data, e.fails);
    ParseDataEffect(st, e.fd, e.data, e.fails);
    ParseDataKeepsConnections(st, e.fd, e.data, e.fails);
    assert q < |r.st.mounts| && History.SameMount(r.st.mounts[q], mount);
    if r.ret < 0 && e.fd == mount.serverFd {
      LastConnection(st.net, Step(st, e).net, e.fd, sid);
    } else {
      assert Serves(Step(st, e), mount, sid, q);
    }
  }

  lemma HangupServing(st: State, fd: int, mount: Mount, sid: nat, q: nat)
    requires Net.Valid(st.net) && Serves(st, mount, sid, q)
    ensures Serving(Disconnect(st, fd), mount, sid)
  {
    hide FindRole, RemoveFirst, EraseRow, CloseAll, Net.Valid, Connected;
    var st', role := Disconnect(st, fd), FindRole(st.mounts, fd, 0);
    DisconnectKeeps(st, fd);
    if mount.serverFd !in st'.net.conn {
      LastConnection(st.net, st'.net, mount.serverFd, sid);
    } else {
      var gone := role.At? && st.mounts[role.pos].serverFd == fd && role.pos < q;
      assert fd != mount.serverFd;
      assert Serves(st', mount, sid, if gone then q - 1 else q);
    }
  }

  lemma StepServing(st: State, e: Event, mount: Mount, sid: nat)
    requires Net.Valid(st.net) && Possible(st, e) && sid < |st.net.chunks| && Serving(st, mount, sid)
    ensures sid < |Step(st, e).net.chunks| && Serving(Step(st, e), mount, sid)
  {
    hide ParseData, Disconnect, Net.Valid, Connected;
    if Connected(st.net, sid) {
      var q :| Serves(st, mount, sid, q);
      match e
      case Accept(fd) =>
        assert Serves(Step(st, e), mount, sid, q);
      case Recv(fd, data, fails) =>
        RecvServing(st, e, mount, sid, q);
        ParseDataKeepsConnections(st, fd, data, fails);
      case Hangup(fd) =>
        HangupServing(st, fd, mount, sid, q);
        DisconnectKeeps(st, fd);
    } else {
      ClosedStep(st, e, sid);
    }
  }

  /** Event `i` is the printed request of `s` on connection `sid`, and the caster accepts it. */
  ghost predicate ServerComes(events: seq<Event>, i: nat, s: ServerConfig, sid: nat) {
    && i < |events| && events[i].Recv? && events[i].data == ServerRequest(s)
    && IsOn(Run(events[..i]).net, events[i].fd, sid)
    && ParseData(Run(events[..i]), events[i].fd, events[i].data, events[i].fails).ret == 0
  }

  lemma ServerIsServing(events: seq<Event>, i: nat, s: ServerConfig, sid: nat)
    requires ServerAdmissible(s) && ServerComes(events, i, s, sid)
    ensures Serving(Run(events[..i + 1]), MountOfServer(s, events[i].fd), sid)
  {
    hide Run, ParseData, ServerRequest, Credentials, Contains, Stored, RowFits, Names,
         ServerAdmissible, Step, Connected;
    var st, e := Run(events[..i]), events[i];
    RunStep(events, i + 1);
    ServerRequestOutcome(st, s, e.fd, e.fails);
    ParseDataKeepsConnections(st, e.fd, e.data, e.fails);
    StepOfAccepted(st, e);
    assert Serves(Run(events[..i + 1]), MountOfServer(s, e.fd), sid, |st.mounts|);
  }

  lemma FirstConnection(events: seq<Event>, i: nat, s: ServerConfig, sid: nat)
    requires ServerComes(events, i, s, sid) && Net.Valid(Run(events[..i]).net)
    ensures sid < |Run(events[..i + 1]).net.chunks|
  {
    hide Run, ParseData, ServerRequest;
    var st, e := Run(events[..i]), events[i];
    RunStep(events, i + 1);
    ParseDataKeepsConnections(st, e.fd, e.data, e.fails);
  }

  /** A registered server's mount is there until its connection closes. */
  lemma {:induction false} ServerStays(events: seq<Event>, i: nat, n: nat, s: ServerConfig, sid: nat)
    requires WellBehaved(events) && i < n <= |events|
    requires ServerAdmissible(s) && ServerComes(events, i, s, sid)
    ensures Serving(Run(events[..n]), MountOfServer(s, events[i].fd), sid)
    ensures sid < |Run(events[..n]).net.chunks|
    decreases n
  {
    hide Run, Step, Possible, Behaves, Net.Valid, WellBehaved, Serving, ServerComes, ServerAdmissible;
    TablesAlwaysHold(events[..n - 1]);
    RunStep(events, n);
    if n == i + 1 {
      ServerIsServing(events, i, s, sid);
      FirstConnection(events, i, s, sid);
    } else {
      ServerStays(events, i, n - 1, s, sid);
      StepBehaves(events, n);
      StepServing(Run(events[..n - 1]), events[n - 1], MountOfServer(s, events[i].fd), sid);
    }
  }

  // ---------- a refused client ----------

  lemma {:induction false} ClosedStays(events: seq<Event>, j: nat, n: nat, k: nat)
    requires WellBehaved(events) && j <= n <= |events|
    requires k < |Run(events[..j]).net.chunks| && !Connected(Run(events[..j]).net, k)
    ensures k < |Run(events[..n]).net.chunks| && !Connected(Run(events[..n]).net, k)
    ensures Run(events[..n]).net.chunks[k] == Run(events[..j]).net.chunks[k]
    decreases n
  {
    hide Run, Step, Possible, Behaves, Net.Valid, WellBehaved, Connected;
    if j < n {
      ClosedStays(events, j, n - 1, k);
      TablesAlwaysHold(events[..n - 1]);
      RunStep(events, n);
      StepBehaves(events, n);
      ClosedStep(Run(events[..n - 1]), events[n - 1], k);
    }
  }

  function Refusal(ok: bool): seq<string> {
    if ok then ["HTTP/1.1 401 Unauthorized\r\n"] else []
  }

  lemma RefusedStep(st: State, e: Event, k: nat, ok: bool)
    requires Sound(st) && Fresh(st) && Behaves(st, e)
    requires e.Recv? && HasRequest(e.data) && IsOn(st.net, e.fd, k)
    requires TurnedAway(st, e.fd, ParseData(st, e.fd, e.data, e.fails), ok)
    ensures var net := Step(st, e).net;
            k < |net.chunks| && net.chunks[k] == Refusal(ok) && !Connected(net, k)
  {
    hide Roles, Owned, ParseData, HasRequest, HasGga, IsServer, Connected;
    SendChunks(st.net, e.fd, "HTTP/1.1 401 Unauthorized\r\n", ok, k);
    LastConnection(st.net, Step(st, e).net, e.fd, k);
  }

  // ---------- an admitted client ----------

  /** The user and the password that the server gave, and the caster can read them. */
  predicate Entitled(s: ServerConfig, c: ClientConfig) {
    c.user == s.user && c.password == s.password && !Contains(Credentials(c.user, c.password), "GET")
  }

  lemma PrintedAdmitsTo(st: State, e: Event, q: nat, c: ClientConfig, v: string)
    requires ClientAdmissible(c) && IsVersion(v)
    requires q < |st.mounts| && e.Recv? && e.data == GetRequest(c, v)
    requires ParseData(st, e.fd, e.data, e.fails).ret == 0
    requires AddsClient(st, ParseData(st, e.fd, e.data, e.fails).st, q, e.fd)
    ensures AdmitsTo(st, e, q)
  {
    hide ParseData, GetRequest, ClientAdmissible, IsGet, IsPost, HasRequest, IsVersion;
    PrintedIsGet(c, v);
  }

  lemma PrintedStyle(s: ServerConfig, c: ClientConfig, v: string)
    requires ClientAdmissible(c) && IsVersion(v) && Entitled(s, c)
    ensures AsksOldStyle(GetRequest(c, v)) <==> v == "HTTP/1.0" || Contains(c.mount, "HTTP/1.0")
  {
    hide Contains, GetRequest, Split.SplitResult, Split.WithCrlf, ClientLines, ReadGet, Credentials, RequestLine,
         AuthLine, Stored, Headers.OldStyleFrom, IsLine;
    ClientSplits(c, v);
    GetOfPrinted(c, v);
    OldStyle(c.mount, v);
    Headers.ReadGetVersion(Lines(GetRequest(c, v)), 0, GetHeaders(NO_LOGIN, false));
  }

  // ---------- the session ----------

  /** Event `j` is a client's request, of version `v`, on connection `k`. */
  ghost predicate ClientComes(events: seq<Event>, j: nat, c: ClientConfig, v: string, k: nat) {
    && j < |events| && events[j].Recv? && events[j].data == GetRequest(c, v)
    && IsOn(Run(events[..j]).net, events[j].fd, k)
  }

  /** In a run of well-behaved peers the caster accepts a server's printed request, and a
      client sends its own for the same mountpoint while the server's connection is open. */
  ghost predicate Meeting(events: seq<Event>, i: nat, j: nat, s: ServerConfig, c: ClientConfig, v: string, k: nat,
                          sid: nat) {
    && WellBehaved(events) && i < j
    && ServerAdmissible(s) && ClientAdmissible(c) && c.mount == s.mount
    && ServerComes(events, i, s, sid) && ClientComes(events, j, c, v, k)
    && Connected(Run(events[..j]).net, sid)
  }

  lemma DecisionInRun(events: seq<Event>, i: nat, j: nat, s: ServerConfig, c: ClientConfig, v: string, k: nat, sid: nat)
    returns (q: nat)
    requires Meeting(events, i, j, s, c, v, k, sid) && IsVersion(v)
    ensures var st, fd, fails := Run(events[..j]), events[j].fd, events[j].fails;
            var r := ParseData(st, fd, GetRequest(c, v), fails);
            && Serves(st, MountOfServer(s, events[i].fd), sid, q)
            && if Entitled(s, c) && 0 !in fails then r.ret == 0 && AddsClient(st, r.st, q, fd)
               else TurnedAway(st, fd, r, (if Entitled(s, c) then 1 else 0) !in fails)
  {
    hide Run, WellBehaved, ServerAdmissible, ClientAdmissible, ServerComes, Connected, ParseData, GetRequest,
         TurnedAway, TablesHold, Stored, Net.Send, Contains, Credentials;
    ServerStays(events, i, j, s, sid);
    TablesAlwaysHold(events[..j]);
    var st := Run(events[..j]);
    q :| Serves(st, MountOfServer(s, events[i].fd), sid, q);
    ClientRequestDecision(st, q, s, c, v, events[j].fd, events[j].fails);
  }

  /** A session: from then on and until any later point the client receives exactly this: with
      the server's user and password the acceptance, in the style its request asks for, and all
      that the server sends; with any other the refusal and nothing more. */
  lemma ClientReceives(events: seq<Event>, i: nat, j: nat, n: nat, s: ServerConfig, c: ClientConfig, v: string, k: nat,
                       sid: nat)
    requires Meeting(events, i, j, s, c, v, k, sid) && j < n <= |events|
    requires v == "HTTP/1.0" || v == "HTTP/1.1"
    ensures k < |Run(events[..n]).net.chunks|
    ensures var right := c.user == s.user && c.password == s.password
                         && !Contains(Credentials(c.user, c.password), "GET");
            Run(events[..n]).net.chunks[k] ==
              if right && 0 !in events[j].fails then
                [if v == "HTTP/1.0" || Contains(c.mount, "HTTP/1.0") then "ICY 200 OK\r\n" else "HTTP/1.1 200 OK\r\n"]
                + Stream(events, j + 1, n, k, sid)
              else if (if right then 1 else 0) in events[j].fails then []
              else ["HTTP/1.1 401 Unauthorized\r\n"]
  {
    hide Run, Step, WellBehaved, ServerAdmissible, ClientAdmissible, ServerComes, Connected, ParseData, GetRequest,
         TurnedAway, Possible, Behaves, Sound, Fresh, AdmitsTo, Contains, Credentials,
         AsksOldStyle, HasRequest, IsGet, IsPost, Stream, StillAttached;
    var st, e := Run(events[..j]), events[j];
    var q := DecisionInRun(events, i, j, s, c, v, k, sid);
    if Entitled(s, c) && 0 !in e.fails {
      PrintedAdmitsTo(st, e, q, c, v);
      PrintedStyle(s, c, v);
      StreamDelivery(events, j, n, q);
    } else {
      PrefixBehaves(events, j);
      AlwaysSound(events[..j]);
      StepBehaves(events, j + 1);
      RunStep(events, j + 1);
      PrintedIsGet(c, v);
      RefusedStep(st, e, k, (if Entitled(s, c) then 1 else 0) !in e.fails);
      ClosedStays(events, j + 1, n, k);
    }
  }

  lemma NoSuccess(polls: nat -> Poll, ok: bool)
    requires Heard(polls, TIMEOUT) <= Refusal(ok)
    ensures !Succeeds(polls)
  {
    hide Accepts, Heard, Succeeds;
    RefusalsDoNotAccept();
    if Succeeds(polls) {
      SuccessIsHeard(polls, Refusal(ok));
    }
  }

  /** And the client knows: of its handshake over such a connection success is the outcome
      if and only if it was let in and the reply came in time. */
  lemma ClientLearns(events: seq<Event>, i: nat, j: nat, n: nat, s: ServerConfig, c: ClientConfig, v: string, k: nat,
                     sid: nat, polls: nat -> Poll)
    requires Meeting(events, i, j, s, c, v, k, sid) && j < n <= |events|
    requires v == "HTTP/1.0" || v == "HTTP/1.1"
    requires k < |Run(events[..n]).net.chunks| && Heard(polls, TIMEOUT) <= Run(events[..n]).net.chunks[k]
    ensures Succeeds(polls) <==>
              && c.user == s.user && c.password == s.password && !Contains(Credentials(c.user, c.password), "GET")
              && 0 !in events[j].fails && AnsweredInTime(polls)
  {
    hide Run, WellBehaved, ServerAdmissible, ClientAdmissible, ServerComes, Connected, Heard, Succeeds,
         AnsweredInTime, Credentials, Contains, Accepts, Stream;
    ClientReceives(events, i, j, n, s, c, v, k, sid);
    if Entitled(s, c) && 0 !in events[j].fails {
      RepliesAccept();
      SuccessIsInTime(polls, Run(events[..n]).net.chunks[k]);
    } else {
      NoSuccess(polls, (if Entitled(s, c) then 1 else 0) !in events[j].fails);
    }
  }
}
