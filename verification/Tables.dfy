/** What one call of ParseData can do to the tables, and what holds of the tables in
    every run, whatever bytes the peers send. */
module Tables {
  import opened Text
  import opened Requests
  import opened Caster
  import Net

  predicate SameTables(st: State, st': State) {
    st'.mounts == st.mounts && st'.rows == st.rows
  }

  /** One mount, served by `fd` and without clients, and one row were added. */
  predicate AddsMount(st: State, st': State, fd: int, login: Login, row: string) {
    && st'.mounts == st.mounts + [Mount(fd, login.mount, login.user, login.password, [])]
    && st'.rows == st.rows + [row]
    && Complete(login) && login.mount !in Names(st.mounts)
  }

  /** `fd` became a client of mount `q`. */
  predicate AddsClient(st: State, st': State, q: nat, fd: int)
    requires q < |st.mounts|
  {
    st'.rows == st.rows && st'.mounts == AddClient(st, q, fd).mounts
  }

  /** What a POST request says, once it is acceptable: its login and its row. */
  function Registration(lines: seq<string>, taken: set<string>): Option<(Login, string)> {
    match ReadPost(lines, taken, 0, NO_LOGIN)
    case Refused => None
    case Taken => None
    case Headers(login) =>
      match ReadRow(lines, login.mount, 0, "")
      case None => None
      case Some(row) => if Complete(login) then Some((login, row)) else None
  }

  lemma {:induction false} HeadersAreFree(lines: seq<string>, taken: set<string>, i: nat, login: Login)
    requires i <= |lines| && (login.mount == "" || login.mount !in taken)
    ensures var r := ReadPost(lines, taken, i, login);
            r.Headers? ==> r.login.mount == "" || r.login.mount !in taken
    decreases |lines| - i
  {
    hide Contains, MountOf, UserPassword;
    if i == |lines| {
    } else if Contains(lines[i], "POST") {
      match MountOf(lines[i])
      case None =>
      case Some(m) =>
        if m !in taken {
          HeadersAreFree(lines, taken, i + 1, login.(mount := m));
        }
    } else if Contains(lines[i], "Authorization: Basic") {
      match UserPassword(lines[i])
      case None =>
      case Some(up) => HeadersAreFree(lines, taken, i + 1, login.(user := up.0, password := up.1));
    } else {
      HeadersAreFree(lines, taken, i + 1, login);
    }
  }

  /** A POST request registers exactly when its headers are acceptable and the reply
      goes out; otherwise it changes no table. */
  lemma ServerConnectEffect(st: State, lines: seq<string>, fd: int, fails: set<nat>)
    ensures var r, reg := ServerConnect(st, lines, fd, fails), Registration(lines, Names(st.mounts));
            if reg.Some? && Net.Sends(st.net, fd, 0 !in fails) then
              && r.ret == 0
              && AddsMount(st, r.st, fd, reg.value.0, reg.value.1)
              && r.st.net == Net.Send(st.net, fd, OK_REPLY, 0 !in fails)
            else
              && r.ret == -1
              && SameTables(st, r.st)
              && (r.st.net == st.net || r.st.net == Net.Send(st.net, fd, BAD_PASSWORD, 0 !in fails))
  {
    hide ReadPost, ReadRow, Net.Send, Net.Sends;
    HeadersAreFree(lines, Names(st.mounts), 0, NO_LOGIN);
  }

  /** The search admits to a matching mount, or refuses and changes no table. */
  lemma {:induction false} AdmitEffect(st: State, q: nat, n: nat, got: GetHeaders, fd: int, fails: set<nat>)
    requires q <= |st.mounts|
    ensures var r := Admit(st, q, n, got, fd, fails);
            || (&& r.ret == -1 && SameTables(st, r.st)
                && exists ok :: r.st.net == Net.Send(st.net, fd, UNAUTHORIZED, ok))
            || (&& r.ret == 0 && fd in st.net.conn
                && r.st.net == Net.Send(st.net, fd, Reply(got.version1), true)
                && exists p | q <= p < |st.mounts| :: Matches(st.mounts[p], got.login) && AddsClient(st, r.st, p, fd))
    decreases |st.mounts| - q
  {
    hide Net.Send;
    if q == |st.mounts| {
    } else if Matches(st.mounts[q], got.login) {
      if Net.Sends(st.net, fd, n !in fails) {
        assert AddsClient(st, Admit(st, q, n, got, fd, fails).st, q, fd);
      } else {
        AdmitEffect(st, q + 1, n + 1, got, fd, fails);
      }
    } else {
      AdmitEffect(st, q + 1, n, got, fd, fails);
    }
  }

  // ---------- every run ----------

  /** Names are pairwise distinct and nothing in a mount is empty; there is a row for
      each mount at least. */
  ghost predicate TablesHold(st: State) {
    && (forall q | 0 <= q < |st.mounts| ::
          st.mounts[q].name != "" && st.mounts[q].user != "" && st.mounts[q].password != "")
    && (forall p, q | 0 <= p < q < |st.mounts| :: st.mounts[p].name != st.mounts[q].name)
    && |st.rows| >= |st.mounts|
    && Net.Valid(st.net)
  }

  // ---------- the decision on a login ----------

  /** The sender is told so and becomes a client of mount `q`. */
  function Admitted(st: State, q: nat, fd: int, version1: bool): Outcome
    requires q < |st.mounts|
  {
    Outcome(AddClient(st.(net := Net.Send(st.net, fd, Reply(version1), true)), q, fd), 0)
  }

  lemma {:induction false} NobodyMatches(st: State, i: nat, n: nat, got: GetHeaders, fd: int, fails: set<nat>)
    requires i <= |st.mounts| && forall k | i <= k < |st.mounts| :: !Matches(st.mounts[k], got.login)
    ensures Admit(st, i, n, got, fd, fails) == Unauthorized(st, fd, n !in fails)
    decreases |st.mounts| - i
  {
    hide Net.Send, AddClient;
    if i < |st.mounts| {
      NobodyMatches(st, i + 1, n, got, fd, fails);
    }
  }

  lemma {:induction false} OneMatches(st: State, i: nat, got: GetHeaders, fd: int, fails: set<nat>, q: nat)
    requires i <= q < |st.mounts| && Matches(st.mounts[q], got.login)
    requires forall k | 0 <= k < |st.mounts| && k != q :: !Matches(st.mounts[k], got.login)
    ensures Admit(st, i, 0, got, fd, fails) ==
              if Net.Sends(st.net, fd, 0 !in fails) then Admitted(st, q, fd, got.version1)
              else Unauthorized(st, fd, 1 !in fails)
    decreases |st.mounts| - i
  {
    hide Net.Send, AddClient;
    if i < q {
      OneMatches(st, i + 1, got, fd, fails, q);
    } else if !Net.Sends(st.net, fd, 0 !in fails) {
      NobodyMatches(st, i + 1, 1, got, fd, fails);
    }
  }

  /** The search admits to the mount that matches, if the reply goes out; when no mount
      matches, or the reply is lost, the sender is told that it is not authorized, with the
      first send of the step or the second one. */
  lemma {:induction false} AdmitDecision(st: State, got: GetHeaders, fd: int, fails: set<nat>)
    requires TablesHold(st)
    ensures var r := Admit(st, 0, 0, got, fd, fails);
            && (forall q | 0 <= q < |st.mounts| && Matches(st.mounts[q], got.login) ::
                  r == if Net.Sends(st.net, fd, 0 !in fails) then Admitted(st, q, fd, got.version1)
                       else Unauthorized(st, fd, 1 !in fails))
            && ((forall q | 0 <= q < |st.mounts| :: !Matches(st.mounts[q], got.login)) ==>
                  r == Unauthorized(st, fd, 0 !in fails))
  {
    hide Admit, Admitted, Unauthorized, Net.Sends, Net.Valid;
    if q :| 0 <= q < |st.mounts| && Matches(st.mounts[q], got.login) {
      forall k | 0 <= k < |st.mounts| && k != q
        ensures !Matches(st.mounts[k], got.login)
      {
        assert if k < q then st.mounts[k].name != st.mounts[q].name else st.mounts[q].name != st.mounts[k].name;
      }
      OneMatches(st, 0, got, fd, fails, q);
    } else {
      NobodyMatches(st, 0, 0, got, fd, fails);
    }
  }

  /** Each call of ParseData changes no table, or adds one mount and one row, or adds
      one client; only a call that returns 0 changes anything. */
  lemma ParseDataEffect(st: State, fd: int, data: string, fails: set<nat>)
    ensures var r := ParseData(st, fd, data, fails);
            || (SameTables(st, r.st) && (r.ret == -1 || (r.ret == 0 && !HasRequest(data))))
            || (r.ret == 0 && IsPost(data) && exists login, row :: AddsMount(st, r.st, fd, login, row))
            || (r.ret == 0 && IsGet(data) && !IsPost(data)
                && exists q | 0 <= q < |st.mounts| :: AddsClient(st, r.st, q, fd))
  {
    hide Contains, ReadPost, ReadRow, ReadGet, Net.Send, Net.Sends, AddClient, Lines, SendAll, Complete;
    var lines := Lines(data);
    if HasRequest(data) {
      if IsPost(data) {
        ServerConnectEffect(st, lines, fd, fails);
      } else if IsGet(data) {
        var got := ReadGet(lines, 0, GetHeaders(NO_LOGIN, false));
        AdmitEffect(st, 0, 0, got, fd, fails);
      }
    }
  }

  /** `b` has the connections of `a`; only what was sent may differ. */
  predicate SameConnections(a: Net.Net, b: Net.Net) {
    b.conn == a.conn && b.badCloses == a.badCloses && |b.chunks| == |a.chunks|
  }

  lemma {:induction false} SendAllKeepsConnections(net: Net.Net, fds: seq<int>, i: nat, data: string, fails: set<nat>)
    requires i <= |fds|
    ensures SameConnections(net, SendAll(net, fds, i, data, fails))
    decreases |fds| - i
  {
    if i < |fds| {
      SendAllKeepsConnections(Net.Send(net, fds[i], data, i !in fails), fds, i + 1, data, fails);
    }
  }

  lemma ParseDataKeepsConnections(st: State, fd: int, data: string, fails: set<nat>)
    ensures SameConnections(st.net, ParseData(st, fd, data, fails).st.net)
  {
    hide Contains, ReadPost, ReadRow, ReadGet, AddClient, AddsClient, Lines, SendAll, Complete;
    var lines := Lines(data);
    if HasRequest(data) {
      if IsPost(data) {
        ServerConnectEffect(st, lines, fd, fails);
      } else if IsGet(data) {
        AdmitEffect(st, 0, 0, ReadGet(lines, 0, GetHeaders(NO_LOGIN, false)), fd, fails);
      }
    } else {
      var server := FindServer(st.mounts, fd, 0);
      if server.At? {
        SendAllKeepsConnections(st.net, st.mounts[server.pos].clients, 0, data, fails);
      }
    }
  }

  lemma {:induction false} CloseAllKeeps(net: Net.Net, fds: seq<int>)
    ensures var n := CloseAll(net, fds);
            && n.chunks == net.chunks && n.badCloses >= net.badCloses
            && (forall d | d in n.conn :: d in net.conn && d !in fds && n.conn[d] == net.conn[d])
            && (forall d | d in net.conn && d !in fds :: d in n.conn)
    decreases |fds|
  {
    if fds != [] {
      CloseAllKeeps(Net.Close(net, fds[0]), fds[1..]);
      assert forall d :: d in fds <==> d == fds[0] || d in fds[1..];
    }
  }

  lemma {:induction false} EraseRowLength(rows: seq<string>, pat: string)
    ensures |rows| - 1 <= |EraseRow(rows, pat)| <= |rows|
    decreases |rows|
  {
    hide Contains;
    if rows != [] && !Contains(rows[0], pat) {
      EraseRowLength(rows[1..], pat);
    }
  }

  lemma HangupKeepsTables(st: State, fd: int)
    requires TablesHold(st)
    ensures TablesHold(Disconnect(st, fd))
  {
    hide EraseRow, CloseAll, RemoveFirst, FindRole;
    var st', role := Disconnect(st, fd), FindRole(st.mounts, fd, 0);
    if role.At? {
      CloseAllKeeps(st.net, st.mounts[role.pos].clients);
      EraseRowLength(st.rows, RowKey(st.mounts[role.pos].name));
      if st.mounts[role.pos].serverFd == fd {
        assert forall k | 0 <= k < |st'.mounts| ::
            st'.mounts[k] == if k < role.pos then st.mounts[k] else st.mounts[k + 1];
      }
    }
  }

  lemma StepKeepsTables(st: State, e: Event)
    requires TablesHold(st)
    ensures TablesHold(Step(st, e))
  {
    hide ParseData, Disconnect, Contains;
    match e
    case Accept(fd) =>
    case Recv(fd, data, fails) =>
      ParseDataEffect(st, fd, data, fails);
      ParseDataKeepsConnections(st, fd, data, fails);
    case Hangup(fd) =>
      HangupKeepsTables(st, fd);
  }

  lemma InitHolds()
    ensures TablesHold(INIT)
  {
  }

  /** For every sequence of events and every content of the payloads. */
  lemma {:induction false} TablesAlwaysHold(events: seq<Event>)
    ensures TablesHold(Run(events))
  {
    hide Step, TablesHold;
    if events == [] {
      InitHolds();
    } else {
      TablesAlwaysHold(events[..|events| - 1]);
      StepKeepsTables(Run(events[..|events| - 1]), events[|events| - 1]);
    }
  }
}
