/** The NTRIP caster as a state machine: its mount table, its source-table rows and the
    connections, with one step for each event of its loop. */
module Caster {
  import opened Text
  import opened Requests
  import Net
  import Split

  datatype Mount = Mount(serverFd: int, name: string, user: string, password: string, clients: seq<int>)

  datatype State = State(mounts: seq<Mount>, rows: seq<string>, net: Net.Net)

  datatype Outcome = Outcome(st: State, ret: int)

  const INIT := State([], [], Net.EMPTY)

  const BAD_PASSWORD := "ERROR - Bad Password\r\n"
  const OK_REPLY := "HTTP/1.1 200 OK\r\n"
  const ICY_REPLY := "ICY 200 OK\r\n"
  const UNAUTHORIZED := "HTTP/1.1 401 Unauthorized\r\n"

  function Names(mounts: seq<Mount>): set<string> {
    set q | 0 <= q < |mounts| :: mounts[q].name
  }

  // ---------- requests ----------

  /** `fails` numbers the sends of a step that the kernel does not complete. */
  function ServerConnect(st: State, lines: seq<string>, fd: int, fails: set<nat>): Outcome {
    match ReadPost(lines, Names(st.mounts), 0, NO_LOGIN)
    case Refused => Outcome(st, -1)
    case Taken => Outcome(st.(net := Net.Send(st.net, fd, BAD_PASSWORD, 0 !in fails)), -1)
    case Headers(login) =>
      match ReadRow(lines, login.mount, 0, "")
      case None => Outcome(st, -1)
      case Some(row) =>
        if Complete(login) && Net.Sends(st.net, fd, 0 !in fails) then
          var mount := Mount(fd, login.mount, login.user, login.password, []);
          Outcome(State(st.mounts + [mount], st.rows + [row], Net.Send(st.net, fd, OK_REPLY, 0 !in fails)), 0)
        else Outcome(st, -1)
  }

  predicate Matches(mount: Mount, login: Login) {
    login.mount == mount.name && login.user == mount.user && login.password == mount.password
  }

  function AddClient(st: State, q: nat, fd: int): State
    requires q < |st.mounts|
  {
    var mount := st.mounts[q];
    st.(mounts := st.mounts[q := mount.(clients := mount.clients + [fd])])
  }

  function Reply(version1: bool): string {
    if version1 then ICY_REPLY else OK_REPLY
  }

  function Unauthorized(st: State, fd: int, ok: bool): Outcome {
    Outcome(st.(net := Net.Send(st.net, fd, UNAUTHORIZED, ok)), -1)
  }

  /** The search through the mounts from `q` on, `n` sends having been tried. */
  function Admit(st: State, q: nat, n: nat, got: GetHeaders, fd: int, fails: set<nat>): Outcome
    requires q <= |st.mounts|
    decreases |st.mounts| - q
  {
    if q == |st.mounts| then Unauthorized(st, fd, n !in fails)
    else if Matches(st.mounts[q], got.login) then
      if Net.Sends(st.net, fd, n !in fails) then
        Outcome(AddClient(st.(net := Net.Send(st.net, fd, Reply(got.version1), n !in fails)), q, fd), 0)
      else Admit(st, q + 1, n + 1, got, fd, fails)
    else Admit(st, q + 1, n, got, fd, fails)
  }

  function ClientConnect(st: State, lines: seq<string>, fd: int, fails: set<nat>): Outcome {
    var got := ReadGet(lines, 0, GetHeaders(NO_LOGIN, false));
    if Complete(got.login) then Admit(st, 0, 0, got, fd, fails)
    else Unauthorized(st, fd, 0 !in fails)
  }

  // ---------- data ----------

  function FindServer(mounts: seq<Mount>, fd: int, q: nat): (r: Position)
    requires q <= |mounts|
    ensures r.At? ==> q <= r.pos < |mounts| && mounts[r.pos].serverFd == fd
    decreases |mounts| - q
  {
    if q == |mounts| then Npos
    else if mounts[q].serverFd == fd then At(q)
    else FindServer(mounts, fd, q + 1)
  }

  /** The first mount with that server. */
  lemma {:induction false} FindServerFirst(mounts: seq<Mount>, fd: int, q: nat)
    requires q <= |mounts|
    ensures match FindServer(mounts, fd, q)
            case Npos => forall k | q <= k < |mounts| :: mounts[k].serverFd != fd
            case At(p) => forall k | q <= k < p :: mounts[k].serverFd != fd
    decreases |mounts| - q
  {
    if q < |mounts| && mounts[q].serverFd != fd {
      FindServerFirst(mounts, fd, q + 1);
    }
  }

  function SendAll(net: Net.Net, clients: seq<int>, i: nat, data: string, fails: set<nat>): Net.Net
    requires i <= |clients|
    decreases |clients| - i
  {
    if i == |clients| then net
    else SendAll(Net.Send(net, clients[i], data, i !in fails), clients, i + 1, data, fails)
  }

  function Forward(st: State, fd: int, data: string, fails: set<nat>): Outcome {
    match FindServer(st.mounts, fd, 0)
    case Npos => Outcome(st, -1)
    case At(q) => Outcome(st.(net := SendAll(st.net, st.mounts[q].clients, 0, data, fails)), 0)
  }

  predicate HasRequest(data: string) {
    Contains(data, "GET /") || Contains(data, "POST /")
  }

  predicate HasGga(data: string) {
    Contains(data, "$GPGGA,") || Contains(data, "$GNGGA,")
  }

  predicate IsPost(data: string) {
    Contains(data, "POST /") && Contains(data, "HTTP/1.1")
  }

  predicate IsGet(data: string) {
    Contains(data, "GET /") && (Contains(data, "HTTP/1.1") || Contains(data, "HTTP/1.0"))
  }

  function Lines(data: string): seq<string> {
    Split.SplitResult(data, CRLF, true)
  }

  function ParseData(st: State, fd: int, data: string, fails: set<nat>): Outcome {
    if HasRequest(data) then
      if IsPost(data) then ServerConnect(st, Lines(data), fd, fails)
      else if IsGet(data) then ClientConnect(st, Lines(data), fd, fails)
      else Outcome(st, -1)
    else
      var forwarded := Forward(st, fd, data, fails);
      if forwarded.ret < 0 && HasGga(data) then forwarded.(ret := 0) else forwarded
  }

  // ---------- hang-ups ----------

  function CloseAll(net: Net.Net, fds: seq<int>): Net.Net
    decreases |fds|
  {
    if fds == [] then net else CloseAll(Net.Close(net, fds[0]), fds[1..])
  }

  /** The first mount served by `fd` or with `fd` as a client. */
  function FindRole(mounts: seq<Mount>, fd: int, q: nat): (r: Position)
    requires q <= |mounts|
    ensures r.At? ==> q <= r.pos < |mounts| && (mounts[r.pos].serverFd == fd || fd in mounts[r.pos].clients)
    decreases |mounts| - q
  {
    if q == |mounts| then Npos
    else if mounts[q].serverFd == fd || fd in mounts[q].clients then At(q)
    else FindRole(mounts, fd, q + 1)
  }

  /** The first mount that knows the descriptor. */
  lemma {:induction false} FindRoleFirst(mounts: seq<Mount>, fd: int, q: nat)
    requires q <= |mounts|
    ensures match FindRole(mounts, fd, q)
            case Npos => forall k | q <= k < |mounts| :: mounts[k].serverFd != fd && fd !in mounts[k].clients
            case At(p) => forall k | q <= k < p :: mounts[k].serverFd != fd && fd !in mounts[k].clients
    decreases |mounts| - q
  {
    if q < |mounts| && mounts[q].serverFd != fd && fd !in mounts[q].clients {
      FindRoleFirst(mounts, fd, q + 1);
    }
  }

  function RemoveFirst(fds: seq<int>, fd: int): seq<int> {
    if fds == [] then [] else if fds[0] == fd then fds[1..] else [fds[0]] + RemoveFirst(fds[1..], fd)
  }

  /** Erase the first row that contains `pat`. */
  function EraseRow(rows: seq<string>, pat: string): seq<string> {
    if rows == [] then []
    else if Contains(rows[0], pat) then rows[1..]
    else [rows[0]] + EraseRow(rows[1..], pat)
  }

  lemma {:induction false} RemoveFirstAt(fds: seq<int>, fd: int, i: nat)
    requires i < |fds| && fds[i] == fd && forall k | 0 <= k < i :: fds[k] != fd
    ensures RemoveFirst(fds, fd) == fds[..i] + fds[i + 1..]
  {
    if i > 0 {
      RemoveFirstAt(fds[1..], fd, i - 1);
      assert fds[..i] == [fds[0]] + fds[1..][..i - 1];
    }
  }

  lemma {:induction false} RemoveFirstNone(fds: seq<int>, fd: int)
    requires fd !in fds
    ensures RemoveFirst(fds, fd) == fds
  {
    if fds != [] {
      RemoveFirstNone(fds[1..], fd);
    }
  }

  lemma {:induction false} EraseRowAt(rows: seq<string>, pat: string, i: nat)
    requires i < |rows| && Contains(rows[i], pat) && forall k | 0 <= k < i :: !Contains(rows[k], pat)
    ensures EraseRow(rows, pat) == rows[..i] + rows[i + 1..]
  {
    hide Contains;
    if i > 0 {
      EraseRowAt(rows[1..], pat, i - 1);
      assert rows[..i] == [rows[0]] + rows[1..][..i - 1];
    }
  }

  lemma {:induction false} EraseRowNone(rows: seq<string>, pat: string)
    requires forall k | 0 <= k < |rows| :: !Contains(rows[k], pat)
    ensures EraseRow(rows, pat) == rows
  {
    hide Contains;
    if rows != [] {
      EraseRowNone(rows[1..], pat);
    }
  }

  function RowKey(name: string): string {
    "STR;" + name + ";"
  }

  function RemoveAt<T>(s: seq<T>, q: nat): seq<T>
    requires q < |s|
  {
    s[..q] + s[q + 1..]
  }

  function Disconnect(st: State, fd: int): State {
    match FindRole(st.mounts, fd, 0)
    case Npos => st.(net := Net.Close(st.net, fd))
    case At(q) =>
      var mount := st.mounts[q];
      if mount.serverFd == fd then
        State(RemoveAt(st.mounts, q), EraseRow(st.rows, RowKey(mount.name)),
              Net.Close(CloseAll(st.net, mount.clients), fd))
      else
        st.(mounts := st.mounts[q := mount.(clients := RemoveFirst(mount.clients, fd))],
            net := Net.Close(st.net, fd))
  }

  // ---------- events ----------

  datatype Event =
    | Accept(fd: int)
    | Recv(fd: int, data: string, fails: set<nat>)
    | Hangup(fd: int)

  /** `accept` gives a descriptor that is not open; the others come from open ones. */
  predicate Possible(st: State, e: Event) {
    match e
    case Accept(fd) => fd !in st.net.conn
    case Recv(fd, data, _) => fd in st.net.conn && data != ""
    case Hangup(fd) => fd in st.net.conn
  }

  function Step(st: State, e: Event): State {
    match e
    case Accept(fd) => st.(net := Net.Accept(st.net, fd))
    case Recv(fd, data, fails) =>
      var r := ParseData(st, fd, data, fails);
      if r.ret < 0 then r.st.(net := Net.Close(r.st.net, fd)) else r.st
    case Hangup(fd) => Disconnect(st, fd)
  }

  /** The table part of `Stop`: every client and every server is closed, table by table. */
  function ClearMounts(net: Net.Net, mounts: seq<Mount>): Net.Net
    decreases |mounts|
  {
    if mounts == [] then net
    else ClearMounts(Net.Close(CloseAll(net, mounts[0].clients), mounts[0].serverFd), mounts[1..])
  }

  function Stop(st: State): State {
    State([], [], ClearMounts(st.net, st.mounts))
  }

  // ---------- runs ----------

  function Run(events: seq<Event>): State {
    if events == [] then INIT else Step(Run(events[..|events| - 1]), events[|events| - 1])
  }
}
