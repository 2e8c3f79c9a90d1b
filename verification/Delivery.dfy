/** What reaches a client: its acceptance reply and then, chunk by chunk and in order,
    exactly what its own mount's server sends. */
module Delivery {
  import opened Text
  import opened Requests
  import opened Caster
  import opened Tables
  import opened Ownership
  import Headers
  import History
  import Net

  predicate Connected(net: Net.Net, k: nat) {
    exists d | d in net.conn :: net.conn[d] == k
  }

  /** Connection `k` belongs to a client of the mount served by connection `sid`. */
  ghost predicate Attached(st: State, k: nat, sid: nat, q: nat, c: int) {
    && q < |st.mounts| && c in st.mounts[q].clients
    && c in st.net.conn && st.net.conn[c] == k
    && st.mounts[q].serverFd in st.net.conn && st.net.conn[st.mounts[q].serverFd] == sid
  }

  ghost predicate Sound(st: State) {
    Owned(st) && Net.Valid(st.net)
  }

  /** Descriptor `d` belongs to connection `k`. */
  predicate IsOn(net: Net.Net, d: int, k: nat) {
    d in net.conn && net.conn[d] == k
  }

  /** The send to connection `k` is one of those that fail in the step: a payload is sent to
      the clients of the sender's mount in the order of the list. */
  ghost predicate Lost(st: State, e: Event, k: nat) {
    e.Recv? && exists q, i | 0 <= q < |st.mounts| && 0 <= i < |st.mounts[q].clients| ::
      st.mounts[q].serverFd == e.fd && IsOn(st.net, st.mounts[q].clients[i], k) && i in e.fails
  }

  // ---------- chunks ----------

  lemma SendChunks(net: Net.Net, fd: int, text: string, ok: bool, k: nat)
    requires k < |net.chunks|
    ensures var net' := Net.Send(net, fd, text, ok);
            && |net'.chunks| == |net.chunks|
            && net'.chunks[k] ==
               if Net.Sends(net, fd, ok) && net.conn[fd] == k then net.chunks[k] + [text] else net.chunks[k]
  {
  }

  /** The send to `c` is number `x`. */
  lemma {:induction false} SendAllChunks(net: Net.Net, fds: seq<int>, i: nat, data: string, fails: set<nat>,
                                           x: nat, k: nat)
    requires Net.Valid(net) && i <= |fds| && k < |net.chunks|
    requires x < |fds| && IsOn(net, fds[x], k) && forall y | 0 <= y < |fds| && y != x :: fds[y] != fds[x]
    ensures var net' := SendAll(net, fds, i, data, fails);
            && |net'.chunks| == |net.chunks|
            && net'.chunks[k] == net.chunks[k] + if i <= x && x !in fails then [data] else []
    decreases |fds| - i
  {
    if i < |fds| {
      var net1 := Net.Send(net, fds[i], data, i !in fails);
      SendChunks(net, fds[i], data, i !in fails, k);
      assert Net.Valid(net1);
      SendAllChunks(net1, fds, i + 1, data, fails, x, k);
    }
  }

  lemma {:induction false} OnlyOnce(fds: seq<int>, c: int) returns (x: nat)
    requires c in fds && multiset(fds)[c] <= 1
    ensures x < |fds| && fds[x] == c && forall y | 0 <= y < |fds| && y != x :: fds[y] != c
    decreases |fds|
  {
    var rest := fds[1..];
    assert fds == [fds[0]] + rest;
    assert multiset(fds)[c] == (if fds[0] == c then 1 else 0) + multiset(rest)[c];
    if fds[0] == c {
      assert c !in rest;
      assert forall y | 0 < y < |fds| :: fds[y] == rest[y - 1];
      x := 0;
    } else {
      x := OnlyOnce(rest, c);
      assert forall y | 0 < y < |fds| :: fds[y] == rest[y - 1];
      x := x + 1;
    }
  }

  /** A request is answered to its sender and to nobody else. */
  lemma RequestChunks(st: State, fd: int, data: string, fails: set<nat>, k: nat)
    requires HasRequest(data) && k < |st.net.chunks|
    ensures var net' := ParseData(st, fd, data, fails).st.net;
            && |net'.chunks| == |st.net.chunks|
            && (!(fd in st.net.conn && st.net.conn[fd] == k) ==> net'.chunks[k] == st.net.chunks[k])
  {
    hide Contains, ReadPost, ReadRow, ReadGet, Lines, Net.Send, AddClient, Complete, Names;
    ParseDataKeepsConnections(st, fd, data, fails);
    if IsPost(data) {
      ServerConnectEffect(st, Lines(data), fd, fails);
      SendChunks(st.net, fd, OK_REPLY, 0 !in fails, k);
      SendChunks(st.net, fd, BAD_PASSWORD, 0 !in fails, k);
    } else if IsGet(data) {
      var got := ReadGet(Lines(data), 0, GetHeaders(NO_LOGIN, false));
      AdmitEffect(st, 0, 0, got, fd, fails);
      forall ok
        ensures var net' := Net.Send(st.net, fd, UNAUTHORIZED, ok);
                && |net'.chunks| == |st.net.chunks|
                && (!(fd in st.net.conn && st.net.conn[fd] == k) ==> net'.chunks[k] == st.net.chunks[k])
      {
        SendChunks(st.net, fd, UNAUTHORIZED, ok, k);
      }
      SendChunks(st.net, fd, Reply(got.version1), true, k);
      SendChunks(st.net, fd, UNAUTHORIZED, 0 !in fails, k);
    }
  }

  // ---------- an attached client, step by step ----------

  /** What the step sends to an attached client: the server's payload unless that send
      fails, and nothing else. */
  ghost function Carried(st: State, e: Event, k: nat, sid: nat): seq<string> {
    if e.Recv? && IsOn(st.net, e.fd, sid) && !Lost(st, e, k) then [e.data] else []
  }

  ghost predicate StillAttached(st: State, k: nat, sid: nat) {
    !Connected(st.net, k) || exists q, c :: Attached(st, k, sid, q, c)
  }

  /** Among the mounts only one has the sender as its server, and in its list the client
      stands once. */
  lemma LostIs(st: State, e: Event, k: nat, q: nat, x: nat)
    requires Sound(st) && e.Recv? && q < |st.mounts| && e.fd == st.mounts[q].serverFd
    requires x < |st.mounts[q].clients| && IsOn(st.net, st.mounts[q].clients[x], k)
    requires forall y | 0 <= y < |st.mounts[q].clients| && y != x :: st.mounts[q].clients[y] != st.mounts[q].clients[x]
    ensures Lost(st, e, k) <==> x in e.fails
  {
    hide Roles, Owned;
    OnlyMount(st, e.fd, q);
    var c := st.mounts[q].clients[x];
    forall p, i | 0 <= p < |st.mounts| && 0 <= i < |st.mounts[p].clients|
      ensures st.mounts[p].serverFd == e.fd && IsOn(st.net, st.mounts[p].clients[i], k) ==> p == q && i == x
    {
      assert p != q ==> e.fd !in MountRoles(st.mounts[p]);
    }
  }

  lemma OneOf(st: State, d: int)
    requires Owned(st)
    ensures Roles(st.mounts)[d] <= 1
    ensures Roles(st.mounts)[d] > 0 ==> d in st.net.conn
  {
  }

  lemma FromServer(st: State, e: Event, k: nat, sid: nat, q: nat, c: int)
    requires Sound(st) && Behaves(st, e) && Attached(st, k, sid, q, c)
    requires e.Recv? && e.fd == st.mounts[q].serverFd
    ensures var st' := Step(st, e);
            && |st'.net.chunks| == |st.net.chunks| && k < |st.net.chunks|
            && st'.net.chunks[k] == st.net.chunks[k] + Carried(st, e, k, sid)
            && Attached(st', k, sid, q, c)
  {
    hide Contains, Roles, SendAll, Owned, FindServer, Lost;
    OnlyMount(st, e.fd, q);
    RolesOfMount(st.mounts, q, e.fd);
    RolesOfMount(st.mounts, q, c);
    var clients := st.mounts[q].clients;
    assert multiset(clients)[c] <= 1 by { OneOf(st, c); }
    var x := OnlyOnce(clients, c);
    SendAllChunks(st.net, clients, 0, e.data, e.fails, x, k);
    LostIs(st, e, k, q, x);
    SendAllKeepsConnections(st.net, clients, 0, e.data, e.fails);
  }

  /** Both ends of an attachment have a role. */
  lemma AttachedRoles(st: State, k: nat, sid: nat, q: nat, c: int)
    requires Attached(st, k, sid, q, c)
    ensures HasRole(st, c) && HasRole(st, st.mounts[q].serverFd)
  {
    hide Roles;
    RolesOfMount(st.mounts, q, c);
    RolesOfMount(st.mounts, q, st.mounts[q].serverFd);
  }

  /** Data from anyone else leaves the connection alone. */
  lemma DataFromOther(st: State, e: Event, k: nat, sid: nat, q: nat, c: int)
    requires Sound(st) && Behaves(st, e) && Attached(st, k, sid, q, c)
    requires e.Recv? && e.fd in st.net.conn && e.fd != st.mounts[q].serverFd && !HasRequest(e.data)
    ensures var st' := Step(st, e);
            && |st'.net.chunks| == |st.net.chunks| && k < |st.net.chunks|
            && st'.net.chunks[k] == st.net.chunks[k]
            && Attached(st', k, sid, q, c)
  {
    hide HasRequest, HasGga, Roles, Owned, ParseData, FindServer;
    DataEffect(st, e.fd, e.data, e.fails);
    AttachedRoles(st, k, sid, q, c);
    var r := ParseData(st, e.fd, e.data, e.fails);
    OnlyMount(st, c, q);
    if r.st.net.chunks[k] != st.net.chunks[k] {
      History.ForwardReach(st, e.fd, e.data, e.fails, k);
    }
  }

  lemma RequestFromOther(st: State, e: Event, k: nat, sid: nat, q: nat, c: int)
    requires Sound(st) && Behaves(st, e) && Attached(st, k, sid, q, c)
    requires e.Recv? && e.fd in st.net.conn && HasRequest(e.data)
    ensures var st' := Step(st, e);
            && |st'.net.chunks| == |st.net.chunks| && k < |st.net.chunks|
            && st'.net.chunks[k] == st.net.chunks[k]
            && Attached(st', k, sid, q, c)
            && e.fd != st.mounts[q].serverFd
  {
    hide HasRequest, Roles, Owned, ParseData, Complete;
    AttachedRoles(st, k, sid, q, c);
    RequestChunks(st, e.fd, e.data, e.fails, k);
    ParseDataKeepsConnections(st, e.fd, e.data, e.fails);
    ParseDataEffect(st, e.fd, e.data, e.fails);
  }

  lemma LastConnection(net: Net.Net, net': Net.Net, c: int, k: nat)
    requires Net.Valid(net) && c in net.conn && net.conn[c] == k
    requires c !in net'.conn && forall d | d in net'.conn :: d in net.conn && net'.conn[d] == net.conn[d]
    ensures !Connected(net', k)
  {
  }

  lemma HangupOfServer(st: State, p: nat, k: nat, sid: nat, q: nat, c: int)
    requires Sound(st) && Attached(st, k, sid, q, c) && p < |st.mounts|
    ensures var st' := Disconnect(st, st.mounts[p].serverFd);
            st'.net.chunks == st.net.chunks && StillAttached(st', k, sid)
  {
    hide Roles, Owned, Disconnect, Connected, Net.Valid;
    var fd, sfd := st.mounts[p].serverFd, st.mounts[q].serverFd;
    var st' := Disconnect(st, fd);
    ServerHangup(st, fd, p);
    if p == q {
      LastConnection(st.net, st'.net, c, k);
    } else {
      OnlyMount(st, c, q);
      OnlyMount(st, sfd, q);
      assert st'.mounts[if q < p then q else q - 1] == st.mounts[q];
      assert Attached(st', k, sid, if q < p then q else q - 1, c);
    }
  }

  lemma HangupOfClient(st: State, fd: int, p: nat, k: nat, sid: nat, q: nat, c: int)
    requires Sound(st) && Attached(st, k, sid, q, c)
    requires p < |st.mounts| && fd in st.mounts[p].clients && st.mounts[p].serverFd != fd
    ensures var st' := Disconnect(st, fd);
            st'.net.chunks == st.net.chunks && StillAttached(st', k, sid)
  {
    hide Roles, Owned, Disconnect, Connected, Net.Valid, RemoveFirst;
    var st' := Disconnect(st, fd);
    ClientHangup(st, fd, p);
    OnlyMount(st, fd, p);
    if fd == c {
      LastConnection(st.net, st'.net, c, k);
    } else {
      RemoveFirstTakesOne(st.mounts[p].clients, fd);
      assert c in multiset(st.mounts[q].clients);
      assert st.mounts[q].serverFd in MountRoles(st.mounts[q]);
      assert Attached(st', k, sid, q, c);
    }
  }

  lemma HangupOfAnyone(st: State, fd: int, k: nat, sid: nat, q: nat, c: int)
    requires Sound(st) && Attached(st, k, sid, q, c) && fd in st.net.conn
    ensures var st' := Disconnect(st, fd);
            st'.net.chunks == st.net.chunks && StillAttached(st', k, sid)
  {
    hide Roles, Owned, Disconnect, FindRole, Net.Valid, Connected;
    var role := FindRole(st.mounts, fd, 0);
    FindRoleSpec(st.mounts, fd, 0);
    assert st.mounts[0..] == st.mounts;
    if role.Npos? {
      StrangerHangup(st, fd);
      AttachedRoles(st, k, sid, q, c);
      assert Attached(Disconnect(st, fd), k, sid, q, c);
    } else if st.mounts[role.pos].serverFd == fd {
      HangupOfServer(st, role.pos, k, sid, q, c);
    } else {
      HangupOfClient(st, fd, role.pos, k, sid, q, c);
    }
  }

  /** One step of an attached client: it gets what its server sends and nothing else, and
      stays attached or is closed. */
  lemma AttachedStep(st: State, e: Event, k: nat, sid: nat, q: nat, c: int)
    requires Sound(st) && Possible(st, e) && Behaves(st, e) && Attached(st, k, sid, q, c)
    ensures var st' := Step(st, e);
            && k < |st.net.chunks| <= |st'.net.chunks|
            && st'.net.chunks[k] == st.net.chunks[k] + Carried(st, e, k, sid)
            && StillAttached(st', k, sid)
  {
    hide Roles, Owned, Disconnect, ParseData, HasRequest, HasGga, Lost;
    match e
    case Accept(fd) =>
      assert Attached(Step(st, e), k, sid, q, c);
    case Recv(fd, data, fails) =>
      if fd == st.mounts[q].serverFd {
        FromServer(st, e, k, sid, q, c);
      } else if HasRequest(data) {
        RequestFromOther(st, e, k, sid, q, c);
      } else {
        DataFromOther(st, e, k, sid, q, c);
      }
    case Hangup(fd) =>
      HangupOfAnyone(st, fd, k, sid, q, c);
  }

  lemma DataReach(st: State, fd: int, data: string, fails: set<nat>, k: nat)
    requires !HasRequest(data) && k < |st.net.chunks| && !Connected(st.net, k)
    ensures var net' := ParseData(st, fd, data, fails).st.net;
            |net'.chunks| == |st.net.chunks| && net'.chunks[k] == st.net.chunks[k]
  {
    hide Contains, SendAll;
    ParseDataKeepsConnections(st, fd, data, fails);
    var server := FindServer(st.mounts, fd, 0);
    if server.At? {
      History.SendAllReach(st.net, st.mounts[server.pos].clients, 0, data, fails, k);
    }
  }

  lemma DisconnectKeeps(st: State, fd: int)
    ensures var net' := Disconnect(st, fd).net;
            && net'.chunks == st.net.chunks
            && forall d | d in net'.conn :: d in st.net.conn && net'.conn[d] == st.net.conn[d]
  {
    hide CloseAll, EraseRow, RemoveFirst, FindRole;
    var role := FindRole(st.mounts, fd, 0);
    if role.At? {
      CloseAllKeeps(st.net, st.mounts[role.pos].clients);
    }
  }

  /** A connection once closed stays closed and gets nothing more. */
  lemma ClosedStep(st: State, e: Event, k: nat)
    requires Net.Valid(st.net) && Possible(st, e) && k < |st.net.chunks| && !Connected(st.net, k)
    ensures var st' := Step(st, e);
            && k < |st'.net.chunks| && st'.net.chunks[k] == st.net.chunks[k]
            && !Connected(st'.net, k)
  {
    hide ParseData, HasRequest, Disconnect;
    match e
    case Accept(fd) =>
    case Recv(fd, data, fails) =>
      ParseDataKeepsConnections(st, fd, data, fails);
      if HasRequest(data) {
        RequestChunks(st, fd, data, fails, k);
      } else {
        DataReach(st, fd, data, fails, k);
      }
    case Hangup(fd) =>
      DisconnectKeeps(st, fd);
  }

  // ---------- connections without a role ----------

  /** A connection that has no role has not been sent anything. */
  ghost predicate Fresh(st: State) {
    forall d | d in st.net.conn && !HasRole(st, d) ::
      st.net.conn[d] < |st.net.chunks| && st.net.chunks[st.net.conn[d]] == []
  }

  lemma FreshAfterRequest(st: State, e: Event)
    requires Sound(st) && Possible(st, e) && Behaves(st, e) && Fresh(st)
    requires e.Recv? && HasRequest(e.data)
    ensures Fresh(Step(st, e))
  {
    hide Roles, Owned, ParseData, HasRequest, HasGga, IsServer;
    RequestEffect(st, e.fd, e.data, e.fails);
    var st' := Step(st, e);
    forall d | d in st'.net.conn && !HasRole(st', d)
      ensures st'.net.conn[d] < |st'.net.chunks| && st'.net.chunks[st'.net.conn[d]] == []
    {
      RequestChunks(st, e.fd, e.data, e.fails, st.net.conn[d]);
      assert d != e.fd && !HasRole(st, d);
    }
  }

  lemma ReachedHasRole(st: State, k: nat, d: int)
    requires Net.Valid(st.net) && d in st.net.conn && st.net.conn[d] == k
    requires exists q | 0 <= q < |st.mounts| :: History.Reaches(st.net, st.mounts[q].clients, k)
    ensures HasRole(st, d)
  {
    hide Roles;
    var q :| 0 <= q < |st.mounts| && History.Reaches(st.net, st.mounts[q].clients, k);
    assert d in st.mounts[q].clients;
    RolesOfMount(st.mounts, q, d);
  }

  lemma FreshAfterData(st: State, e: Event)
    requires Sound(st) && Possible(st, e) && Behaves(st, e) && Fresh(st)
    requires e.Recv? && !HasRequest(e.data)
    ensures Fresh(Step(st, e))
  {
    hide Roles, Owned, ParseData, HasRequest, HasGga, IsServer;
    DataEffect(st, e.fd, e.data, e.fails);
    var st', r := Step(st, e), ParseData(st, e.fd, e.data, e.fails);
    forall d | d in st'.net.conn && !HasRole(st', d)
      ensures st'.net.conn[d] < |st'.net.chunks| && st'.net.chunks[st'.net.conn[d]] == []
    {
      var k := st.net.conn[d];
      assert !HasRole(st, d) && st.net.chunks[k] == [];
      if r.st.net.chunks[k] != st.net.chunks[k] {
        History.ForwardReach(st, e.fd, e.data, e.fails, k);
        ReachedHasRole(st, k, d);
      }
    }
  }

  /** A hang-up gives nobody a role and takes it only from descriptors it closes. */
  lemma RoleOfOther(st: State, fd: int, d: int)
    requires Sound(st) && fd in st.net.conn
    ensures d in Disconnect(st, fd).net.conn && HasRole(st, d) ==> HasRole(Disconnect(st, fd), d)
    ensures HasRole(Disconnect(st, fd), d) ==> HasRole(st, d)
  {
    hide Owned, Disconnect, FindRole, Roles, RemoveFirst;
    var role := FindRole(st.mounts, fd, 0);
    FindRoleSpec(st.mounts, fd, 0);
    assert st.mounts[0..] == st.mounts;
    if role.Npos? {
      StrangerHangup(st, fd);
    } else if st.mounts[role.pos].serverFd == fd {
      ServerHangup(st, fd, role.pos);
      RolesAt(st.mounts, role.pos, st.mounts[role.pos]);
    } else {
      var mount := st.mounts[role.pos];
      ClientHangup(st, fd, role.pos);
      RolesAt(st.mounts, role.pos, mount.(clients := RemoveFirst(mount.clients, fd)));
      RemoveFirstTakesOne(mount.clients, fd);
    }
  }

  lemma FreshAfterHangup(st: State, fd: int)
    requires Sound(st) && fd in st.net.conn && Fresh(st)
    ensures Fresh(Disconnect(st, fd))
  {
    hide Owned, Disconnect, FindRole, HasRole;
    var st' := Disconnect(st, fd);
    DisconnectKeeps(st, fd);
    forall d | d in st'.net.conn && !HasRole(st', d)
      ensures !HasRole(st, d)
    {
      RoleOfOther(st, fd, d);
    }
  }

  lemma SameRoles(st: State, e: Event)
    requires e.Accept?
    ensures forall d :: HasRole(Step(st, e), d) == HasRole(st, d)
  {
  }

  lemma StepFresh(st: State, e: Event)
    requires Sound(st) && Possible(st, e) && Behaves(st, e) && Fresh(st)
    ensures Fresh(Step(st, e))
  {
    hide Roles, Owned, Disconnect, ParseData, HasRequest, HasGga, Behaves, HasRole;
    match e
    case Accept(fd) =>
      assert forall d :: HasRole(Step(st, e), d) == HasRole(st, d) by { SameRoles(st, e); }
    case Recv(fd, data, fails) =>
      if HasRequest(data) {
        FreshAfterRequest(st, e);
      } else {
        FreshAfterData(st, e);
      }
    case Hangup(fd) =>
      FreshAfterHangup(st, fd);
  }

  // ---------- whole runs ----------

  lemma {:induction false} PrefixBehaves(events: seq<Event>, n: nat)
    requires WellBehaved(events) && n <= |events|
    ensures WellBehaved(events[..n])
    decreases |events|
  {
    hide Run, Step, Possible, Behaves;
    if n < |events| {
      PrefixBehaves(events[..|events| - 1], n);
      assert events[..|events| - 1][..n] == events[..n];
    } else {
      assert events[..n] == events;
    }
  }

  lemma InitFresh()
    ensures Fresh(INIT)
  {
  }

  lemma {:induction false} AlwaysSound(events: seq<Event>)
    requires WellBehaved(events)
    ensures Sound(Run(events)) && Fresh(Run(events))
  {
    hide Step, Possible, Behaves, Owned, Fresh;
    AlwaysOwned(events);
    TablesAlwaysHold(events);
    if events == [] {
      InitFresh();
    } else {
      AlwaysSound(events[..|events| - 1]);
      StepFresh(Run(events[..|events| - 1]), events[|events| - 1]);
    }
  }

  /** Event `i` admits its sender to mount `q`. */
  ghost predicate AdmitsTo(st: State, e: Event, q: nat) {
    && e.Recv? && IsGet(e.data) && !IsPost(e.data) && q < |st.mounts|
    && var r := ParseData(st, e.fd, e.data, e.fails);
       r.ret == 0 && AddsClient(st, r.st, q, e.fd)
  }

  /** The request asks for the old style: a GET line the caster looks at names HTTP/1.0. */
  ghost predicate AsksOldStyle(data: string) {
    Headers.OldStyleFrom(Lines(data), 0)
  }

  /** The payloads that connection `sid` sends in `events[from..n]` while connection `k`
      is open, in order, without those whose send to `k` fails. */
  ghost function Stream(events: seq<Event>, from: nat, n: nat, k: nat, sid: nat): seq<string>
    requires n <= |events|
    decreases n
  {
    if n <= from then []
    else
      var st := Run(events[..n - 1]);
      Stream(events, from, n - 1, k, sid) +
      if Connected(st.net, k) then Carried(st, events[n - 1], k, sid) else []
  }

  lemma Admission(st: State, e: Event, q: nat)
    requires Sound(st) && Possible(st, e) && Behaves(st, e) && Fresh(st) && AdmitsTo(st, e, q)
    ensures e.fd in st.net.conn && q < |st.mounts| && st.mounts[q].serverFd in st.net.conn
    ensures var k, sid, st' := st.net.conn[e.fd], st.net.conn[st.mounts[q].serverFd], Step(st, e);
            && k < |st'.net.chunks| && st'.net.chunks[k] ==
                 [if AsksOldStyle(e.data) then "ICY 200 OK\r\n" else "HTTP/1.1 200 OK\r\n"]
            && Attached(st', k, sid, q, e.fd)
  {
    hide Contains, Roles, Owned, ReadGet, Lines, Complete, Names;
    var got := ReadGet(Lines(e.data), 0, GetHeaders(NO_LOGIN, false));
    RolesOfMount(st.mounts, q, st.mounts[q].serverFd);
    OneOf(st, st.mounts[q].serverFd);
    AdmitEffect(st, 0, 0, got, e.fd, e.fails);
    Headers.ReadGetVersion(Lines(e.data), 0, GetHeaders(NO_LOGIN, false));
    SendChunks(st.net, e.fd, Reply(got.version1), true, st.net.conn[e.fd]);
  }

  lemma RunStep(events: seq<Event>, n: nat)
    requires 0 < n <= |events|
    ensures Run(events[..n]) == Step(Run(events[..n - 1]), events[n - 1])
  {
    assert events[..n][..n - 1] == events[..n - 1];
  }

  lemma StepBehaves(events: seq<Event>, n: nat)
    requires WellBehaved(events) && 0 < n <= |events|
    ensures Possible(Run(events[..n - 1]), events[n - 1]) && Behaves(Run(events[..n - 1]), events[n - 1])
  {
    hide Run, Possible, Behaves;
    PrefixBehaves(events, n);
    assert events[..n][..n - 1] == events[..n - 1];
  }

  lemma DeliveryStep(st: State, e: Event, k: nat, sid: nat)
    requires Sound(st) && Possible(st, e) && Behaves(st, e)
    requires k < |st.net.chunks| && StillAttached(st, k, sid)
    ensures var st' := Step(st, e);
            && k < |st'.net.chunks|
            && st'.net.chunks[k] == st.net.chunks[k] + (if Connected(st.net, k) then Carried(st, e, k, sid) else [])
            && StillAttached(st', k, sid)
  {
    hide Step, Possible, Behaves, Owned, Net.Valid, Attached, Carried;
    if Connected(st.net, k) {
      var q, c :| Attached(st, k, sid, q, c);
      AttachedStep(st, e, k, sid, q, c);
    } else {
      ClosedStep(st, e, k);
      assert st.net.chunks[k] + [] == st.net.chunks[k];
    }
  }

  /** Stream delivery: in a run of well-behaved peers, a client admitted by event `i` has
      received, at every later point, its reply and then exactly its server's payloads, in
      order, but for those whose own send failed. What fails elsewhere does not matter. */
  lemma {:induction false} StreamDelivery(events: seq<Event>, i: nat, n: nat, q: nat)
    requires WellBehaved(events) && i < n <= |events|
    requires AdmitsTo(Run(events[..i]), events[i], q)
    ensures events[i].fd in Run(events[..i]).net.conn
    ensures q < |Run(events[..i]).mounts| && Run(events[..i]).mounts[q].serverFd in Run(events[..i]).net.conn
    ensures var net := Run(events[..i]).net;
            var k, sid := net.conn[events[i].fd], net.conn[Run(events[..i]).mounts[q].serverFd];
            && k < |Run(events[..n]).net.chunks|
            && Run(events[..n]).net.chunks[k] ==
                 [if AsksOldStyle(events[i].data) then "ICY 200 OK\r\n" else "HTTP/1.1 200 OK\r\n"]
                 + Stream(events, i + 1, n, k, sid)
            && StillAttached(Run(events[..n]), k, sid)
    decreases n
  {
    hide Step, Run, Possible, Behaves, Sound, Fresh, WellBehaved, AsksOldStyle, Connected, Attached,
         IsGet, IsPost, ParseData, Carried;
    RunStep(events, n);
    StepBehaves(events, n);
    PrefixBehaves(events, n - 1);
    AlwaysSound(events[..n - 1]);
    var st, e := Run(events[..n - 1]), events[n - 1];
    if n == i + 1 {
      Admission(st, e, q);
      assert Attached(Run(events[..n]), st.net.conn[e.fd], st.net.conn[st.mounts[q].serverFd], q, e.fd);
    } else {
      StreamDelivery(events, i, n - 1, q);
      var net := Run(events[..i]).net;
      DeliveryStep(st, e, net.conn[events[i].fd], net.conn[Run(events[..i]).mounts[q].serverFd]);
    }
  }

  /** Every payload of the server's connection, lost or not. This looks at connections only,
      at no table. */
  function Sent(events: seq<Event>, from: nat, n: nat, k: nat, sid: nat): seq<string>
    requires n <= |events|
    decreases n
  {
    if n <= from then []
    else
      var net, e := Run(events[..n - 1]).net, events[n - 1];
      Sent(events, from, n - 1, k, sid) +
      if e.Recv? && Connected(net, k) && IsOn(net, e.fd, sid) then [e.data] else []
  }

  /** When the sends go out, the stream is all that the server sent. */
  lemma {:induction false} NothingIsLost(events: seq<Event>, from: nat, n: nat, k: nat, sid: nat)
    requires n <= |events| && forall t | from <= t < n :: events[t].Recv? ==> events[t].fails == {}
    ensures Stream(events, from, n, k, sid) == Sent(events, from, n, k, sid)
    decreases n
  {
    hide Run, Connected;
    if n > from {
      NothingIsLost(events, from, n - 1, k, sid);
    }
  }
}
