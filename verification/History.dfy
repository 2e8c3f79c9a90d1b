/** How a descriptor came into a client list. In every run, whatever the peers send, it was
    put there by a GET request that named the mount's credentials, after the mount's
    registration and with the mount in place ever since. */
module History {
  import opened Text
  import opened Requests
  import opened Caster
  import opened Tables
  import Net

  /** The same registration, whoever its clients are. */
  predicate SameMount(a: Mount, b: Mount) {
    a.serverFd == b.serverFd && a.name == b.name && a.user == b.user && a.password == b.password
  }

  ghost predicate Mounted(st: State, mount: Mount) {
    exists q | 0 <= q < |st.mounts| :: SameMount(st.mounts[q], mount)
  }

  /** A POST request that says what `mount` stores. */
  predicate Registers(data: string, taken: set<string>, mount: Mount) {
    && IsPost(data)
    && var reg := Registration(Lines(data), taken);
       reg.Some? && reg.value.0 == Login(mount.name, mount.user, mount.password)
  }

  /** Event `i` is the POST request that registered `mount`. */
  ghost predicate RegisteredAt(events: seq<Event>, i: nat, mount: Mount) {
    && i < |events| && events[i].Recv? && events[i].fd == mount.serverFd
    && Registers(events[i].data, Names(Run(events[..i]).mounts), mount)
    && Run(events[..i + 1]).mounts == Run(events[..i]).mounts + [mount.(clients := [])]
  }

  ghost predicate MountedSince(events: seq<Event>, i: nat, mount: Mount) {
    forall t | i < t <= |events| :: Mounted(Run(events[..t]), mount)
  }

  function LoginOf(data: string): Login {
    ReadGet(Lines(data), 0, GetHeaders(NO_LOGIN, false)).login
  }

  /** This event puts `fd` into the client list of `mount`: it is a GET request, and no POST,
      that names exactly the mount's credentials. */
  ghost predicate Admits(st: State, e: Event, mount: Mount, fd: int) {
    && e.Recv? && e.fd == fd && IsGet(e.data) && !IsPost(e.data) && Matches(mount, LoginOf(e.data))
    && ParseData(st, fd, e.data, e.fails).ret == 0
    && exists p | 0 <= p < |st.mounts| ::
         SameMount(st.mounts[p], mount) && AddsClient(st, ParseData(st, fd, e.data, e.fails).st, p, fd)
  }

  ghost predicate AdmittedAt(events: seq<Event>, j: nat, mount: Mount, fd: int) {
    j < |events| && Admits(Run(events[..j]), events[j], mount, fd)
  }

  ghost predicate IsClient(st: State, mount: Mount, fd: int) {
    exists q | 0 <= q < |st.mounts| :: SameMount(st.mounts[q], mount) && fd in st.mounts[q].clients
  }

  ghost predicate ClientSince(events: seq<Event>, j: nat, mount: Mount, fd: int) {
    forall t | j < t <= |events| :: IsClient(Run(events[..t]), mount, fd)
  }

  // ---------- one step back ----------

  /** Where a mount of the new state comes from: from a mount of the old state, whose
      clients it has, or fewer, or one more that named its credentials; or it is new. */
  ghost predicate CameFrom(st: State, e: Event, mount: Mount, p: nat)
    requires p < |st.mounts|
  {
    && SameMount(st.mounts[p], mount)
    && forall c | c in mount.clients ::
         || c in st.mounts[p].clients
         || Admits(st, e, mount, c)
  }

  ghost predicate IsNew(st: State, e: Event, mount: Mount) {
    && e.Recv? && mount.serverFd == e.fd && mount.clients == []
    && Registers(e.data, Names(st.mounts), mount)
    && Step(st, e).mounts == st.mounts + [mount]
  }

  lemma {:induction false} RemovedIsSubset(fds: seq<int>, fd: int)
    ensures forall c | c in RemoveFirst(fds, fd) :: c in fds
  {
    if fds != [] {
      RemovedIsSubset(fds[1..], fd);
    }
  }

  lemma HangupOrigin(st: State, fd: int, q: nat)
    requires q < |Disconnect(st, fd).mounts|
    ensures exists p | 0 <= p < |st.mounts| :: CameFrom(st, Hangup(fd), Disconnect(st, fd).mounts[q], p)
  {
    hide FindRole, RemoveFirst, EraseRow, CloseAll, ParseData;
    var role, mount := FindRole(st.mounts, fd, 0), Disconnect(st, fd).mounts[q];
    var p := if role.At? && st.mounts[role.pos].serverFd == fd && q >= role.pos then q + 1 else q;
    if role.At? {
      RemovedIsSubset(st.mounts[role.pos].clients, fd);
    }
    assert CameFrom(st, Hangup(fd), mount, p);
  }

  lemma MatchesSame(a: Mount, b: Mount, login: Login)
    requires SameMount(a, b)
    ensures Matches(a, login) <==> Matches(b, login)
  {
  }

  lemma AdmittedCameFrom(st: State, e: Event, q: nat)
    requires e.Recv? && HasRequest(e.data) && IsGet(e.data) && !IsPost(e.data)
    requires q < |Step(st, e).mounts|
    ensures q < |st.mounts| && CameFrom(st, e, Step(st, e).mounts[q], q)
  {
    hide Contains, ReadGet, Lines, Net.Send, Net.Sends, Complete, Matches;
    var r, got := ParseData(st, e.fd, e.data, e.fails), ReadGet(Lines(e.data), 0, GetHeaders(NO_LOGIN, false));
    AdmitEffect(st, 0, 0, got, e.fd, e.fails);
    if r.ret == 0 {
      var p :| 0 <= p < |st.mounts| && Matches(st.mounts[p], got.login) && AddsClient(st, r.st, p, e.fd);
      MatchesSame(st.mounts[p], r.st.mounts[p], got.login);
      assert Step(st, e) == r.st;
      assert p == q ==> Admits(st, e, r.st.mounts[p], e.fd);
    }
  }

  lemma RecvOrigin(st: State, e: Event, q: nat)
    requires e.Recv? && q < |Step(st, e).mounts|
    ensures || IsNew(st, e, Step(st, e).mounts[q])
            || exists p | 0 <= p < |st.mounts| :: CameFrom(st, e, Step(st, e).mounts[q], p)
  {
    hide Contains, ReadPost, ReadRow, ReadGet, Lines, Net.Send, Net.Sends, SendAll, Complete, Names;
    var st', mount := Step(st, e), Step(st, e).mounts[q];
    if HasRequest(e.data) && !IsPost(e.data) && IsGet(e.data) {
      var got := ReadGet(Lines(e.data), 0, GetHeaders(NO_LOGIN, false));
      AdmitEffect(st, 0, 0, got, e.fd, e.fails);
      AdmittedCameFrom(st, e, q);
    } else if IsPost(e.data) {
      ServerConnectEffect(st, Lines(e.data), e.fd, e.fails);
      assert q < |st.mounts| ==> CameFrom(st, e, mount, q);
    } else {
      ParseDataEffect(st, e.fd, e.data, e.fails);
      assert q < |st.mounts| ==> CameFrom(st, e, mount, q);
    }
  }

  lemma StepOrigin(st: State, e: Event, q: nat)
    requires q < |Step(st, e).mounts|
    ensures || IsNew(st, e, Step(st, e).mounts[q])
            || exists p | 0 <= p < |st.mounts| :: CameFrom(st, e, Step(st, e).mounts[q], p)
  {
    hide ParseData, Disconnect;
    match e
    case Accept(fd) =>
      assert CameFrom(st, e, st.mounts[q], q);
    case Recv(fd, data, fails) =>
      RecvOrigin(st, e, q);
    case Hangup(fd) =>
      HangupOrigin(st, fd, q);
  }

  // ---------- whole runs ----------

  lemma Prefixes(events: seq<Event>, t: nat)
    requires events != [] && t < |events|
    ensures events[..|events| - 1][..t] == events[..t]
  {
  }

  lemma {:induction false} RunOfAll(events: seq<Event>)
    requires events != []
    ensures var n := |events|;
            events[..n] == events && Run(events) == Step(Run(events[..n - 1]), events[n - 1])
  {
  }

  /** A registration seen in a shorter run is one in the longer run, for the same mount. */
  lemma RegistrationLifts(events: seq<Event>, i: nat, mount: Mount, mount': Mount)
    requires events != [] && i < |events| - 1 && SameMount(mount, mount')
    requires RegisteredAt(events[..|events| - 1], i, mount)
    ensures RegisteredAt(events, i, mount')
  {
    hide Run, IsPost, Registration, Names;
    Prefixes(events, i);
    Prefixes(events, i + 1);
  }

  lemma {:induction false} MountedLifts(events: seq<Event>, i: nat, mount: Mount, mount': Mount)
    requires events != [] && i < |events| - 1 && SameMount(mount, mount')
    requires MountedSince(events[..|events| - 1], i, mount) && Mounted(Run(events), mount')
    ensures MountedSince(events, i, mount')
  {
    hide Run;
    RunOfAll(events);
    forall t | i < t <= |events|
      ensures Mounted(Run(events[..t]), mount')
    {
      if t < |events| {
        Prefixes(events, t);
        assert Mounted(Run(events[..t]), mount);
      }
    }
  }

  lemma AdmissionLifts(events: seq<Event>, j: nat, mount: Mount, mount': Mount, fd: int)
    requires events != [] && j < |events| - 1 && SameMount(mount, mount')
    requires AdmittedAt(events[..|events| - 1], j, mount, fd)
    ensures AdmittedAt(events, j, mount', fd)
  {
    hide Run, IsGet, IsPost, LoginOf, ParseData, AddsClient;
    Prefixes(events, j);
  }

  lemma {:induction false} ClientLifts(events: seq<Event>, j: nat, mount: Mount, mount': Mount, fd: int)
    requires events != [] && j < |events| - 1 && SameMount(mount, mount')
    requires ClientSince(events[..|events| - 1], j, mount, fd) && IsClient(Run(events), mount', fd)
    ensures ClientSince(events, j, mount', fd)
  {
    hide Run;
    RunOfAll(events);
    forall t | j < t <= |events|
      ensures IsClient(Run(events[..t]), mount', fd)
    {
      if t < |events| {
        Prefixes(events, t);
        assert IsClient(Run(events[..t]), mount, fd);
      }
    }
  }

  lemma NewIsRegistered(events: seq<Event>, mount: Mount)
    requires events != [] && IsNew(Run(events[..|events| - 1]), events[|events| - 1], mount)
    requires Mounted(Run(events), mount)
    ensures RegisteredAt(events, |events| - 1, mount) && MountedSince(events, |events| - 1, mount)
  {
    hide Step, Registers;
    RunOfAll(events);
  }

  /** Every mount was registered by a POST request and has been mounted ever since. */
  lemma {:induction false} RegistrationHistory(events: seq<Event>, q: nat)
    requires q < |Run(events).mounts|
    ensures exists i | 0 <= i < |events| ::
              RegisteredAt(events, i, Run(events).mounts[q]) && MountedSince(events, i, Run(events).mounts[q])
    decreases |events|
  {
    hide Step, RegisteredAt, MountedSince, IsPost;
    var n, mount := |events|, Run(events).mounts[q];
    var before, e := events[..n - 1], events[n - 1];
    StepOrigin(Run(before), e, q);
    assert Mounted(Run(events), mount);
    if IsNew(Run(before), e, mount) {
      NewIsRegistered(events, mount);
      assert RegisteredAt(events, n - 1, mount) && MountedSince(events, n - 1, mount);
    } else {
      var p :| 0 <= p < |Run(before).mounts| && CameFrom(Run(before), e, mount, p);
      var mount0 := Run(before).mounts[p];
      RegistrationHistory(before, p);
      var i :| 0 <= i < |before| && RegisteredAt(before, i, mount0) && MountedSince(before, i, mount0);
      RegistrationLifts(events, i, mount0, mount);
      MountedLifts(events, i, mount0, mount);
      assert RegisteredAt(events, i, mount) && MountedSince(events, i, mount);
    }
  }

  ghost predicate AdmissionStory(events: seq<Event>, i: nat, j: nat, mount: Mount, fd: int) {
    && i < j && RegisteredAt(events, i, mount) && MountedSince(events, i, mount)
    && AdmittedAt(events, j, mount, fd) && ClientSince(events, j, mount, fd)
  }

  lemma StoryIsInside(events: seq<Event>, i: nat, j: nat, mount: Mount, fd: int)
    requires AdmissionStory(events, i, j, mount, fd)
    ensures i < j < |events|
  {
  }

  lemma LastAdmits(events: seq<Event>, mount: Mount, p: nat, fd: int)
    requires events != [] && p < |Run(events[..|events| - 1]).mounts|
    requires CameFrom(Run(events[..|events| - 1]), events[|events| - 1], mount, p)
    requires fd in mount.clients && fd !in Run(events[..|events| - 1]).mounts[p].clients
    requires IsClient(Run(events), mount, fd)
    ensures AdmittedAt(events, |events| - 1, mount, fd) && ClientSince(events, |events| - 1, mount, fd)
  {
    hide Run, Admits, IsClient;
    RunOfAll(events);
  }

  /** Every client was put into its list by a GET request with exactly the mount's credentials,
      after the registration of a mount that has been there ever since, and it has been in
      that list ever since. */
  lemma {:induction false} AdmissionHistory(events: seq<Event>, q: nat, fd: int)
    requires q < |Run(events).mounts| && fd in Run(events).mounts[q].clients
    ensures exists i: nat, j: nat :: AdmissionStory(events, i, j, Run(events).mounts[q], fd)
    decreases |events|
  {
    hide Step, RegisteredAt, MountedSince, AdmittedAt, ClientSince, Admits;
    var n, mount := |events|, Run(events).mounts[q];
    var before, e := events[..n - 1], events[n - 1];
    StepOrigin(Run(before), e, q);
    assert Mounted(Run(events), mount) && IsClient(Run(events), mount, fd);
    var p :| 0 <= p < |Run(before).mounts| && CameFrom(Run(before), e, mount, p);
    var mount0 := Run(before).mounts[p];
    if fd in mount0.clients {
      AdmissionHistory(before, p, fd);
      var i: nat, j: nat :| AdmissionStory(before, i, j, mount0, fd);
      assert j < |before| by { StoryIsInside(before, i, j, mount0, fd); }
      RegistrationLifts(events, i, mount0, mount);
      MountedLifts(events, i, mount0, mount);
      AdmissionLifts(events, j, mount0, mount, fd);
      ClientLifts(events, j, mount0, mount, fd);
      assert AdmissionStory(events, i, j, mount, fd);
    } else {
      RegistrationHistory(before, p);
      var i :| 0 <= i < |before| && RegisteredAt(before, i, mount0) && MountedSince(before, i, mount0);
      RegistrationLifts(events, i, mount0, mount);
      MountedLifts(events, i, mount0, mount);
      LastAdmits(events, mount, p, fd);
      assert AdmissionStory(events, i, n - 1, mount, fd);
    }
  }

  ghost predicate Reaches(net: Net.Net, clients: seq<int>, k: nat) {
    exists c | c in clients :: c in net.conn && net.conn[c] == k
  }

  lemma {:induction false} SendAllReach(net: Net.Net, fds: seq<int>, i: nat, data: string, fails: set<nat>, k: nat)
    requires i <= |fds| && k < |net.chunks|
    ensures var net' := SendAll(net, fds, i, data, fails);
            |net'.chunks| == |net.chunks| && (net'.chunks[k] != net.chunks[k] ==> Reaches(net, fds, k))
    decreases |fds| - i
  {
    if i < |fds| {
      var net1 := Net.Send(net, fds[i], data, i !in fails);
      SendAllReach(net1, fds, i + 1, data, fails, k);
      assert net1.conn == net.conn;
      if net1.chunks[k] != net.chunks[k] {
        assert fds[i] in fds && fds[i] in net.conn && net.conn[fds[i]] == k;
      }
    }
  }

  /** A payload that is no request reaches a connection only through a client of the
      sender's mount. */
  lemma ForwardReach(st: State, fd: int, data: string, fails: set<nat>, k: nat)
    requires !HasRequest(data)
    requires k < |st.net.chunks| && k < |ParseData(st, fd, data, fails).st.net.chunks|
    requires ParseData(st, fd, data, fails).st.net.chunks[k] != st.net.chunks[k]
    ensures exists q | 0 <= q < |st.mounts| ::
              st.mounts[q].serverFd == fd && Reaches(st.net, st.mounts[q].clients, k)
  {
    hide Contains, SendAll;
    var server := FindServer(st.mounts, fd, 0);
    if server.At? {
      SendAllReach(st.net, st.mounts[server.pos].clients, 0, data, fails, k);
    }
  }

  /** In every run, what a server sends is delivered only to clients that were admitted to
      its own mount. */
  lemma ForwardedOnlyToAdmitted(events: seq<Event>, fd: int, data: string, fails: set<nat>, k: nat)
    requires !HasRequest(data)
    requires var net, net' := Run(events).net, ParseData(Run(events), fd, data, fails).st.net;
             k < |net.chunks| && k < |net'.chunks| && net'.chunks[k] != net.chunks[k]
    ensures exists q, c | 0 <= q < |Run(events).mounts| && c in Run(events).mounts[q].clients ::
              && Run(events).mounts[q].serverFd == fd
              && c in Run(events).net.conn && Run(events).net.conn[c] == k
              && exists i: nat, j: nat :: AdmissionStory(events, i, j, Run(events).mounts[q], c)
  {
    hide AdmissionStory, Run, ParseData, HasRequest;
    var st := Run(events);
    ForwardReach(st, fd, data, fails, k);
    var q :| 0 <= q < |st.mounts| && st.mounts[q].serverFd == fd && Reaches(st.net, st.mounts[q].clients, k);
    var c :| c in st.mounts[q].clients && c in st.net.conn && st.net.conn[c] == k;
    AdmissionHistory(events, q, c);
  }
}
