/** Who owns the descriptors. Each descriptor in the tables is open and has one role, as
    long as the peers behave; and one step keeps that exactly when its peer behaves. */
module Ownership {
  import opened Caster
  import opened Tables
  import Net
  import opened Text

  /** The descriptors of a mount, and of all mounts, as often as they have a role. */
  function MountRoles(mount: Mount): multiset<int> {
    multiset{mount.serverFd} + multiset(mount.clients)
  }

  function Roles(mounts: seq<Mount>): multiset<int> {
    if mounts == [] then multiset{} else MountRoles(mounts[0]) + Roles(mounts[1..])
  }

  /** Every descriptor in the tables is open and has exactly one role. */
  ghost predicate Owned(st: State) {
    forall d :: Roles(st.mounts)[d] <= if d in st.net.conn then 1 else 0
  }

  predicate IsServer(st: State, fd: int) {
    FindServer(st.mounts, fd, 0).At?
  }

  predicate HasRole(st: State, fd: int) {
    fd in Roles(st.mounts)
  }

  /** A registered peer sends no second request, and a registered client nothing but GGA
      sentences. A peer without a role may send what it likes. */
  predicate Behaves(st: State, e: Event) {
    match e
    case Accept(_) => true
    case Recv(fd, data, _) => HasRole(st, fd) ==> !HasRequest(data) && (IsServer(st, fd) || HasGga(data))
    case Hangup(_) => true
  }

  ghost predicate WellBehaved(events: seq<Event>) {
    events == [] ||
    var before, e := events[..|events| - 1], events[|events| - 1];
    WellBehaved(before) && Possible(Run(before), e) && Behaves(Run(before), e)
  }

  // ---------- roles and list surgery ----------

  lemma RolesCons(mount: Mount, rest: seq<Mount>)
    ensures Roles([mount] + rest) == MountRoles(mount) + Roles(rest)
  {
    assert ([mount] + rest)[1..] == rest;
  }

  lemma {:induction false} RolesOfTwo(a: seq<Mount>, b: seq<Mount>)
    ensures Roles(a + b) == Roles(a) + Roles(b)
  {
    hide MountRoles;
    if a == [] {
      assert a + b == b;
    } else {
      RolesOfTwo(a[1..], b);
      RolesCons(a[0], a[1..] + b);
      assert a + b == [a[0]] + (a[1..] + b);
    }
  }

  lemma RolesOfOne(mount: Mount)
    ensures Roles([mount]) == MountRoles(mount)
  {
    assert [mount][1..] == [];
  }

  lemma RolesAt(mounts: seq<Mount>, q: nat, mount: Mount)
    requires q < |mounts|
    ensures Roles(mounts) == Roles(RemoveAt(mounts, q)) + MountRoles(mounts[q])
    ensures Roles(mounts[q := mount]) == Roles(RemoveAt(mounts, q)) + MountRoles(mount)
  {
    hide Roles, MountRoles;
    var a, b := mounts[..q], mounts[q + 1..];
    assert mounts == a + ([mounts[q]] + b);
    assert mounts[q := mount] == a + ([mount] + b);
    RolesOfTwo(a, b);
    RolesOfTwo(a, [mounts[q]] + b);
    RolesOfTwo([mounts[q]], b);
    RolesOfTwo(a, [mount] + b);
    RolesOfTwo([mount], b);
    RolesOfOne(mounts[q]);
    RolesOfOne(mount);
  }

  lemma RolesOfAddedMount(mounts: seq<Mount>, mount: Mount)
    ensures Roles(mounts + [mount]) == Roles(mounts) + MountRoles(mount)
  {
    RolesOfTwo(mounts, [mount]);
    RolesOfOne(mount);
  }

  lemma RolesOfAddedClient(st: State, q: nat, fd: int)
    requires q < |st.mounts|
    ensures Roles(AddClient(st, q, fd).mounts) == Roles(st.mounts) + multiset{fd}
  {
    hide Roles;
    var mount := st.mounts[q];
    RolesAt(st.mounts, q, mount.(clients := mount.clients + [fd]));
  }

  lemma {:induction false} RemoveFirstTakesOne(fds: seq<int>, fd: int)
    requires fd in fds
    ensures multiset(fds) == multiset(RemoveFirst(fds, fd)) + multiset{fd}
  {
    assert fds == [fds[0]] + fds[1..];
    if fds[0] != fd {
      RemoveFirstTakesOne(fds[1..], fd);
    }
  }

  lemma RolesOfMount(mounts: seq<Mount>, q: nat, d: int)
    requires q < |mounts|
    ensures Roles(mounts)[d] >= MountRoles(mounts[q])[d]
  {
    hide Roles, MountRoles;
    RolesAt(mounts, q, mounts[q]);
  }

  lemma RolesOfTwoMounts(mounts: seq<Mount>, p: nat, q: nat, d: int)
    requires p < |mounts| && q < |mounts| && p != q
    ensures Roles(mounts)[d] >= MountRoles(mounts[p])[d] + MountRoles(mounts[q])[d]
  {
    hide Roles, MountRoles;
    var rest := RemoveAt(mounts, q);
    RolesAt(mounts, q, mounts[q]);
    if p < q {
      assert rest[p] == mounts[p];
      RolesOfMount(rest, p, d);
    } else {
      assert rest[p - 1] == mounts[p];
      RolesOfMount(rest, p - 1, d);
    }
  }

  /** A descriptor with a role stands in the mount that FindRole finds. */
  lemma {:induction false} FindRoleSpec(mounts: seq<Mount>, fd: int, q: nat)
    requires q <= |mounts|
    ensures FindRole(mounts, fd, q).Npos? <==> fd !in Roles(mounts[q..])
    decreases |mounts| - q
  {
    var rest := mounts[q..];
    if q < |mounts| {
      FindRoleSpec(mounts, fd, q + 1);
      assert rest == [mounts[q]] + mounts[q + 1..];
      hide Roles;
      RolesCons(mounts[q], mounts[q + 1..]);
    } else {
      assert rest == [];
    }
  }

  lemma {:induction false} FindRoleIs(mounts: seq<Mount>, fd: int, q: nat, from: nat)
    requires from <= q < |mounts| && fd in MountRoles(mounts[q])
    requires forall k | 0 <= k < |mounts| && k != q :: fd !in MountRoles(mounts[k])
    ensures FindRole(mounts, fd, from) == At(q)
    decreases q - from
  {
    if from < q {
      FindRoleIs(mounts, fd, q, from + 1);
    }
  }

  lemma {:induction false} FindServerIs(mounts: seq<Mount>, fd: int, q: nat, from: nat)
    requires from <= q < |mounts| && mounts[q].serverFd == fd
    requires forall k | 0 <= k < |mounts| && k != q :: mounts[k].serverFd != fd
    ensures FindServer(mounts, fd, from) == At(q)
    decreases q - from
  {
    if from < q {
      FindServerIs(mounts, fd, q, from + 1);
    }
  }

  /** With one role each, only one mount knows a given descriptor. */
  lemma OnlyMount(st: State, fd: int, q: nat)
    requires Owned(st) && q < |st.mounts| && fd in MountRoles(st.mounts[q])
    ensures forall k | 0 <= k < |st.mounts| && k != q :: fd !in MountRoles(st.mounts[k])
    ensures FindRole(st.mounts, fd, 0) == At(q)
    ensures IsServer(st, fd) <==> st.mounts[q].serverFd == fd
    ensures st.mounts[q].serverFd == fd ==> FindServer(st.mounts, fd, 0) == At(q)
  {
    hide Roles;
    forall k | 0 <= k < |st.mounts| && k != q
      ensures fd !in MountRoles(st.mounts[k])
    {
      RolesOfTwoMounts(st.mounts, k, q, fd);
    }
    FindRoleIs(st.mounts, fd, q, 0);
    if st.mounts[q].serverFd == fd {
      FindServerIs(st.mounts, fd, q, 0);
    } else {
      var r := FindServer(st.mounts, fd, 0);
      assert r.At? ==> fd in MountRoles(st.mounts[r.pos]);
    }
  }

  /** The first of distinct open descriptors is open, and the others are open without it. */
  lemma HeadIsOpen(open: set<int>, fds: seq<int>)
    requires fds != [] && forall d :: multiset(fds)[d] <= if d in open then 1 else 0
    ensures fds[0] in open
    ensures forall d :: multiset(fds[1..])[d] <= if d in open - {fds[0]} then 1 else 0
  {
    var fd, rest := fds[0], fds[1..];
    assert fds == [fd] + rest;
    assert multiset(fds)[fd] == 1 + multiset(rest)[fd];
    forall d
      ensures multiset(rest)[d] <= if d in open - {fd} then 1 else 0
    {
      assert multiset(fds)[d] >= multiset(rest)[d];
    }
  }

  /** Closing distinct open descriptors closes them and nothing else, each once. */
  lemma {:induction false} CloseAllDistinct(net: Net.Net, fds: seq<int>)
    requires forall d :: multiset(fds)[d] <= if d in net.conn then 1 else 0
    ensures CloseAll(net, fds).badCloses == net.badCloses
    ensures CloseAll(net, fds).conn == net.conn - set d | d in fds
    decreases |fds|
  {
    if fds == [] {
      assert net.conn == net.conn - set d | d in fds;
    } else {
      var fd, rest := fds[0], fds[1..];
      HeadIsOpen(net.conn.Keys, fds);
      CloseAllDistinct(Net.Close(net, fd), rest);
      assert (set d | d in fds) == {fd} + set d | d in rest;
    }
  }

  // ---------- one step ----------

  /** A server's hang-up closes the server and all its clients, each once, and nothing else. */
  lemma ServerHangup(st: State, fd: int, q: nat)
    requires Owned(st) && q < |st.mounts| && st.mounts[q].serverFd == fd
    ensures var st' := Disconnect(st, fd);
            && st'.mounts == RemoveAt(st.mounts, q)
            && st'.net.conn == st.net.conn - ({fd} + set d | d in st.mounts[q].clients)
            && st'.net.badCloses == st.net.badCloses && st'.net.chunks == st.net.chunks
            && Owned(st')
  {
    hide Roles, EraseRow, FindRole, FindServer, CloseAll;
    OnlyMount(st, fd, q);
    var mount := st.mounts[q];
    var st' := Disconnect(st, fd);
    RolesAt(st.mounts, q, mount);
    forall d
      ensures multiset(mount.clients)[d] <= if d in st.net.conn then 1 else 0
    {
      RolesOfMount(st.mounts, q, d);
    }
    CloseAllDistinct(st.net, mount.clients);
    CloseAllKeeps(st.net, mount.clients);
    RolesOfMount(st.mounts, q, fd);
    assert forall d :: Roles(st.mounts)[d] == Roles(st'.mounts)[d] + MountRoles(mount)[d];
  }

  /** A client's hang-up closes that client and takes it off its mount's list. */
  lemma ClientHangup(st: State, fd: int, q: nat)
    requires Owned(st) && q < |st.mounts| && fd in st.mounts[q].clients
    ensures var st', mount := Disconnect(st, fd), st.mounts[q];
            && st'.mounts == st.mounts[q := mount.(clients := RemoveFirst(mount.clients, fd))]
            && st'.rows == st.rows
            && st'.net == Net.Close(st.net, fd) && st'.net.badCloses == st.net.badCloses
            && Owned(st')
  {
    hide Roles, FindRole, FindServer, RemoveFirst;
    OnlyMount(st, fd, q);
    RolesOfMount(st.mounts, q, fd);
    var mount := st.mounts[q];
    RemoveFirstTakesOne(mount.clients, fd);
    var mount' := mount.(clients := RemoveFirst(mount.clients, fd));
    RolesAt(st.mounts, q, mount');
    assert forall d :: Roles(st.mounts[q := mount'])[d] == Roles(st.mounts)[d] - multiset{fd}[d];
  }

  /** A peer without a role that hangs up is closed; the tables stay. */
  lemma StrangerHangup(st: State, fd: int)
    requires Owned(st) && fd in st.net.conn && !HasRole(st, fd)
    ensures Disconnect(st, fd) == st.(net := Net.Close(st.net, fd))
    ensures Owned(Disconnect(st, fd)) && Disconnect(st, fd).net.badCloses == st.net.badCloses
  {
    hide Roles, FindRole;
    FindRoleSpec(st.mounts, fd, 0);
    assert st.mounts[0..] == st.mounts;
  }

  lemma HangupKeepsOwned(st: State, fd: int)
    requires Owned(st) && fd in st.net.conn
    ensures Owned(Disconnect(st, fd)) && Disconnect(st, fd).net.badCloses == st.net.badCloses
  {
    hide Owned, Roles, FindRole, Disconnect;
    FindRoleSpec(st.mounts, fd, 0);
    assert st.mounts[0..] == st.mounts;
    var role := FindRole(st.mounts, fd, 0);
    if role.Npos? {
      StrangerHangup(st, fd);
    } else if st.mounts[role.pos].serverFd == fd {
      ServerHangup(st, fd, role.pos);
    } else {
      ClientHangup(st, fd, role.pos);
    }
  }

  /** A payload that is no request changes no table and, from a server, is forwarded. */
  lemma DataEffect(st: State, fd: int, data: string, fails: set<nat>)
    requires !HasRequest(data)
    ensures var r := ParseData(st, fd, data, fails);
            && SameTables(st, r.st) && SameConnections(st.net, r.st.net)
            && (r.ret == 0 <==> IsServer(st, fd) || HasGga(data))
            && (r.ret == -1 <==> !(IsServer(st, fd) || HasGga(data)))
            && (!IsServer(st, fd) ==> r.st == st)
  {
    hide Text.Contains, FindServer;
    ParseDataKeepsConnections(st, fd, data, fails);
  }

  /** What a request does to the roles: it gives its sender one more, or the sender is closed. */
  lemma RequestEffect(st: State, fd: int, data: string, fails: set<nat>)
    requires HasRequest(data)
    ensures var r := ParseData(st, fd, data, fails);
            && SameConnections(st.net, r.st.net)
            && (r.ret == 0 ==> Roles(r.st.mounts) == Roles(st.mounts) + multiset{fd})
            && (r.ret != 0 ==> r.ret == -1 && r.st.mounts == st.mounts)
  {
    hide Text.Contains, Roles, ParseData, AddClient, Names, Requests.Complete, Net.Valid;
    var r := ParseData(st, fd, data, fails);
    ParseDataEffect(st, fd, data, fails);
    ParseDataKeepsConnections(st, fd, data, fails);
    if r.ret == 0 && IsPost(data) {
      RolesOfAddedMount(st.mounts, r.st.mounts[|r.st.mounts| - 1]);
      assert r.st.mounts == st.mounts + [r.st.mounts[|r.st.mounts| - 1]];
    } else if r.ret == 0 {
      var q :| 0 <= q < |st.mounts| && AddsClient(st, r.st, q, fd);
      RolesOfAddedClient(st, q, fd);
    }
  }

  lemma RecvOwned(st: State, fd: int, data: string, fails: set<nat>)
    requires Owned(st) && Possible(st, Recv(fd, data, fails))
    ensures Owned(Step(st, Recv(fd, data, fails))) <==> Behaves(st, Recv(fd, data, fails))
    ensures Step(st, Recv(fd, data, fails)).net.badCloses == st.net.badCloses
  {
    hide Roles, ParseData, HasRequest, HasGga, FindServer, IsServer;
    var r := ParseData(st, fd, data, fails);
    if HasRequest(data) {
      RequestEffect(st, fd, data, fails);
      if r.ret == 0 {
        assert Roles(r.st.mounts)[fd] == Roles(st.mounts)[fd] + 1;
        assert forall d :: d != fd ==> Roles(r.st.mounts)[d] == Roles(st.mounts)[d];
      } else {
        assert fd !in Step(st, Recv(fd, data, fails)).net.conn;
      }
    } else {
      DataEffect(st, fd, data, fails);
      if !IsServer(st, fd) && !HasGga(data) {
        assert fd !in Step(st, Recv(fd, data, fails)).net.conn;
      }
    }
  }

  /** One step keeps the ownership of descriptors exactly when its peer behaves; and no
      step from an owned state closes a descriptor that is not open. */
  lemma StepOwned(st: State, e: Event)
    requires Owned(st) && Possible(st, e)
    ensures Owned(Step(st, e)) <==> Behaves(st, e)
    ensures Step(st, e).net.badCloses == st.net.badCloses
  {
    hide Roles, Disconnect, ParseData;
    match e
    case Accept(fd) =>
    case Recv(fd, data, fails) =>
      RecvOwned(st, fd, data, fails);
    case Hangup(fd) =>
      HangupKeepsOwned(st, fd);
  }

  lemma InitOwned()
    ensures Owned(INIT)
  {
  }

  /** Over whole runs of well-behaved peers. */
  lemma {:induction false} AlwaysOwned(events: seq<Event>)
    requires WellBehaved(events)
    ensures Owned(Run(events)) && Run(events).net.badCloses == 0
  {
    hide Step, Possible, Behaves, Owned;
    if events == [] {
      assert Owned(INIT) by { InitOwned(); }
    } else {
      AlwaysOwned(events[..|events| - 1]);
      StepOwned(Run(events[..|events| - 1]), events[|events| - 1]);
    }
  }

  // ---------- when a peer does not behave ----------

  lemma BareText()
    ensures HasRequest("GET /") && !IsPost("GET /") && !IsGet("GET /")
  {
    hide Text.Contains;
    assert Text.Contains("GET /", "GET /") by {
      assert Text.OccursAt("GET /", "GET /", 0);
      Text.ContainsAt("GET /", "GET /", 0);
    }
    Text.NotContainsChar("GET /", "HTTP/1.1", 0);
    Text.NotContainsChar("GET /", "HTTP/1.0", 0);
  }

  /** A registered peer that sends "GET /" is closed and keeps its place in the tables; and
      whoever is given its descriptor next inherits the role. */
  lemma BareClose(st: State, fd: int)
    requires Owned(st) && HasRole(st, fd)
    ensures var st1 := Step(st, Recv(fd, "GET /", {}));
            && SameTables(st, st1) && fd !in st1.net.conn && !Owned(st1)
            && Possible(st1, Accept(fd))
            && var st2 := Step(st1, Accept(fd)); SameTables(st, st2) && HasRole(st2, fd) && fd in st2.net.conn
  {
    hide Roles, HasRequest, IsPost, IsGet;
    BareText();
    assert fd in st.net.conn;
  }

  lemma {:induction false} BadCloseCounts(net: Net.Net, fds: seq<int>, c: int)
    requires c in fds && c !in net.conn
    ensures CloseAll(net, fds).badCloses > net.badCloses
    decreases |fds|
  {
    CloseAllKeeps(Net.Close(net, fds[0]), fds[1..]);
    if fds[0] != c {
      BadCloseCounts(Net.Close(net, fds[0]), fds[1..], c);
    }
  }

  /** And a descriptor is closed a second time: a client that sends "GET /" is closed, and
      when its server hangs up the caster closes the same number again. */
  lemma ClosedTwice(st: State, q: nat, c: int)
    requires Owned(st) && q < |st.mounts| && c in st.mounts[q].clients
    ensures var st1 := Step(st, Recv(c, "GET /", {}));
            var st2 := Step(st1, Hangup(st.mounts[q].serverFd));
            && Possible(st1, Hangup(st.mounts[q].serverFd))
            && st1.net.badCloses == st.net.badCloses && st2.net.badCloses > st1.net.badCloses
  {
    hide Roles, HasRequest, IsPost, IsGet, CloseAll, EraseRow, FindRole;
    var fd := st.mounts[q].serverFd;
    RolesOfMount(st.mounts, q, c);
    RolesOfMount(st.mounts, q, fd);
    assert c != fd by {
      assert MountRoles(st.mounts[q])[c] <= 1;
    }
    BareText();
    OnlyMount(st, fd, q);
    var net1 := Step(st, Recv(c, "GET /", {})).net;
    assert net1 == Net.Close(st.net, c);
    BadCloseCounts(net1, st.mounts[q].clients, c);
    CloseAllKeeps(net1, st.mounts[q].clients);
  }

  // ---------- stopping ----------

  lemma CloseMount(net: Net.Net, mount: Mount)
    requires forall d :: MountRoles(mount)[d] <= if d in net.conn then 1 else 0
    ensures var net' := Net.Close(CloseAll(net, mount.clients), mount.serverFd);
            && net'.conn == net.conn - ({mount.serverFd} + set d | d in mount.clients)
            && net'.badCloses == net.badCloses && net'.chunks == net.chunks
  {
    hide CloseAll;
    assert forall d :: multiset(mount.clients)[d] <= MountRoles(mount)[d];
    CloseAllDistinct(net, mount.clients);
    CloseAllKeeps(net, mount.clients);
    assert MountRoles(mount)[mount.serverFd] == 1 + multiset(mount.clients)[mount.serverFd];
  }

  lemma MountMembers(mount: Mount)
    ensures forall d :: d in MountRoles(mount) <==> d == mount.serverFd || d in mount.clients
  {
  }

  lemma OneServer(net: Net.Net, mount: Mount, rest: multiset<int>)
    requires forall d :: (MountRoles(mount) + rest)[d] <= if d in net.conn then 1 else 0
    ensures mount.serverFd in net.conn && mount.serverFd !in mount.clients
    ensures forall d | d in rest :: d in net.conn && d != mount.serverFd && d !in mount.clients
  {
    assert (MountRoles(mount) + rest)[mount.serverFd] >= 1 + multiset(mount.clients)[mount.serverFd];
    forall d | d in rest
      ensures d in net.conn && d != mount.serverFd && d !in mount.clients
    {
      assert (MountRoles(mount) + rest)[d] == MountRoles(mount)[d] + rest[d];
    }
  }

  lemma {:induction false} ClearMountsOwned(net: Net.Net, mounts: seq<Mount>)
    requires forall d :: Roles(mounts)[d] <= if d in net.conn then 1 else 0
    ensures var net' := ClearMounts(net, mounts);
            && net'.badCloses == net.badCloses && net'.chunks == net.chunks
            && forall d :: d in net'.conn <==> d in net.conn && d !in Roles(mounts)
    decreases |mounts|
  {
    hide CloseAll, Net.Close, MountRoles;
    if mounts != [] {
      var mount, rest := mounts[0], mounts[1..];
      assert Roles(mounts) == MountRoles(mount) + Roles(rest);
      hide Roles;
      assert forall d :: MountRoles(mount)[d] <= Roles(mounts)[d];
      CloseMount(net, mount);
      OneServer(net, mount, Roles(rest));
      assert forall d :: d in MountRoles(mount) <==> d == mount.serverFd || d in mount.clients by {
        MountMembers(mount);
      }
      ClearMountsOwned(Net.Close(CloseAll(net, mount.clients), mount.serverFd), rest);
    }
  }

  /** Stop closes every descriptor of the tables, each once, and no other; both tables are
      empty then. */
  lemma StopClosesAll(st: State)
    requires Owned(st)
    ensures var st' := Stop(st);
            && st'.mounts == [] && st'.rows == [] && st'.net.badCloses == st.net.badCloses
            && forall d :: d in st'.net.conn <==> d in st.net.conn && !HasRole(st, d)
  {
    hide Roles, ClearMounts;
    ClearMountsOwned(st.net, st.mounts);
  }
}
