/** The class NtripCaster: the program's methods, which change its tables in place, each
    proved to do the corresponding step of the state machine. */
module NtripCasterClass {
  import opened Text
  import opened Requests
  import Base64
  import C = Caster
  import Net
  import Split

  class NtripCaster {
    var mounts: seq<C.Mount>
    var rows: seq<string>
    var net: Net.Net

    ghost function Value(): C.State
      reads this
    {
      C.State(mounts, rows, net)
    }

    constructor ()
      ensures Value() == C.INIT
    {
      mounts, rows, net := [], [], Net.EMPTY;
    }

    method Send(fd: int, chunk: string, ok: bool) returns (sent: bool)
      modifies this`net
      ensures sent == Net.Sends(old(net), fd, ok)
      ensures net == Net.Send(old(net), fd, chunk, ok)
    {
      sent := Net.Sends(net, fd, ok);
      net := Net.Send(net, fd, chunk, ok);
    }

    method Close(fd: int)
      modifies this`net
      ensures net == Net.Close(old(net), fd)
    {
      net := Net.Close(net, fd);
    }

    method ClearClientConnection(q: nat)
      requires q < |mounts|
      modifies this
      ensures rows == old(rows)
      ensures net == C.CloseAll(old(net), old(mounts)[q].clients)
      ensures mounts == old(mounts)[q := old(mounts)[q].(clients := [])]
    {
      ghost var total := C.CloseAll(net, mounts[q].clients);
      while mounts[q].clients != []
        invariant q < |mounts| && rows == old(rows)
        invariant mounts == old(mounts)[q := old(mounts)[q].(clients := mounts[q].clients)]
        invariant C.CloseAll(net, mounts[q].clients) == total
        decreases |mounts[q].clients|
      {
        Close(mounts[q].clients[0]);
        mounts := mounts[q := mounts[q].(clients := mounts[q].clients[1..])];
      }
    }

    method ClearAllConnection()
      modifies this
      ensures mounts == [] && rows == old(rows)
      ensures net == C.ClearMounts(old(net), old(mounts))
    {
      ghost var total := C.ClearMounts(net, mounts);
      while mounts != []
        invariant rows == old(rows)
        invariant C.ClearMounts(net, mounts) == total
        decreases |mounts|
      {
        ghost var rest := mounts[1..];
        ClearClientConnection(0);
        Close(mounts[0].serverFd);
        mounts := mounts[1..];
        assert mounts == rest;
      }
    }

    method Stop()
      modifies this
      ensures Value() == C.Stop(old(Value()))
    {
      ClearAllConnection();
      rows := [];
    }

    method Disconnect(fd: int)
      modifies this
      ensures Value() == C.Disconnect(old(Value()), fd)
    {
      ghost var st := Value();
      var q := 0;
      while q < |mounts|
        invariant 0 <= q <= |mounts| && Value() == st
        invariant C.FindRole(mounts, fd, q) == C.FindRole(mounts, fd, 0)
      {
        if mounts[q].serverFd == fd {
          var key := C.RowKey(mounts[q].name);
          ClearClientConnection(q);
          EraseFirstRow(key);
          mounts := mounts[..q] + mounts[q + 1..];
          assert mounts == C.RemoveAt(st.mounts, q);
          break;
        } else {
          var found := RemoveClient(q, fd);
          if found {
            break;
          }
          assert st.mounts == mounts;
        }
        q := q + 1;
      }
      Close(fd);
    }

    method EraseFirstRow(key: string)
      modifies this`rows
      ensures rows == C.EraseRow(old(rows), key)
    {
      hide Contains, C.EraseRow;
      var i := 0;
      while i < |rows|
        invariant 0 <= i <= |rows| && rows == old(rows)
        invariant forall k | 0 <= k < i :: !Contains(rows[k], key)
      {
        if Contains(rows[i], key) {
          C.EraseRowAt(rows, key, i);
          rows := rows[..i] + rows[i + 1..];
          return;
        }
        i := i + 1;
      }
      C.EraseRowNone(rows, key);
    }

    method RemoveClient(q: nat, fd: int) returns (found: bool)
      requires q < |mounts|
      modifies this`mounts
      ensures found == (fd in old(mounts)[q].clients)
      ensures mounts == old(mounts)[q := old(mounts)[q].(clients := C.RemoveFirst(old(mounts)[q].clients, fd))]
      ensures !found ==> mounts == old(mounts)
    {
      hide C.RemoveFirst;
      var i := 0;
      while i < |mounts[q].clients|
        invariant mounts == old(mounts)
        invariant 0 <= i <= |mounts[q].clients|
        invariant forall k | 0 <= k < i :: mounts[q].clients[k] != fd
      {
        if mounts[q].clients[i] == fd {
          C.RemoveFirstAt(mounts[q].clients, fd, i);
          var clients := mounts[q].clients;
          mounts := mounts[q := mounts[q].(clients := clients[..i] + clients[i + 1..])];
          return true;
        }
        i := i + 1;
      }
      C.RemoveFirstNone(mounts[q].clients, fd);
      return false;
    }

    method TryToForwardServerData(fd: int, data: string, fails: set<nat>) returns (ret: int)
      modifies this`net
      ensures C.Outcome(Value(), ret) == C.Forward(old(Value()), fd, data, fails)
    {
      ghost var st := Value();
      var q := 0;
      while q < |mounts|
        invariant 0 <= q <= |mounts| && Value() == st
        invariant C.FindServer(mounts, fd, q) == C.FindServer(mounts, fd, 0)
      {
        if mounts[q].serverFd == fd {
          ghost var total := C.SendAll(net, mounts[q].clients, 0, data, fails);
          var i := 0;
          while i < |mounts[q].clients|
            invariant 0 <= i <= |mounts[q].clients| && mounts == st.mounts && rows == st.rows
            invariant C.SendAll(net, mounts[q].clients, i, data, fails) == total
          {
            var _ := Send(mounts[q].clients[i], data, i !in fails);
            i := i + 1;
          }
          return 0;
        }
        q := q + 1;
      }
      return -1;
    }

    /** The loop of ServerConnectRequest that looks for the mountpoint among the mounts. */
    method IsTaken(name: string) returns (taken: bool)
      ensures taken == (name in C.Names(mounts))
    {
      var q := 0;
      while q < |mounts|
        invariant 0 <= q <= |mounts|
        invariant forall k | 0 <= k < q :: mounts[k].name != name
      {
        if mounts[q].name == name {
          return true;
        }
        q := q + 1;
      }
      return false;
    }

    method ServerConnectRequest(lines: seq<string>, fd: int, fails: set<nat>) returns (ret: int)
      modifies this
      ensures C.Outcome(Value(), ret) == C.ServerConnect(old(Value()), lines, fd, fails)
    {
      hide Contains, MountOf, CredentialText, FindChar, RowOf, Net.Send, Net.Sends, Base64.Decode;
      ghost var st := Value();
      ghost var taken := C.Names(mounts);
      var mountPoint, user, passwd, ntripStr, userPasswd := "", "", "", "", "";
      var i := 0;
      while i < |lines|
        invariant 0 <= i <= |lines| && Value() == st
        invariant ReadPost(lines, taken, i, Login(mountPoint, user, passwd)) == ReadPost(lines, taken, 0, NO_LOGIN)
      {
        var line := lines[i];
        if Contains(line, "POST") {
          match MountOf(line) {
            case None => return -1;
            case Some(m) => mountPoint := m;
          }
          var used := IsTaken(mountPoint);
          if used {
            var _ := Send(fd, C.BAD_PASSWORD, 0 !in fails);
            return -1;
          }
        } else if Contains(line, "Authorization: Basic") {
          var text := CredentialText(line);
          if text.None? {
            return -1;
          }
          var decoded;
          decoded, userPasswd := Base64.Base64Decode(text.value, userPasswd);
          if decoded != 0 {
            return -1;
          }
          match FindChar(userPasswd, ':', 0) {
            case Npos => return -1;
            case At(p) => user, passwd := userPasswd[..p], userPasswd[p + 1..];
          }
        }
        i := i + 1;
      }
      i := 0;
      while i < |lines|
        invariant 0 <= i <= |lines| && Value() == st
        invariant ReadRow(lines, mountPoint, i, ntripStr) == ReadRow(lines, mountPoint, 0, "")
      {
        var line := lines[i];
        if Contains(line, "Ntrip-STR: ") {
          ntripStr := RowOf(line);
          var sections := Split.StringSplit(ntripStr, ";", false);
          if |sections| > 4 && (sections[1] != sections[2] || sections[1] != mountPoint) {
            return -1;
          }
        }
        i := i + 1;
      }
      if mountPoint != "" && user != "" && passwd != "" {
        var sent := Send(fd, C.OK_REPLY, 0 !in fails);
        if sent {
          mounts := mounts + [C.Mount(fd, mountPoint, user, passwd, [])];
          rows := rows + [ntripStr];
          return 0;
        }
      }
      return -1;
    }

    /** The first loop of ClientConnectRequest. */
    method ReadGetLines(lines: seq<string>)
      returns (mountPoint: string, user: string, passwd: string, version1: bool)
      ensures GetHeaders(Login(mountPoint, user, passwd), version1)
           == ReadGet(lines, 0, GetHeaders(NO_LOGIN, false))
    {
      hide Contains, MountOf, CredentialText, FindChar, Base64.Decode;
      ghost var got := ReadGet(lines, 0, GetHeaders(NO_LOGIN, false));
      var userPasswd := "";
      mountPoint, user, passwd, version1 := "", "", "", false;
      var i := 0;
      while i < |lines|
        invariant 0 <= i <= |lines|
        invariant ReadGet(lines, i, GetHeaders(Login(mountPoint, user, passwd), version1)) == got
      {
        var line := lines[i];
        if Contains(line, "GET") {
          if Contains(line, "HTTP/1.0") {
            version1 := true;
          }
          var name := MountOf(line);
          if name.None? {
            return;
          }
          mountPoint := name.value;
        } else if Contains(line, "Authorization: Basic") {
          var text := CredentialText(line);
          if text.None? {
            return;
          }
          var decoded;
          decoded, userPasswd := Base64.Base64Decode(text.value, userPasswd);
          if decoded == -1 {
            return;
          }
          var colon := FindChar(userPasswd, ':', 0);
          if colon.Npos? {
            return;
          }
          user, passwd := userPasswd[..colon.pos], userPasswd[colon.pos + 1..];
        }
        i := i + 1;
      }
    }

    method ClientConnectRequest(lines: seq<string>, fd: int, fails: set<nat>) returns (ret: int)
      modifies this
      ensures C.Outcome(Value(), ret) == C.ClientConnect(old(Value()), lines, fd, fails)
    {
      hide Net.Send, Net.Sends, ReadGet;
      ghost var st := Value();
      ghost var got := ReadGet(lines, 0, GetHeaders(NO_LOGIN, false));
      var mountPoint, user, passwd, version1 := ReadGetLines(lines);
      var tried := 0;
      if mountPoint != "" && user != "" && passwd != "" {
        var q := 0;
        while q < |mounts|
          invariant 0 <= q <= |mounts| && Value() == st
          invariant C.Admit(st, q, tried, got, fd, fails) == C.Admit(st, 0, 0, got, fd, fails)
        {
          if mountPoint == mounts[q].name && user == mounts[q].user && passwd == mounts[q].password {
            var response := C.OK_REPLY;
            if version1 {
              response := C.ICY_REPLY;
            }
            var sent := Send(fd, response, tried !in fails);
            if sent {
              mounts := mounts[q := mounts[q].(clients := mounts[q].clients + [fd])];
              return 0;
            }
            tried := tried + 1;
          }
          q := q + 1;
        }
      }
      var _ := Send(fd, C.UNAUTHORIZED, tried !in fails);
      return -1;
    }

    method ParseData(fd: int, data: string, fails: set<nat>) returns (ret: int)
      modifies this
      ensures C.Outcome(Value(), ret) == C.ParseData(old(Value()), fd, data, fails)
    {
      ret := -1;
      if Contains(data, "GET /") || Contains(data, "POST /") {
        var lines := Split.StringSplit(data, CRLF, true);
        if Contains(data, "POST /") && Contains(data, "HTTP/1.1") {
          ret := ServerConnectRequest(lines, fd, fails);
        } else if Contains(data, "GET /") && (Contains(data, "HTTP/1.1") || Contains(data, "HTTP/1.0")) {
          ret := ClientConnectRequest(lines, fd, fails);
        }
      } else {
        ret := TryToForwardServerData(fd, data, fails);
        if ret < 0 {
          if Contains(data, "$GPGGA,") || Contains(data, "$GNGGA,") {
            ret := 0;
          }
        }
      }
    }

    /** One event of the loop of ThreadHandler. */
    method HandleEvent(e: C.Event)
      modifies this
      ensures Value() == C.Step(old(Value()), e)
    {
      match e {
        case Accept(fd) =>
          net := Net.Accept(net, fd);
        case Recv(fd, data, fails) =>
          var ret := ParseData(fd, data, fails);
          if ret < 0 {
            Close(fd);
          }
        case Hangup(fd) =>
          Disconnect(fd);
      }
    }

    /** The whole loop, for the events of a run. */
    method ThreadHandler(events: seq<C.Event>)
      requires Value() == C.INIT
      modifies this
      ensures Value() == C.Run(events)
    {
      var i := 0;
      while i < |events|
        invariant 0 <= i <= |events|
        invariant Value() == C.Run(events[..i])
      {
        HandleEvent(events[i]);
        assert events[..i + 1][..i] == events[..i];
        i := i + 1;
      }
      assert events[..i] == events;
    }
  }
}
