/** Both ends of the handshake agree: a connection hears an acceptance exactly when the
    caster has registered it. */
module Agreement {
  import opened Text
  import opened Requests
  import opened Caster
  import opened Tables
  import opened Ownership
  import opened Delivery
  import opened Handshake
  import History
  import Net

  /** Event `i` is a request on connection `k` that the caster accepted. */
  ghost predicate AcceptsRequest(events: seq<Event>, i: nat, k: nat) {
    && i < |events| && events[i].Recv? && HasRequest(events[i].data)
    && var st := Run(events[..i]);
       && events[i].fd in st.net.conn && st.net.conn[events[i].fd] == k
       && ParseData(st, events[i].fd, events[i].data, events[i].fails).ret == 0
  }

  ghost predicate WasRegistered(events: seq<Event>, k: nat) {
    exists i: nat :: AcceptsRequest(events, i, k)
  }

  ghost predicate HeardAcceptance(chunks: seq<string>) {
    exists j | 0 <= j < |chunks| :: Accepts(chunks[j])
  }

  // ---------- the caster's texts ----------

  lemma OkAccepts()
    ensures Contains(OK_REPLY, "HTTP/1.1 200 OK")
  {
    assert OccursAt(OK_REPLY, "HTTP/1.1 200 OK", 0);
  }

  lemma IcyAccepts()
    ensures Contains(ICY_REPLY, "ICY 200 OK")
  {
    assert OccursAt(ICY_REPLY, "ICY 200 OK", 0);
  }

  lemma RepliesAccept()
    ensures Accepts(OK_REPLY) && Accepts(ICY_REPLY)
  {
    OkAccepts();
    IcyAccepts();
  }

  /** No refusal text contains an acceptance. */
  lemma RefusalsDoNotAccept()
    ensures !Accepts(BAD_PASSWORD) && !Accepts(UNAUTHORIZED)
  {
    hide Contains;
    NotContainsChar(BAD_PASSWORD, "HTTP/1.1 200 OK", 0);
    NotContainsChar(BAD_PASSWORD, "ICY 200 OK", 0);
    NotContainsChar(UNAUTHORIZED, "HTTP/1.1 200 OK", 9);
    NotContainsChar(UNAUTHORIZED, "ICY 200 OK", 2);
  }

  // ---------- one step ----------

  /** A request is answered on its own connection: with an acceptance when it is accepted,
      and with at most one text that is none when it is refused. */
  lemma RequestAnswer(st: State, fd: int, data: string, fails: set<nat>, k: nat)
    requires HasRequest(data) && Net.Valid(st.net) && fd in st.net.conn && st.net.conn[fd] == k
    ensures var r := ParseData(st, fd, data, fails);
            && k < |st.net.chunks| == |r.st.net.chunks|
            && (r.ret == 0 ==> exists text :: Accepts(text) && r.st.net.chunks[k] == st.net.chunks[k] + [text])
            && (r.ret != 0 ==> || r.st.net.chunks[k] == st.net.chunks[k]
                               || exists text :: !Accepts(text) && r.st.net.chunks[k] == st.net.chunks[k] + [text])
  {
    hide Contains, ReadPost, ReadRow, ReadGet, Lines, Net.Send, AddClient, Complete, Names, Accepts;
    RepliesAccept();
    RefusalsDoNotAccept();
    ParseDataKeepsConnections(st, fd, data, fails);
    if IsPost(data) {
      ServerConnectEffect(st, Lines(data), fd, fails);
      SendChunks(st.net, fd, OK_REPLY, 0 !in fails, k);
      SendChunks(st.net, fd, BAD_PASSWORD, 0 !in fails, k);
    } else if IsGet(data) {
      var got := ReadGet(Lines(data), 0, GetHeaders(NO_LOGIN, false));
      AdmitEffect(st, 0, 0, got, fd, fails);
      SendChunks(st.net, fd, UNAUTHORIZED, true, k);
      SendChunks(st.net, fd, UNAUTHORIZED, false, k);
      SendChunks(st.net, fd, Reply(got.version1), true, k);
    }
  }

  /** What was sent stays sent, in every step and for every connection. */
  lemma {:induction false} SendAllAppends(net: Net.Net, fds: seq<int>, i: nat, data: string, fails: set<nat>, k: nat)
    requires i <= |fds| && k < |net.chunks|
    ensures var net' := SendAll(net, fds, i, data, fails);
            k < |net'.chunks| && net.chunks[k] <= net'.chunks[k]
    decreases |fds| - i
  {
    if i < |fds| {
      var net1 := Net.Send(net, fds[i], data, i !in fails);
      SendChunks(net, fds[i], data, i !in fails, k);
      SendAllAppends(net1, fds, i + 1, data, fails, k);
    }
  }

  lemma DataAppends(st: State, fd: int, data: string, fails: set<nat>, k: nat)
    requires !HasRequest(data) && k < |st.net.chunks|
    ensures var net' := ParseData(st, fd, data, fails).st.net;
            k < |net'.chunks| && st.net.chunks[k] <= net'.chunks[k]
  {
    hide Contains, SendAll;
    var server := FindServer(st.mounts, fd, 0);
    if server.At? {
      SendAllAppends(st.net, st.mounts[server.pos].clients, 0, data, fails, k);
    }
  }

  // ---------- whole runs ----------

  lemma RegistrationSplits(events: seq<Event>, k: nat)
    requires events != []
    ensures var before := events[..|events| - 1];
            WasRegistered(events, k) <==> WasRegistered(before, k) || AcceptsRequest(events, |events| - 1, k)
  {
    hide Run, ParseData, HasRequest;
    var before := events[..|events| - 1];
    forall i: nat | i < |events| - 1
      ensures AcceptsRequest(before, i, k) <==> AcceptsRequest(events, i, k)
    {
      History.Prefixes(events, i);
    }
    if WasRegistered(events, k) {
      var i: nat :| AcceptsRequest(events, i, k);
      assert i < |events| - 1 ==> AcceptsRequest(before, i, k);
    }
    if WasRegistered(before, k) {
      var i: nat :| AcceptsRequest(before, i, k);
      assert AcceptsRequest(events, i, k);
    }
  }

  /** The three things a run keeps: a descriptor with a role is one of a registered
      connection; only registered connections heard an acceptance; and each of them heard
      it first of all. */
  ghost predicate RolesAreRegistered(events: seq<Event>) {
    var st := Run(events);
    forall d | d in st.net.conn && HasRole(st, d) :: WasRegistered(events, st.net.conn[d])
  }

  ghost predicate HeardIsRegistered(events: seq<Event>) {
    var chunks := Run(events).net.chunks;
    forall k | 0 <= k < |chunks| :: HeardAcceptance(chunks[k]) ==> WasRegistered(events, k)
  }

  ghost predicate RegisteredHeardFirst(events: seq<Event>) {
    var chunks := Run(events).net.chunks;
    forall k: nat | WasRegistered(events, k) :: k < |chunks| && |chunks[k]| > 0 && Accepts(chunks[k][0])
  }

  ghost predicate Agrees(events: seq<Event>) {
    RolesAreRegistered(events) && HeardIsRegistered(events) && RegisteredHeardFirst(events)
  }

  lemma {:induction false} AgreesAfterAccept(events: seq<Event>)
    requires events != [] && events[|events| - 1].Accept? && WellBehaved(events)
    requires Agrees(events[..|events| - 1])
    ensures Agrees(events)
  {
    hide Accepts, WasRegistered, Owned, Roles, Net.Valid;
    var before, e := events[..|events| - 1], events[|events| - 1];
    var st := Run(before);
    forall k: nat
      ensures WasRegistered(events, k) <==> WasRegistered(before, k)
    {
      RegistrationSplits(events, k);
    }
    AlwaysSound(before);
    OneOf(st, e.fd);
  }

  lemma {:induction false} AgreesAfterHangup(events: seq<Event>)
    requires events != [] && events[|events| - 1].Hangup? && WellBehaved(events)
    requires Agrees(events[..|events| - 1])
    ensures Agrees(events)
  {
    hide Accepts, WasRegistered, Owned, Roles, Disconnect, Net.Valid;
    var before, e := events[..|events| - 1], events[|events| - 1];
    var st, st' := Run(before), Run(events);
    forall k: nat
      ensures WasRegistered(events, k) <==> WasRegistered(before, k)
    {
      RegistrationSplits(events, k);
    }
    AlwaysSound(before);
    DisconnectKeeps(st, e.fd);
    forall d | d in st'.net.conn && HasRole(st', d)
      ensures HasRole(st, d)
    {
      RoleOfOther(st, e.fd, d);
    }
  }

  lemma ReachedConnection(st: State, k: nat)
    requires exists q | 0 <= q < |st.mounts| :: History.Reaches(st.net, st.mounts[q].clients, k)
    ensures exists d | d in st.net.conn :: HasRole(st, d) && st.net.conn[d] == k
  {
    hide Roles;
    var q :| 0 <= q < |st.mounts| && History.Reaches(st.net, st.mounts[q].clients, k);
    var d :| d in st.mounts[q].clients && d in st.net.conn && st.net.conn[d] == k;
    RolesOfMount(st.mounts, q, d);
  }

  lemma {:induction false} AgreesAfterData(events: seq<Event>)
    requires events != [] && events[|events| - 1].Recv? && !HasRequest(events[|events| - 1].data)
    requires WellBehaved(events) && Agrees(events[..|events| - 1])
    ensures Agrees(events)
  {
    hide Accepts, WasRegistered, Owned, Roles, ParseData, HasRequest, HasGga, IsServer, HeardAcceptance;
    var before, e := events[..|events| - 1], events[|events| - 1];
    var st, st' := Run(before), Run(events);
    forall k: nat
      ensures WasRegistered(events, k) <==> WasRegistered(before, k)
    {
      RegistrationSplits(events, k);
    }
    AlwaysSound(before);
    DataEffect(st, e.fd, e.data, e.fails);
    var r := ParseData(st, e.fd, e.data, e.fails);
    forall k: nat | k < |st.net.chunks|
      ensures st.net.chunks[k] <= r.st.net.chunks[k]
      ensures r.st.net.chunks[k] != st.net.chunks[k] ==> WasRegistered(before, k)
    {
      DataAppends(st, e.fd, e.data, e.fails, k);
      if r.st.net.chunks[k] != st.net.chunks[k] {
        History.ForwardReach(st, e.fd, e.data, e.fails, k);
        ReachedConnection(st, k);
      }
    }
  }

  lemma LastRequest(events: seq<Event>, k: nat)
    requires events != [] && events[|events| - 1].Recv? && HasRequest(events[|events| - 1].data)
    requires events[|events| - 1].fd in Run(events[..|events| - 1]).net.conn
    ensures var st, e := Run(events[..|events| - 1]), events[|events| - 1];
            AcceptsRequest(events, |events| - 1, k) <==>
              k == st.net.conn[e.fd] && ParseData(st, e.fd, e.data, e.fails).ret == 0
  {
    hide Run, ParseData, HasRequest;
  }

  lemma {:induction false} AgreesAfterRequest(events: seq<Event>)
    requires events != [] && events[|events| - 1].Recv? && HasRequest(events[|events| - 1].data)
    requires WellBehaved(events) && Agrees(events[..|events| - 1])
    ensures Agrees(events)
  {
    hide Accepts, WasRegistered, Owned, Roles, ParseData, HasRequest, HasGga, IsServer;
    var before, e := events[..|events| - 1], events[|events| - 1];
    var st, st' := Run(before), Run(events);
    AlwaysSound(before);
    RequestEffect(st, e.fd, e.data, e.fails);
    var r, k0 := ParseData(st, e.fd, e.data, e.fails), st.net.conn[e.fd];
    RequestAnswer(st, e.fd, e.data, e.fails, k0);
    forall k: nat
      ensures WasRegistered(events, k) <==> WasRegistered(before, k) || (k == k0 && r.ret == 0)
    {
      RegistrationSplits(events, k);
      LastRequest(events, k);
    }
    forall k: nat | k < |st.net.chunks| && k != k0
      ensures st'.net.chunks[k] == st.net.chunks[k]
    {
      RequestChunks(st, e.fd, e.data, e.fails, k);
    }
  }

  lemma InitAgrees()
    ensures Agrees([])
  {
    assert Run([]) == INIT;
  }

  lemma {:induction false} AlwaysAgrees(events: seq<Event>)
    requires WellBehaved(events)
    ensures Agrees(events)
  {
    hide Agrees, Behaves, Possible, Run, HasRequest;
    if events == [] {
      InitAgrees();
    } else {
      AlwaysAgrees(events[..|events| - 1]);
      match events[|events| - 1]
      case Accept(_) => AgreesAfterAccept(events);
      case Hangup(_) => AgreesAfterHangup(events);
      case Recv(_, data, _) =>
        if HasRequest(data) {
          AgreesAfterRequest(events);
        } else {
          AgreesAfterData(events);
        }
    }
  }

  // ---------- the peer's side ----------

  /** The texts among the first `n` polls. */
  function Heard(polls: nat -> Poll, n: nat): seq<string> {
    if n == 0 then []
    else Heard(polls, n - 1) + if polls(n - 1).Chunk? then [polls(n - 1).text] else []
  }

  ghost predicate FirstChunk(polls: nat -> Poll, j: nat) {
    polls(j).Chunk? && forall i | 0 <= i < j :: polls(i).Nothing?
  }

  /** The first text comes with one of the first 29 polls and nothing ends the stream before. */
  ghost predicate AnsweredInTime(polls: nat -> Poll) {
    exists j | 0 <= j < TIMEOUT - 1 :: FirstChunk(polls, j)
  }

  lemma {:induction false} HeardGrows(polls: nat -> Poll, n: nat, m: nat)
    requires n <= m
    ensures Heard(polls, n) <= Heard(polls, m)
    decreases m
  {
    if n < m {
      HeardGrows(polls, n, m - 1);
    }
  }

  lemma {:induction false} HeardNothing(polls: nat -> Poll, n: nat)
    requires forall j | 0 <= j < n :: !polls(j).Chunk?
    ensures Heard(polls, n) == []
  {
    if n > 0 {
      HeardNothing(polls, n - 1);
    }
  }

  /** Whenever texts are heard at all, the first of them is the connection's first chunk. */
  lemma {:induction false} FirstHeard(polls: nat -> Poll, i: nat, chunks: seq<string>)
    requires i < TIMEOUT && polls(i).Chunk? && Heard(polls, TIMEOUT) <= chunks
    requires chunks != [] && Accepts(chunks[0])
    ensures exists j | 0 <= j <= i :: IsAcceptance(polls(j))
    ensures (forall j | 0 <= j < i :: !polls(j).Chunk?) ==> IsAcceptance(polls(i))
    decreases i
  {
    hide Accepts;
    HeardGrows(polls, i + 1, TIMEOUT);
    if j :| 0 <= j < i && polls(j).Chunk? {
      FirstHeard(polls, j, chunks);
    } else {
      HeardNothing(polls, i);
      assert Heard(polls, i + 1) == [polls(i).text];
    }
  }

  lemma {:induction false} HeardHas(polls: nat -> Poll, i: nat, n: nat)
    requires i < n && polls(i).Chunk?
    ensures polls(i).text in Heard(polls, n)
    decreases n
  {
    if i < n - 1 {
      HeardHas(polls, i, n - 1);
    }
  }

  lemma SuccessIsHeard(polls: nat -> Poll, chunks: seq<string>)
    requires Succeeds(polls) && Heard(polls, TIMEOUT) <= chunks
    ensures HeardAcceptance(chunks)
  {
    hide Accepts, Heard;
    var j :| 0 <= j < TIMEOUT - 1 && AcceptedAt(polls, j);
    HeardHas(polls, j, TIMEOUT);
    var i :| 0 <= i < |Heard(polls, TIMEOUT)| && Heard(polls, TIMEOUT)[i] == polls(j).text;
    assert chunks[i] == polls(j).text;
  }

  /** A handshake succeeds exactly when its first text is an acceptance and in time. */
  lemma SuccessIsInTime(polls: nat -> Poll, chunks: seq<string>)
    requires Heard(polls, TIMEOUT) <= chunks && chunks != [] && Accepts(chunks[0])
    ensures Succeeds(polls) <==> AnsweredInTime(polls)
  {
    hide Accepts, Heard;
    if Succeeds(polls) {
      var j :| 0 <= j < TIMEOUT - 1 && AcceptedAt(polls, j);
      forall i | 0 <= i < j
        ensures polls(i).Nothing?
      {
        if polls(i).Chunk? {
          FirstHeard(polls, i, chunks);
        }
      }
      assert FirstChunk(polls, j);
    }
    if AnsweredInTime(polls) {
      var j :| 0 <= j < TIMEOUT - 1 && FirstChunk(polls, j);
      FirstHeard(polls, j, chunks);
      assert AcceptedAt(polls, j);
    }
  }

  /** Handshake agreement: in a run of well-behaved peers, a peer on connection `k` that
      hears what the caster sends it, chunk by chunk, ends its handshake with success if and
      only if the caster has registered the connection and the first text came in time. */
  lemma HandshakeAgreement(events: seq<Event>, k: nat, polls: nat -> Poll)
    requires WellBehaved(events) && k < |Run(events).net.chunks|
    requires Heard(polls, TIMEOUT) <= Run(events).net.chunks[k]
    ensures Succeeds(polls) <==> WasRegistered(events, k) && AnsweredInTime(polls)
  {
    hide Accepts, Heard, WasRegistered, Succeeds, AnsweredInTime, HeardAcceptance, Run, WellBehaved;
    AlwaysAgrees(events);
    var chunks := Run(events).net.chunks[k];
    if WasRegistered(events, k) {
      SuccessIsInTime(polls, chunks);
    } else if Succeeds(polls) {
      SuccessIsHeard(polls, chunks);
    }
  }

  /** In the run `events` the peer on connection `k` hears what the caster sends it. */
  ghost predicate Hears(events: seq<Event>, k: nat, polls: nat -> Poll) {
    && WellBehaved(events) && k < |Run(events).net.chunks|
    && Heard(polls, TIMEOUT) <= Run(events).net.chunks[k]
  }

  /** `ok` is the caster's view too: the connection is registered, and the reply came in time. */
  ghost predicate CasterAgrees(polls: nat -> Poll, ok: bool) {
    forall events, k: nat | Hears(events, k, polls) :: ok <==> WasRegistered(events, k) && AnsweredInTime(polls)
  }

  lemma SuccessAgrees(polls: nat -> Poll)
    ensures CasterAgrees(polls, Succeeds(polls))
  {
    hide Heard, WasRegistered, Succeeds, AnsweredInTime, Run, WellBehaved;
    forall events, k: nat | Hears(events, k, polls)
      ensures Succeeds(polls) <==> WasRegistered(events, k) && AnsweredInTime(polls)
    {
      HandshakeAgreement(events, k, polls);
    }
  }
}
