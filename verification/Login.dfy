/** Printing and parsing together: what the caster does with the requests that this
    library's server and client print. */
module LoginDecision {
  import opened Text
  import opened Requests
  import opened Caster
  import opened Tables
  import opened Wire
  import opened Parsing
  import Base64
  import Delivery
  import History
  import Net
  import Split

  // ---------- the server's request ----------

  lemma SkipPost(lines: seq<string>, taken: set<string>, i: nat, login: Login)
    requires i < |lines| && !Contains(lines[i], POST) && !Contains(lines[i], AUTH)
    ensures ReadPost(lines, taken, i, login) == ReadPost(lines, taken, i + 1, login)
  {
    hide Contains;
  }

  lemma SkipRow(lines: seq<string>, mount: string, i: nat, row: string)
    requires i < |lines| && !Contains(lines[i], ROW)
    ensures ReadRow(lines, mount, i, row) == ReadRow(lines, mount, i + 1, row)
  {
    hide Contains, RowFits, RowOf;
  }

  lemma PrintedLines(s: ServerConfig)
    requires ServerAdmissible(s)
    ensures var l := Split.WithCrlf(ServerLines(s));
            && |l| == 8
            && l[0] == RequestLine("POST /", s.mount, "HTTP/1.1") + CRLF && l[1] == "Host: " + Host(s) + CRLF
            && l[2] == "Ntrip-Version: Ntrip/2.0" + CRLF && l[3] == "User-Agent: " + s.agent + CRLF
            && l[4] == AuthLine(s.user, s.password) + CRLF && l[5] == "Ntrip-STR: " + s.row + CRLF
            && l[6] == "Connection: close" + CRLF && l[7] == "Transfer-Encoding: chunked" + CRLF
  {
    hide Split.WithCrlf, RequestLine, AuthLine, Host, ServerRequest, Contains;
    WithCrlfLength(ServerLines(s));
    forall i | 0 <= i < 8
      ensures Split.WithCrlf(ServerLines(s))[i] == ServerLines(s)[i] + CRLF
    {
      WithCrlfAt(ServerLines(s), i);
    }
  }

  /** Lines 1 to 3 and 5 to 7 are passed over in the first loop, all but line 5 in the second. */
  lemma PlainLines(s: ServerConfig, i: nat)
    requires ServerAdmissible(s) && i < 8
    requires |Split.WithCrlf(ServerLines(s))| == 8
    ensures var line := Split.WithCrlf(ServerLines(s))[i];
            && (i != 0 && i != 4 ==> !Contains(line, POST) && !Contains(line, AUTH))
            && (i != 5 ==> !Contains(line, ROW))
  {
    hide Contains, Split.WithCrlf, RequestLine, AuthLine, Host, ServerRequest, ServerLines, IsLine;
    PrintedLines(s);
    if i == 0 {
      RequestLineIsNoRow(s.mount);
    } else if i == 1 {
      HostLine(Host(s));
    } else if i == 2 {
      VersionLine();
    } else if i == 3 {
      AgentLine(s.agent);
    } else if i == 4 {
      AuthLineIsAuth(s.user, s.password);
    } else if i == 5 {
      RowLine(s.row);
    } else if i == 6 {
      ConnectionLine();
    } else {
      EncodingLine();
    }
  }

  function ServerLogin(s: ServerConfig): Login {
    Login(s.mount, s.user, Stored(s.user, s.password))
  }

  lemma PostLine(lines: seq<string>, taken: set<string>, i: nat, login: Login, m: string)
    requires i < |lines| && Contains(lines[i], POST) && MountOf(lines[i]) == Some(m)
    ensures ReadPost(lines, taken, i, login) ==
              if m in taken then Taken else ReadPost(lines, taken, i + 1, login.(mount := m))
  {
    hide Contains, MountOf;
  }

  lemma AuthStep(lines: seq<string>, taken: set<string>, i: nat, login: Login, u: string, p: string)
    requires i < |lines| && Contains(lines[i], AUTH) && UserPassword(lines[i]) == Some((u, p))
    requires MountOf(lines[i]) == None
    ensures ReadPost(lines, taken, i, login) ==
              if Contains(lines[i], POST) then Refused
              else ReadPost(lines, taken, i + 1, login.(user := u, password := p))
  {
    hide Contains, MountOf, UserPassword;
  }

  lemma PostEnd(s: ServerConfig, lines: seq<string>, taken: set<string>, login: Login)
    requires ServerAdmissible(s) && lines == Split.WithCrlf(ServerLines(s)) && |lines| == 8
    ensures ReadPost(lines, taken, 5, login) == Headers(login)
  {
    hide Contains, Split.WithCrlf, ServerLines, ServerAdmissible, MountOf, UserPassword;
    PlainLines(s, 5);
    SkipPost(lines, taken, 5, login);
    PlainLines(s, 6);
    SkipPost(lines, taken, 6, login);
    PlainLines(s, 7);
    SkipPost(lines, taken, 7, login);
  }

  /** The first loop over the printed request. */
  lemma PostOfPrinted(s: ServerConfig, taken: set<string>)
    requires ServerAdmissible(s)
    ensures ReadPost(Split.WithCrlf(ServerLines(s)), taken, 0, NO_LOGIN) ==
              if s.mount in taken then Taken
              else if Contains(Credentials(s.user, s.password), POST) then Refused
              else Headers(ServerLogin(s))
  {
    hide Contains, Split.WithCrlf, RequestLine, AuthLine, Credentials, Host, ServerRequest, ServerLines,
         MountOf, UserPassword, ReadPost, Stored;
    var lines := Split.WithCrlf(ServerLines(s));
    PrintedLines(s);
    MountOfRequestLine("POST /", s.mount, "HTTP/1.1");
    RequestLineHas("POST /", s.mount, "HTTP/1.1", POST);
    PostLine(lines, taken, 0, NO_LOGIN, s.mount);
    if s.mount !in taken {
      var login := NO_LOGIN.(mount := s.mount);
      PlainLines(s, 1);
      SkipPost(lines, taken, 1, login);
      PlainLines(s, 2);
      SkipPost(lines, taken, 2, login);
      PlainLines(s, 3);
      SkipPost(lines, taken, 3, login);
      AuthLineHas(s.user, s.password, POST);
      AuthLineIsAuth(s.user, s.password);
      UserPasswordOfLine(s.user, s.password);
      NoMountInAuthLine(s.user, s.password);
      AuthStep(lines, taken, 4, login, s.user, Stored(s.user, s.password));
      if !Contains(Credentials(s.user, s.password), POST) {
        PostEnd(s, lines, taken, ServerLogin(s));
      }
    }
  }

  lemma RowStep(lines: seq<string>, mount: string, i: nat, row: string)
    requires i < |lines| && Contains(lines[i], ROW)
    ensures ReadRow(lines, mount, i, row) ==
              if RowFits(RowOf(lines[i]), mount) then ReadRow(lines, mount, i + 1, RowOf(lines[i])) else None
  {
    hide Contains, RowFits, RowOf;
  }

  lemma RowEnd(lines: seq<string>, mount: string, row: string)
    ensures ReadRow(lines, mount, |lines|, row) == Some(row)
  {
  }

  /** The second loop over the printed request. */
  lemma RowOfPrinted(s: ServerConfig)
    requires ServerAdmissible(s)
    ensures ReadRow(Split.WithCrlf(ServerLines(s)), s.mount, 0, "") ==
              if RowFits(s.row + CRLF, s.mount) then Some(s.row + CRLF) else None
  {
    hide Contains, Split.WithCrlf, RequestLine, AuthLine, Host, ServerRequest, ServerLines, RowFits, RowOf, ReadRow;
    var lines := Split.WithCrlf(ServerLines(s));
    PrintedLines(s);
    forall i | 0 <= i < 5
      ensures ReadRow(lines, s.mount, i, "") == ReadRow(lines, s.mount, i + 1, "")
    {
      PlainLines(s, i);
      SkipRow(lines, s.mount, i, "");
    }
    assert ReadRow(lines, s.mount, 0, "") == ReadRow(lines, s.mount, 1, "");
    assert ReadRow(lines, s.mount, 2, "") == ReadRow(lines, s.mount, 3, "");
    assert ReadRow(lines, s.mount, 4, "") == ReadRow(lines, s.mount, 5, "");
    RowLine(s.row);
    RowOfLine(s.row);
    var row := s.row + CRLF;
    RowStep(lines, s.mount, 5, "");
    if RowFits(row, s.mount) {
      PlainLines(s, 6);
      SkipRow(lines, s.mount, 6, row);
      PlainLines(s, 7);
      SkipRow(lines, s.mount, 7, row);
      RowEnd(lines, s.mount, row);
    }
  }

  // ---------- registering ----------

  lemma RequestLineHasBoth(verb: string, m: string, v: string)
    ensures Contains(RequestLine(verb, m, v), verb) && Contains(RequestLine(verb, m, v), v)
  {
    hide Contains;
    StartOccurs(verb, m + " " + v);
    assert RequestLine(verb, m, v) == verb + (m + " " + v);
    StartOccurs(v, "");
    assert v + "" == v;
    ContainsRight(verb + m + " ", v, v);
  }

  lemma FirstLineIn(lines: seq<string>, tail: string, pat: string)
    requires lines != [] && Contains(lines[0], pat)
    ensures Contains(Split.LinesText(lines) + tail, pat)
  {
    hide Contains;
    var rest := CRLF + (Split.LinesText(lines[1..]) + tail);
    ContainsLeft(lines[0], rest, pat);
    assert Split.LinesText(lines) + tail == lines[0] + rest;
  }

  lemma PrintedIsPost(s: ServerConfig)
    ensures IsPost(ServerRequest(s)) && HasRequest(ServerRequest(s))
  {
    hide Contains, ServerRequest, RequestLine, Split.LinesText;
    var l := ServerLines(s);
    ServerText(s);
    RequestLineHasBoth("POST /", s.mount, "HTTP/1.1");
    FirstLineIn(l, "", "POST /");
    FirstLineIn(l, "", "HTTP/1.1");
    assert Split.LinesText(l) + "" == Split.LinesText(l);
  }

  /** Nothing in the printed request keeps the caster from registering it: the encoded
      credentials do not contain "POST", the row passes the section check, and neither user
      nor stored password is empty. */
  predicate Acceptable(s: ServerConfig) {
    && !Contains(Credentials(s.user, s.password), POST) && RowFits(s.row + CRLF, s.mount)
    && s.user != "" && Stored(s.user, s.password) != ""
  }

  /** What it registers. */
  function MountOfServer(s: ServerConfig, fd: int): Mount {
    Mount(fd, s.mount, s.user, Stored(s.user, s.password), [])
  }

  /** What an acceptable printed request asks for. */
  lemma RegistrationOfPrinted(s: ServerConfig, taken: set<string>)
    requires ServerAdmissible(s)
    ensures Registration(Lines(ServerRequest(s)), taken) ==
              if s.mount !in taken && Acceptable(s) then Some((ServerLogin(s), s.row + CRLF)) else None
  {
    hide Contains, Split.WithCrlf, Split.SplitResult, Credentials, ServerRequest, ServerLines,
         RowFits, ReadPost, ReadRow, Stored;
    ServerSplits(s);
    PostOfPrinted(s, taken);
    RowOfPrinted(s);
  }

  lemma ServerRequestOutcome(st: State, s: ServerConfig, fd: int, fails: set<nat>)
    requires ServerAdmissible(s)
    ensures var r := ParseData(st, fd, ServerRequest(s), fails);
            if s.mount !in Names(st.mounts) && Acceptable(s) && Net.Sends(st.net, fd, 0 !in fails) then
              && r.ret == 0
              && r.st.mounts == st.mounts + [MountOfServer(s, fd)]
              && r.st.rows == st.rows + [s.row + CRLF]
              && r.st.net == Net.Send(st.net, fd, OK_REPLY, true)
            else
              && r.ret == -1 && SameTables(st, r.st)
              && r.st.net == if s.mount in Names(st.mounts) then Net.Send(st.net, fd, BAD_PASSWORD, 0 !in fails)
                             else st.net
  {
    hide Contains, Credentials, ServerRequest, RowFits, Stored, Net.Send, Names, ReadPost, ReadRow,
         Split.WithCrlf, Split.SplitResult, ServerLines;
    PrintedIsPost(s);
    ServerSplits(s);
    PostOfPrinted(s, Names(st.mounts));
    RowOfPrinted(s);
  }

  /** The section check, over the fields of the row: the empty ones do not count, and the
      last one has the CRLF of the line. */
  lemma RowFitsFields(front: seq<string>, last: string, mount: string)
    requires ';' !in last && forall i | 0 <= i < |front| :: ';' !in front[i]
    ensures var sections := Split.NonEmpty(front) + [last + CRLF];
            RowFits(Split.Join(front + [last], ";") + CRLF, mount)
            <==> |sections| <= 4 || (sections[1] == mount && sections[2] == mount)
  {
    hide Split.SplitResult, Split.Join, Split.NonEmpty;
    Split.JoinLast(front, last, CRLF, ";");
    Split.SplitJoined(front + [last + CRLF], ';');
    Split.NonEmptyLast(front, last + CRLF);
  }

  lemma StoredIs(s: ServerConfig)
    ensures Stored(s.user, s.password) ==
              s.password + if (|s.user| + 1 + |s.password|) % 3 == 0 then "" else [0 as char]
  {
  }

  /** Print and parse are inverse for the server's request: the caster registers exactly
      the printed mountpoint, user and password (this up to the decoder's zero byte) and
      the printed row with its CRLF. It does so if and only if the mountpoint is free, the
      encoded credentials do not contain "POST", the row has at most four sections or the
      mountpoint in its second and third one, user and stored password are not empty, and
      the reply goes out. The row is given by its fields, `front` and `last`. */
  lemma ServerRequestRegisters(st: State, s: ServerConfig, front: seq<string>, last: string, fd: int, fails: set<nat>)
    requires ServerAdmissible(s)
    requires s.row == Split.Join(front + [last], ";")
    requires ';' !in last && forall i | 0 <= i < |front| :: ';' !in front[i]
    ensures var r := ParseData(st, fd, ServerRequest(s), fails);
            var stored := s.password + if (|s.user| + 1 + |s.password|) % 3 == 0 then "" else [0 as char];
            var sections := Split.NonEmpty(front) + [last + "\r\n"];
            if exists q | 0 <= q < |st.mounts| :: st.mounts[q].name == s.mount then
              r == Outcome(st.(net := Net.Send(st.net, fd, "ERROR - Bad Password\r\n", 0 !in fails)), -1)
            else if !Contains(Credentials(s.user, s.password), "POST")
              && (|sections| <= 4 || (sections[1] == s.mount && sections[2] == s.mount))
              && s.user != "" && stored != "" && Net.Sends(st.net, fd, 0 !in fails)
            then
              r == Outcome(State(st.mounts + [Mount(fd, s.mount, s.user, stored, [])], st.rows + [s.row + "\r\n"],
                                 Net.Send(st.net, fd, "HTTP/1.1 200 OK\r\n", true)), 0)
            else r == Outcome(st, -1)
  {
    hide Contains, Credentials, ServerRequest, RowFits, Net.Send, Net.Sends, ParseData, ServerAdmissible,
         Split.Join, Split.NonEmpty;
    RowFitsFields(front, last, s.mount);
    ServerRequestOutcome(st, s, fd, fails);
    StoredIs(s);
  }

  // ---------- the client's request ----------

  lemma PrintedClientLines(c: ClientConfig, v: string)
    requires ClientAdmissible(c) && IsVersion(v)
    ensures var l := Split.WithCrlf(ClientLines(c, v));
            && |l| == 3
            && l[0] == RequestLine("GET /", c.mount, v) + CRLF
            && l[1] == "User-Agent: " + c.agent + CRLF
            && l[2] == AuthLine(c.user, c.password) + CRLF
  {
    hide Split.WithCrlf, RequestLine, AuthLine, GetRequest, Contains;
    WithCrlfLength(ClientLines(c, v));
    forall i | 0 <= i < 3
      ensures Split.WithCrlf(ClientLines(c, v))[i] == ClientLines(c, v)[i] + CRLF
    {
      WithCrlfAt(ClientLines(c, v), i);
    }
  }

  function ClientLogin(c: ClientConfig): Login {
    Login(c.mount, c.user, Stored(c.user, c.password))
  }

  /** Credentials whose encoding contains "GET" are taken for a second request line, and
      the login stays without a user. */
  function ClientGot(c: ClientConfig, v: string): GetHeaders {
    var version1 := Contains(RequestLine("GET /", c.mount, v) + CRLF, "HTTP/1.0");
    if Contains(Credentials(c.user, c.password), GET)
    then GetHeaders(Login(c.mount, "", ""), version1 || Contains(AuthLine(c.user, c.password) + CRLF, "HTTP/1.0"))
    else GetHeaders(ClientLogin(c), version1)
  }

  lemma GetLine(lines: seq<string>, i: nat, got: GetHeaders)
    requires i < |lines| && Contains(lines[i], GET)
    ensures var seen := got.(version1 := got.version1 || Contains(lines[i], "HTTP/1.0"));
            ReadGet(lines, i, got) ==
              match MountOf(lines[i])
              case None => seen
              case Some(m) => ReadGet(lines, i + 1, seen.(login := seen.login.(mount := m)))
  {
    hide Contains, MountOf;
  }

  lemma OtherLine(lines: seq<string>, i: nat, got: GetHeaders)
    requires i < |lines| && !Contains(lines[i], GET) && !Contains(lines[i], AUTH)
    ensures ReadGet(lines, i, got) == ReadGet(lines, i + 1, got)
  {
    hide Contains;
  }

  lemma AuthGet(lines: seq<string>, i: nat, got: GetHeaders, u: string, p: string)
    requires i < |lines| && !Contains(lines[i], GET) && Contains(lines[i], AUTH)
    requires UserPassword(lines[i]) == Some((u, p))
    ensures ReadGet(lines, i, got) == ReadGet(lines, i + 1, got.(login := got.login.(user := u, password := p)))
  {
    hide Contains, MountOf, UserPassword;
  }

  lemma GetEnd(lines: seq<string>, got: GetHeaders)
    ensures ReadGet(lines, |lines|, got) == got
  {
  }

  lemma GetOfPrinted(c: ClientConfig, v: string)
    requires ClientAdmissible(c) && IsVersion(v)
    ensures ReadGet(Split.WithCrlf(ClientLines(c, v)), 0, GetHeaders(NO_LOGIN, false)) == ClientGot(c, v)
  {
    hide Contains, Split.WithCrlf, RequestLine, AuthLine, Credentials, GetRequest, ClientLines,
         MountOf, UserPassword, Stored, IsLine;
    var lines := Split.WithCrlf(ClientLines(c, v));
    PrintedClientLines(c, v);
    MountOfRequestLine("GET /", c.mount, v);
    RequestLineHas("GET /", c.mount, v, GET);
    AgentLine(c.agent);
    AuthLineHas(c.user, c.password, GET);
    AuthLineIsAuth(c.user, c.password);
    UserPasswordOfLine(c.user, c.password);
    NoMountInAuthLine(c.user, c.password);
    var v1 := Contains(lines[0], "HTTP/1.0");
    var got1 := GetHeaders(Login(c.mount, "", ""), v1);
    GetLine(lines, 0, GetHeaders(NO_LOGIN, false));
    assert ReadGet(lines, 0, GetHeaders(NO_LOGIN, false)) == ReadGet(lines, 1, got1);
    OtherLine(lines, 1, got1);
    if Contains(lines[2], GET) {
      GetLine(lines, 2, got1);
    } else {
      AuthGet(lines, 2, got1, c.user, Stored(c.user, c.password));
      GetEnd(lines, GetHeaders(ClientLogin(c), v1));
    }
  }

  // ---------- the client's text is a GET and no POST ----------

  lemma EmptyLacks(pat: string)
    requires pat != ""
    ensures !Contains("", pat)
  {
  }

  lemma CrlfJoin(line: string, rest: string, pat: string)
    requires pat != "" && IsLine(pat) && !Contains(line, pat) && !Contains(rest, pat)
    ensures !Contains(line + CRLF + rest, pat)
  {
    hide Contains;
    LacksWithCrlf(line, pat);
    var a := line + CRLF;
    assert a[|a| - 1] == '\n';
    LacksAfter(a, rest, pat);
  }

  lemma {:induction false} LinesLack(lines: seq<string>, pat: string)
    requires pat != "" && IsLine(pat) && forall i | 0 <= i < |lines| :: !Contains(lines[i], pat)
    ensures !Contains(Split.LinesText(lines) + CRLF, pat)
    ensures !Contains(Split.LinesText(lines), pat)
  {
    hide Contains, IsLine;
    CrlfLacks(pat);
    if lines == [] {
      EmptyLacks(pat);
      assert "" + CRLF == CRLF;
    } else {
      LinesLack(lines[1..], pat);
      CrlfJoin(lines[0], Split.LinesText(lines[1..]), pat);
      CrlfJoin(lines[0], Split.LinesText(lines[1..]) + CRLF, pat);
      assert Split.LinesText(lines) + CRLF == lines[0] + CRLF + (Split.LinesText(lines[1..]) + CRLF);
    }
  }

  lemma PartOccurs(s: string, pat: string, more: string, i: nat)
    ensures OccursAt(s, pat + more, i) ==> OccursAt(s, pat, i)
  {
    assert forall k | 0 <= k < |pat| :: (pat + more)[k] == pat[k];
  }

  lemma LongerPattern(s: string, pat: string, more: string)
    requires !Contains(s, pat)
    ensures !Contains(s, pat + more)
  {
    forall i | 0 <= i <= |s|
      ensures !OccursAt(s, pat + more, i)
    {
      PartOccurs(s, pat, more, i);
    }
  }

  lemma EndIsInside(a: string, pat: string, k: nat)
    requires 0 < k < |pat| && EndsWith(a, pat[..k])
    ensures exists j | 0 <= j < |a| :: a[j] == pat[0]
  {
    assert a[|a| - k] == a[|a| - k..][0] == pat[0];
  }

  lemma LacksPost(name: string, v: string)
    requires name == "User-Agent: " || name == "Authorization: Basic "
    requires !Contains(v, "POST /")
    ensures !Contains(name + v, "POST /")
  {
    hide Contains;
    var pat := "POST /";
    NotContainsChar(name, pat, 0);
    forall k | 0 < k < 6
      ensures !EndsWith(name, pat[..k])
    {
      if EndsWith(name, pat[..k]) {
        LastOfEnd(name, pat, k);
        assert pat[..k][0] == 'P';
        EndIsInside(name, pat, k);
      }
    }
    NotContainsConcat(name, v, pat);
  }

  lemma ClientLineLacksPost(c: ClientConfig, v: string, i: nat)
    requires ClientAdmissible(c) && IsVersion(v) && i < 3
    ensures !Contains(ClientLines(c, v)[i], "POST /")
  {
    hide Contains, Credentials, GetRequest, IsLine;
    var pat := "POST /";
    if i == 0 {
      NotContainsChar("GET /", pat, 0);
      NotContainsChar(c.mount, pat, 4);
      LacksAfter("GET /", c.mount, pat);
      NotContainsChar(" " + v, pat, 1);
      forall k | 0 < k < 6
        ensures !StartsWith(" " + v, pat[k..])
      {
        assert pat[k..][0] == pat[k];
        assert k == 4 ==> pat[k..][1] == '/';
      }
      NotContainsConcat("GET /" + c.mount, " " + v, pat);
      assert RequestLine("GET /", c.mount, v) == "GET /" + c.mount + (" " + v);
    } else if i == 1 {
      LongerPattern(c.agent, "POST", " /");
      assert "POST" + " /" == pat;
      LacksPost("User-Agent: ", c.agent);
    } else {
      CredentialChars(c.user, c.password);
      NotContainsChar(Credentials(c.user, c.password), pat, 4);
      LacksPost("Authorization: Basic ", Credentials(c.user, c.password));
    }
  }

  lemma PrintedIsGet(c: ClientConfig, v: string)
    requires ClientAdmissible(c) && IsVersion(v)
    ensures IsGet(GetRequest(c, v)) && HasRequest(GetRequest(c, v)) && !IsPost(GetRequest(c, v))
  {
    hide Contains, GetRequest, ClientAdmissible, RequestLine, Split.LinesText;
    var l := ClientLines(c, v);
    ClientText(c, v);
    RequestLineHasBoth("GET /", c.mount, v);
    FirstLineIn(l, CRLF, "GET /");
    FirstLineIn(l, CRLF, v);
    forall i | 0 <= i < |l|
      ensures !Contains(l[i], "POST /")
    {
      ClientLineLacksPost(c, v, i);
    }
    LinesLack(l, "POST /");
  }

  // ---------- the login decision ----------

  /** Without a zero byte of its own, a text ends where the first zero byte stands. */
  lemma FindCharFirst(p: string, z: string)
    requires 0 as char !in p && (z == "" || z == [0 as char])
    ensures FindChar(p + z, 0 as char, 0) == if z == "" then Npos else At(|p|)
  {
    hide FindChar;
    var s := p + z;
    assert forall j | 0 <= j < |p| :: s[j] == p[j];
    if z == "" {
      FindCharSpec(s, 0 as char, 0);
    } else {
      FindCharIs(s, 0 as char, 0, |p|);
    }
  }

  lemma NulEnds(p: string, q: string, m: nat, n: nat)
    requires 0 as char !in p && 0 as char !in q
    requires p + Base64.ZeroByte(m) == q + Base64.ZeroByte(n)
    ensures p == q
  {
    var zp, zq := Base64.ZeroByte(m), Base64.ZeroByte(n);
    FindCharFirst(p, zp);
    FindCharFirst(q, zq);
    hide FindChar;
    assert p == (p + zp)[..|p|];
    assert q == (q + zq)[..|q|];
  }

  /** Stored credentials are equal exactly when the printed ones are: both went through
      the decoder, zero byte and all. */
  lemma SameStored(u: Base64.Bytes, p: Base64.Bytes, u': Base64.Bytes, p': Base64.Bytes)
    requires 0 as char !in p && 0 as char !in p'
    ensures u == u' && Stored(u, p) == Stored(u', p') <==> u == u' && p == p'
  {
    if u == u' && Stored(u, p) == Stored(u', p') {
      NulEnds(p, p', |Pair(u, p)|, |Pair(u', p')|);
    }
  }

  lemma NoSuchEnd(k: nat)
    requires 0 < k < 8
    ensures !EndsWith("GET /", "HTTP/1.0"[..k])
  {
    var a, pat := "GET /", "HTTP/1.0";
    if k == 5 {
      assert a[|a| - 5..][0] != pat[..5][0];
    } else if k < 5 {
      assert a[|a| - k..][k - 1] != pat[..k][k - 1];
    }
  }

  lemma NoOtherVersion()
    ensures !Contains("HTTP/1.1", "HTTP/1.0") && !Contains(" ", "HTTP/1.0") && NoSeam(" ", "HTTP/1.0")
  {
    NotContainsChar("HTTP/1.1", "HTTP/1.0", 7);
    NotContainsChar(" ", "HTTP/1.0", 0);
  }

  /** The version text in the request line, and where else the caster may find it. */
  lemma OldStyle(m: string, v: string)
    requires ' ' !in m && IsVersion(v)
    ensures Contains(RequestLine("GET /", m, v) + CRLF, "HTTP/1.0") <==> v == "HTTP/1.0" || Contains(m, "HTTP/1.0")
  {
    hide Contains;
    var pat := "HTTP/1.0";
    if v == pat {
      RequestLineHasBoth("GET /", m, v);
      ContainsLeft(RequestLine("GET /", m, v), CRLF, pat);
    } else if Contains(m, pat) {
      ContainsRight("GET /", m, pat);
      ContainsLeft("GET /" + m, " " + v + CRLF, pat);
      assert RequestLine("GET /", m, v) + CRLF == "GET /" + m + (" " + v + CRLF);
    } else {
      NotContainsChar("GET /", pat, 0);
      forall k | 0 < k < 8
        ensures !EndsWith("GET /", pat[..k])
      {
        NoSuchEnd(k);
      }
      NotContainsConcat("GET /", m, pat);
      NoOtherVersion();
      LacksAfter(" ", v, pat);
      forall k | 0 < k < 8
        ensures !StartsWith(" " + v, pat[k..])
      {
        assert (" " + v)[0] == ' ' && pat[k..][0] == pat[k];
      }
      NotContainsConcat("GET /" + m, " " + v, pat);
      assert "GET /" + m + (" " + v) == RequestLine("GET /", m, v);
      LacksWithCrlf(RequestLine("GET /", m, v), pat);
    }
  }

  /** The sender is told that it is not authorized, and nothing else happens. */
  predicate TurnedAway(st: State, fd: int, r: Outcome, ok: bool) {
    r == Outcome(st.(net := Net.Send(st.net, fd, "HTTP/1.1 401 Unauthorized\r\n", ok)), -1)
  }

  lemma NameMatches(st: State, q: nat, login: Login)
    requires TablesHold(st) && q < |st.mounts| && st.mounts[q].name == login.mount
    ensures forall k | 0 <= k < |st.mounts| && k != q :: !Matches(st.mounts[k], login)
  {
    forall k | 0 <= k < |st.mounts| && k != q
      ensures st.mounts[k].name != login.mount
    {
      assert if k < q then st.mounts[k].name != st.mounts[q].name else st.mounts[q].name != st.mounts[k].name;
    }
  }

  /** The decision on a client's request, of either version, against a mount that a printed
      server request registered. With equal user and password, unless the encoded credentials
      contain "GET", it is admitted when the reply goes out, and the reply is in the style
      that the request asks for; else it is refused. */
  lemma ClientRequestDecision(st: State, q: nat, s: ServerConfig, c: ClientConfig, v: string, fd: int, fails: set<nat>)
    requires TablesHold(st) && q < |st.mounts| && Matches(st.mounts[q], ServerLogin(s))
    requires ServerAdmissible(s) && ClientAdmissible(c) && c.mount == s.mount
    requires v == "HTTP/1.0" || v == "HTTP/1.1"
    requires fd in st.net.conn
    ensures var mount, r := st.mounts[q], ParseData(st, fd, GetRequest(c, v), fails);
            if c.user == s.user && c.password == s.password && !Contains(Credentials(c.user, c.password), "GET") then
              if 0 !in fails then
                && r.ret == 0 && r.st.rows == st.rows
                && r.st.mounts == st.mounts[q := mount.(clients := mount.clients + [fd])]
                && r.st.net == Net.Send(st.net, fd, if v == "HTTP/1.0" || Contains(c.mount, "HTTP/1.0")
                                                    then "ICY 200 OK\r\n" else "HTTP/1.1 200 OK\r\n", true)
              else TurnedAway(st, fd, r, 1 !in fails)
            else TurnedAway(st, fd, r, 0 !in fails)
  {
    hide Contains, GetRequest, ServerRequest, Credentials, Stored, ReadGet, Admit, Net.Send,
         Split.WithCrlf, Split.SplitResult, ClientLines, RequestLine, AuthLine, IsLine, Host;
    PrintedIsGet(c, v);
    ClientSplits(c, v);
    GetOfPrinted(c, v);
    SameStored(c.user, c.password, s.user, s.password);
    OldStyle(c.mount, v);
    NameMatches(st, q, ClientGot(c, v).login);
    AdmitDecision(st, ClientGot(c, v), fd, fails);
  }

  /** A mountpoint that no server has registered admits nobody. */
  lemma UnknownMountRefused(st: State, c: ClientConfig, v: string, fd: int, fails: set<nat>)
    requires ClientAdmissible(c) && c.mount !in Names(st.mounts)
    requires v == "HTTP/1.0" || v == "HTTP/1.1"
    ensures TurnedAway(st, fd, ParseData(st, fd, GetRequest(c, v), fails), 0 !in fails)
  {
    hide Contains, GetRequest, Credentials, Stored, ReadGet, Admit, Net.Send,
         Split.WithCrlf, Split.SplitResult, ClientLines, RequestLine, AuthLine, IsLine;
    PrintedIsGet(c, v);
    ClientSplits(c, v);
    GetOfPrinted(c, v);
    NobodyMatches(st, 0, 0, ClientGot(c, v), fd, fails);
  }

  lemma StepOfAccepted(st: State, e: Event)
    requires e.Recv? && ParseData(st, e.fd, e.data, e.fails).ret == 0
    ensures Step(st, e) == ParseData(st, e.fd, e.data, e.fails).st
  {
  }

  /** End to end: once a printed server request was accepted, and while its mount is still
      there, a printed client request for that mountpoint is admitted to it if and only if
      user and password are the printed ones, their encoding does not contain "GET" and the
      reply goes out. */
  lemma EndToEndLogin(events: seq<Event>, i: nat, s: ServerConfig, c: ClientConfig, v: string, fd: int, fails: set<nat>)
    requires ServerAdmissible(s) && ClientAdmissible(c) && c.mount == s.mount
    requires v == "HTTP/1.0" || v == "HTTP/1.1"
    requires i < |events| && events[i].Recv? && events[i].data == ServerRequest(s)
    requires ParseData(Run(events[..i]), events[i].fd, events[i].data, events[i].fails).ret == 0
    requires History.Mounted(Run(events), MountOfServer(s, events[i].fd))
    requires fd in Run(events).net.conn
    ensures Run(events[..i + 1]).mounts == Run(events[..i]).mounts + [MountOfServer(s, events[i].fd)]
    ensures var st, r := Run(events), ParseData(Run(events), fd, GetRequest(c, v), fails);
            var right := c.user == s.user && c.password == s.password
                         && !Contains(Credentials(c.user, c.password), "GET");
            && (r.ret == 0 <==> right && 0 !in fails)
            && (r.ret == 0 ==> exists q | 0 <= q < |st.mounts| ::
                  && st.mounts[q].name == s.mount && st.mounts[q].serverFd == events[i].fd
                  && AddsClient(st, r.st, q, fd)
                  && r.st.net == Net.Send(st.net, fd, if v == "HTTP/1.0" || Contains(c.mount, "HTTP/1.0")
                                                      then "ICY 200 OK\r\n" else "HTTP/1.1 200 OK\r\n", true))
            && (r.ret != 0 ==> TurnedAway(st, fd, r, (if right then 1 else 0) !in fails))
  {
    hide Run, Contains, ParseData, GetRequest, ServerRequest, Credentials, Stored, RowFits, RequestLine,
         ClientAdmissible, ServerAdmissible, Step, Names, TablesHold, Net.Send;
    Delivery.RunStep(events, i + 1);
    ServerRequestOutcome(Run(events[..i]), s, events[i].fd, events[i].fails);
    StepOfAccepted(Run(events[..i]), events[i]);
    TablesAlwaysHold(events);
    var st := Run(events);
    var q :| 0 <= q < |st.mounts| && History.SameMount(st.mounts[q], MountOfServer(s, events[i].fd));
    ClientRequestDecision(st, q, s, c, v, fd, fails);
  }

  // ---------- credentials the caster cannot read ----------

  lemma CodeIs(n: nat, c: char)
    requires n < 64 && Base64.CodePoint(n) == c as int
    ensures Base64.Code(n) == c
  {
    Base64.TableAt(n);
  }

  lemma GetCodes()
    ensures Base64.Code(6) == 'G' && Base64.Code(4) == 'E' && Base64.Code(19) == 'T'
  {
    CodeIs(6, 'G');
    CodeIs(4, 'E');
    CodeIs(19, 'T');
  }

  /** Such credentials exist: user "a" with the password "F", the control character DC1
      and "0". Base64 makes "YTpGETA=" of them, and no client can log in with them. */
  lemma EncodedGet()
    ensures Contains(Credentials("a", "F" + [17 as char] + "0"), GET)
  {
    hide Base64.Code, Base64.Codes, Base64.CodePoint;
    var s: Base64.Bytes := Pair("a", "F" + [17 as char] + "0");
    assert |s| == 5 && s[0] == 'a' && s[1] == ':' && s[2] == 'F' && s[3] as int == 17 && s[4] == '0';
    Base64.CodesStep(s, 0);
    Base64.CodesStep(s, 3);
    GetCodes();
    var x := Credentials("a", "F" + [17 as char] + "0");
    assert x[3] == 'G' && x[3 + 1] == 'E' && x[3 + 2] == 'T';
    assert OccursAt(x, GET, 3);
  }

  lemma PostCodes()
    ensures Base64.Code(15) == 'P' && Base64.Code(14) == 'O' && Base64.Code(18) == 'S' && Base64.Code(19) == 'T'
  {
    CodeIs(15, 'P');
    CodeIs(14, 'O');
    CodeIs(18, 'S');
    CodeIs(19, 'T');
  }

  /** And for servers: user "a" with the password "O9$" and an e with acute accent in
      UTF-8. Base64 makes "YTpPOSTDqQ==" of them. */
  lemma EncodedPost()
    ensures Contains(Credentials("a", "O9$" + [0xC3 as char, 0xA9 as char]), POST)
  {
    hide Base64.Code, Base64.Codes, Base64.CodePoint;
    var p: Base64.Bytes := "O9$" + [0xC3 as char, 0xA9 as char];
    var s: Base64.Bytes := Pair("a", p);
    assert |s| == 7 && s[0] == 'a' && s[1] == ':' && s[2] == 'O' && s[3] == '9' && s[4] == '$' && s[5] as int == 0xC3;
    Base64.CodesStep(s, 0);
    Base64.CodesStep(s, 3);
    PostCodes();
    var x := Credentials("a", p);
    assert x[3] == 'P' && x[3 + 1] == 'O' && x[3 + 2] == 'S' && x[3 + 3] == 'T';
    assert OccursAt(x, POST, 3);
  }
}
