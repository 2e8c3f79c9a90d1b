/** Rows that do not fit in, as printed server requests bring them: a hang-up that erases the
    row of another server, and a row that stays behind. */
module StrayRows {
  import opened Text
  import opened Requests
  import opened Caster
  import opened Tables
  import opened Wire
  import opened Parsing
  import opened LoginDecision
  import opened Ownership
  import opened SourceTable
  import Net
  import Split

  /** A row of three sections. */
  function ShortRow(name: string): string {
    "STR;" + name + ";" + name
  }

  lemma NoSemicolon(s: string, div: string)
    requires ';' !in s && div == ";"
    ensures Split.CleanCut(s, div) && Find(s, div, 0) == Npos
  {
    forall j | 0 <= j < |s|
      ensures !OccursAt(s + div, div, j)
    {
      assert (s + div)[j + 0] == s[j] != div[0];
    }
    FindOne(s, ';', 0);
    FindCharSpec(s, ';', 0);
  }

  lemma OneField(s: string)
    requires Find(s, ";", 0) == Npos && s != ""
    ensures Split.Fields(s, ";") == [s] && Split.Kept([s], ";", false) == [s]
  {
    hide Find;
  }

  lemma ShortRowSections(name: string)
    requires name != "" && ';' !in name
    ensures Split.SplitResult(ShortRow(name) + CRLF, ";", false) == ["STR", name, name + CRLF]
  {
    hide Split.Fields, Split.Kept, Split.CleanCut, Find;
    var row, last := ShortRow(name) + CRLF, name + CRLF;
    NoSemicolon("STR", ";");
    NoSemicolon(name, ";");
    NoSemicolon(last, ";");
    Split.FieldsStep(name, last, ";");
    Split.FieldsStep("STR", name + ";" + last, ";");
    assert row == "STR" + ";" + (name + ";" + last);
    OneField(last);
    Split.KeptCons("STR", [name] + [last], ";", false);
    Split.KeptCons(name, [last], ";", false);
  }

  lemma KeyAtStart(name: string, rest: string)
    ensures Contains(RowKey(name) + rest, RowKey(name))
  {
    hide RowKey;
    PrefixOccurs(RowKey(name) + rest, RowKey(name));
    ContainsAt(RowKey(name) + rest, RowKey(name), 0);
  }

  /** It has too few sections to be checked, so that it passes for every mountpoint. */
  lemma ShortRowFits(name: string, mount: string)
    requires name != "" && ';' !in name
    ensures RowFits(ShortRow(name) + CRLF, mount)
    ensures Contains(ShortRow(name) + CRLF, RowKey(name))
    ensures !RowShape(ShortRow(name) + CRLF)
  {
    hide Contains, Split.SplitResult, OneStr;
    ShortRowSections(name);
    KeyAtStart(name, name + CRLF);
    assert ShortRow(name) + CRLF == RowKey(name) + (name + CRLF);
  }

  predicate Registrable(s: ServerConfig) {
    ServerAdmissible(s) && Acceptable(s)
  }

  /** A new connection that sends its request is registered. */
  lemma Registered(st: State, s: ServerConfig, fd: int)
    requires Registrable(s) && s.mount !in Names(st.mounts)
    ensures var st' := Step(Step(st, Accept(fd)), Recv(fd, ServerRequest(s), {}));
            && st'.mounts == st.mounts + [MountOfServer(s, fd)] && st'.rows == st.rows + [s.row + CRLF]
            && st'.net.conn == Net.Accept(st.net, fd).conn
  {
    hide ParseData, Contains, ServerRequest, ServerAdmissible, Credentials, RowFits, Stored, Names;
    var st1 := Step(st, Accept(fd));
    ServerRequestOutcome(st1, s, fd, {});
  }

  function Comes(s: ServerConfig, fd: int): seq<Event> {
    [Accept(fd), Recv(fd, ServerRequest(s), {})]
  }

  lemma RunOfTwoMore(es: seq<Event>, e0: Event, e1: Event)
    ensures Run(es + [e0, e1]) == Step(Step(Run(es), e0), e1)
  {
    hide Step;
    var all := es + [e0, e1];
    assert all[..|all| - 1] == es + [e0] && (es + [e0])[..|es|] == es;
  }

  lemma RunOfOneMore(es: seq<Event>, e: Event)
    ensures Run(es + [e]) == Step(Run(es), e)
  {
    assert (es + [e])[..|es|] == es;
  }

  lemma OneMoreBehaves(es: seq<Event>, e: Event)
    requires WellBehaved(es) && Possible(Run(es), e) && Behaves(Run(es), e)
    ensures WellBehaved(es + [e])
  {
    hide Possible, Behaves, Run;
    assert (es + [e])[..|es|] == es;
  }

  lemma ComingBehaves(es: seq<Event>, s: ServerConfig, fd: int)
    requires WellBehaved(es) && fd !in Run(es).net.conn && !HasRole(Run(es), fd)
    ensures WellBehaved(es + Comes(s, fd))
  {
    hide Run, Roles, WellBehaved, HasRequest, HasGga, Credentials, Host;
    OneMoreBehaves(es, Accept(fd));
    RunOfOneMore(es, Accept(fd));
    var st := Run(es + [Accept(fd)]);
    assert Possible(st, Recv(fd, ServerRequest(s), {})) && Behaves(st, Recv(fd, ServerRequest(s), {}));
    OneMoreBehaves(es + [Accept(fd)], Recv(fd, ServerRequest(s), {}));
    assert es + [Accept(fd)] + [Recv(fd, ServerRequest(s), {})] == es + Comes(s, fd);
  }

  lemma RunOfOne(s: ServerConfig, fd: int)
    requires Registrable(s)
    ensures var st := Run(Comes(s, fd));
            st.mounts == [MountOfServer(s, fd)] && st.rows == [s.row + CRLF] && st.net.conn.Keys == {fd}
    ensures WellBehaved(Comes(s, fd))
  {
    hide Step, Registrable, ServerRequest, Stored;
    ComingBehaves([], s, fd);
    RunOfTwoMore([], Accept(fd), Recv(fd, ServerRequest(s), {}));
    assert [] + Comes(s, fd) == Comes(s, fd);
    Registered(INIT, s, fd);
  }

  lemma OneMountRole(st: State, fd: int)
    requires |st.mounts| > 0 && st.mounts[0].serverFd == fd
    ensures FindRole(st.mounts, fd, 0) == At(0)
  {
  }

  /** A server whose row is empty, up to the CRLF of its line, leaves that row behind. */
  lemma EmptyRowStays(s: ServerConfig)
    requires Registrable(s) && s.row == ""
    ensures var st := Run(Comes(s, 1) + [Hangup(1)]); st.mounts == [] && st.rows == [CRLF]
    ensures WellBehaved(Comes(s, 1) + [Hangup(1)])
  {
    hide Run, WellBehaved, Registrable, ServerRequest, Stored, FindRole, Contains;
    RunOfOne(s, 1);
    var st := Run(Comes(s, 1));
    RunOfOneMore(Comes(s, 1), Hangup(1));
    OneMoreBehaves(Comes(s, 1), Hangup(1));
    OneMountRole(st, 1);
    NotContainsChar(CRLF, RowKey(s.mount), 0);
    assert s.row + CRLF == CRLF;
    HangupErases(st, 1, 0);
  }

  lemma OneMountRoles(st: State)
    requires |st.mounts| == 1 && st.mounts[0].serverFd == 1 && st.mounts[0].clients == []
    ensures !HasRole(st, 2)
  {
    RolesOfOne(st.mounts[0]);
    assert st.mounts == [st.mounts[0]];
  }

  lemma NameNotEmpty(s: ServerConfig)
    requires Registrable(s)
    ensures s.mount != ""
  {
  }

  lemma SecondMountRole(st: State)
    requires |st.mounts| == 2 && st.mounts[1].serverFd == 2
    requires st.mounts[0].serverFd == 1 && st.mounts[0].clients == []
    ensures FindRole(st.mounts, 2, 0) == At(1)
  {
  }

  lemma HangupStep(st: State, fd: int)
    ensures Step(st, Hangup(fd)) == Disconnect(st, fd)
  {
  }

  /** The server of `other` registers first, with a short row that names `own`'s mountpoint:
      when the server of `own` leaves, it takes that row along, and its own row stays. */
  lemma WrongRowErased(other: ServerConfig, own: ServerConfig)
    requires Registrable(other) && Registrable(own) && other.mount != own.mount
    requires ';' !in own.mount && other.row == ShortRow(own.mount)
    ensures var st := Run(Comes(other, 1) + Comes(own, 2) + [Hangup(2)]);
            st.mounts == [MountOfServer(other, 1)] && st.rows == [own.row + CRLF]
    ensures WellBehaved(Comes(other, 1) + Comes(own, 2) + [Hangup(2)])
  {
    hide Run, WellBehaved, HasRole, Step, Registrable, ServerRequest, Stored, FindRole, Contains,
         RowKey, ShortRow, RowFits;
    RunOfOne(other, 1);
    var st1 := Run(Comes(other, 1));
    RunOfTwoMore(Comes(other, 1), Accept(2), Recv(2, ServerRequest(own), {}));
    Registered(st1, own, 2);
    OneMountRoles(st1);
    ComingBehaves(Comes(other, 1), own, 2);
    var st2 := Run(Comes(other, 1) + Comes(own, 2));
    RunOfOneMore(Comes(other, 1) + Comes(own, 2), Hangup(2));
    OneMoreBehaves(Comes(other, 1) + Comes(own, 2), Hangup(2));
    assert own.mount != "" by { NameNotEmpty(own); }
    ShortRowFits(own.mount, other.mount);
    assert FirstMatch(st2.rows, RowKey(own.mount), 0);
    SecondMountRole(st2);
    HangupErases(st2, 2, 1);
    HangupStep(st2, 2);
  }

  // ---------- two servers ----------

  function Sample(mount: string, row: string): ServerConfig {
    ServerConfig(mount, "h", 1, "a", "u", "p", row)
  }

  lemma PlainValue(v: string)
    requires IsLine(v) && forall i | 0 <= i < |v| :: v[i] !in "GPAN"
    ensures IsHeaderValue(v)
  {
    hide Contains;
    NotContainsChar(v, "GET", 0);
    NotContainsChar(v, "POST", 0);
    NotContainsChar(v, "Authorization: Basic", 0);
    NotContainsChar(v, "Ntrip-STR: ", 0);
  }

  lemma SampleHost(mount: string, row: string)
    ensures Host(Sample(mount, row)) == "h:1"
  {
    assert Decimal(1) == "1";
  }

  lemma FirstCode()
    ensures Base64.Code(29) == 'd'
  {
    CodeIs(29, 'd');
  }

  lemma SampleCredentials()
    ensures |Credentials("u", "p")| == 4 && !Contains(Credentials("u", "p"), POST)
  {
    hide Base64.Code, Base64.Codes, Base64.CodePoint;
    var s: Base64.Bytes := Pair("u", "p");
    assert |s| == 3 && s[0] == 'u' && s[1] == ':' && s[2] == 'p';
    Base64.EncodedLength(s);
    Base64.CodesStep(s, 0);
    FirstCode();
    var x := Credentials("u", "p");
    assert x[0] == 'd';
    forall i | 0 <= i <= |x|
      ensures !OccursAt(x, POST, i)
    {
      assert i == 0 ==> x[0 + 0] != POST[0];
    }
  }

  lemma SampleValues()
    ensures IsHeaderValue("h:1") && IsHeaderValue("a")
  {
    hide IsHeaderValue;
    PlainValue("h:1");
    PlainValue("a");
  }

  lemma SampleFits(mount: string, row: string)
    requires |mount| == 1 && IsMountName(mount)
    requires IsLine(row) && |row| < 100 && forall i | 0 <= i < |row| :: row[i] !in "PA"
    ensures ServerAdmissible(Sample(mount, row))
  {
    hide Contains, IsLine, Credentials, Host;
    SampleHost(mount, row);
    SampleCredentials();
    SampleValues();
    NotContainsChar(row, "POST", 0);
    NotContainsChar(row, "Authorization: Basic", 0);
  }

  lemma BlankRowFits(mount: string)
    ensures RowFits("" + CRLF, mount)
  {
    NoSemicolon(CRLF, ";");
    OneField(CRLF);
    assert "" + CRLF == CRLF;
  }

  lemma SamplesAreRegistrable()
    ensures Registrable(Sample("N", ShortRow("M"))) && Registrable(Sample("M", ""))
  {
    hide Credentials, Contains, ServerAdmissible, RowFits;
    SampleCredentials();
    SampleFits("N", ShortRow("M"));
    SampleFits("M", "");
    ShortRowFits("M", "N");
    BlankRowFits("M");
  }

  lemma SampleNames()
    ensures var other, own := Sample("N", ShortRow("M")), Sample("M", "");
            && other.mount != own.mount && ';' !in own.mount && own.mount == "M"
            && other.row == ShortRow(own.mount) && own.row + CRLF == CRLF
  {
  }

  /** Two servers with one fault each: N names M in its row, M has an empty one. When M's
      server leaves, N is without a row and M's row is still there. */
  lemma NeitherRowFollows()
    ensures var other, own := Sample("N", ShortRow("M")), Sample("M", "");
            var events := Comes(other, 1) + Comes(own, 2) + [Hangup(2)];
            && WellBehaved(events)
            && Run(events).mounts == [MountOfServer(other, 1)] && Run(events).rows == [CRLF]
  {
    hide *;
    SamplesAreRegistrable();
    SampleNames();
    WrongRowErased(Sample("N", ShortRow("M")), Sample("M", ""));
  }
}
