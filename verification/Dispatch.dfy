/** Which payload is taken for what, by its text alone. */
module Dispatch {
  import opened Text
  import opened Caster
  import Gga
  import Net

  lemma FirstServer(st: State, fd: int, q: nat)
    requires q < |st.mounts| && st.mounts[q].serverFd == fd
    requires forall k | 0 <= k < q :: st.mounts[k].serverFd != fd
    ensures FindServer(st.mounts, fd, 0) == At(q)
  {
    hide FindServer;
    FindServerFirst(st.mounts, fd, 0);
  }

  /** A payload without a request in it goes to the clients of the first mount its sender
      serves. */
  lemma ServerPayload(st: State, fd: int, data: string, fails: set<nat>, q: nat)
    requires !Contains(data, "GET /") && !Contains(data, "POST /")
    requires q < |st.mounts| && st.mounts[q].serverFd == fd
    requires forall k | 0 <= k < q :: st.mounts[k].serverFd != fd
    ensures ParseData(st, fd, data, fails) ==
              Outcome(st.(net := SendAll(st.net, st.mounts[q].clients, 0, data, fails)), 0)
  {
    hide Contains, SendAll, FindServer, ServerConnect, ClientConnect, Lines;
    FirstServer(st, fd, q);
  }

  /** From anyone else it is let pass if it is a GGA sentence, and refused if not. */
  lemma OtherPayload(st: State, fd: int, data: string, fails: set<nat>)
    requires !Contains(data, "GET /") && !Contains(data, "POST /")
    requires forall q | 0 <= q < |st.mounts| :: st.mounts[q].serverFd != fd
    ensures ParseData(st, fd, data, fails) ==
              Outcome(st, if Contains(data, "$GPGGA,") || Contains(data, "$GNGGA,") then 0 else -1)
  {
    hide Contains, SendAll, FindServer, ServerConnect, ClientConnect, Lines;
    assert FindServer(st.mounts, fd, 0).Npos?;
  }

  /** A request text that names neither version, or HTTP/1.0 without a GET, is refused
      without an answer. */
  lemma OtherRequest(st: State, fd: int, data: string, fails: set<nat>)
    requires Contains(data, "GET /") || Contains(data, "POST /")
    requires !Contains(data, "HTTP/1.1") && (Contains(data, "GET /") ==> !Contains(data, "HTTP/1.0"))
    ensures ParseData(st, fd, data, fails) == Outcome(st, -1)
  {
    hide Contains, ServerConnect, ClientConnect, Forward, Lines;
  }

  /** A text with both requests is a POST request. */
  lemma PostComesFirst(st: State, fd: int, data: string, fails: set<nat>)
    requires Contains(data, "POST /") && Contains(data, "HTTP/1.1")
    ensures ParseData(st, fd, data, fails) == ServerConnect(st, Lines(data), fd, fails)
  {
    hide Contains, ServerConnect, Lines;
  }

  lemma HexIsNoBlank(n: nat)
    requires n < 16
    ensures Gga.HexDigit(n) != ' '
  {
    Gga.HexDigitValue(n);
  }

  lemma SentenceChars(body: string)
    requires Gga.IsBody(body) && ' ' !in body
    ensures forall i | 0 <= i < |Gga.Sentence(body)| :: Gga.Sentence(body)[i] != ' '
    ensures Gga.Sentence(body) == body + Gga.Sentence(body)[|body|..]
  {
    hide Gga.Xor, Gga.HexDigit;
    var n := Gga.Checksum(body);
    HexIsNoBlank(n / 16);
    HexIsNoBlank(n % 16);
  }

  /** The position that this library's client reports, made from a body without blanks, never
      costs it its connection: in any state the caster lets it pass and changes nothing. */
  lemma ReportIsLetPass(st: State, fd: int, body: string, fails: set<nat>)
    requires Gga.IsBody(body) && StartsWith(body, "$GPGGA,") && ' ' !in body
    requires forall q | 0 <= q < |st.mounts| :: st.mounts[q].serverFd != fd
    ensures Step(st, Recv(fd, Gga.Sentence(body), fails)) == st
  {
    hide Contains, Gga.Sentence, Gga.IsBody, ParseData;
    var text := Gga.Sentence(body);
    SentenceChars(body);
    NotContainsChar(text, "GET /", 3);
    NotContainsChar(text, "POST /", 4);
    assert OccursAt(body, "$GPGGA,", 0) by {
      assert forall k | 0 <= k < 7 :: body[k] == body[..7][k];
    }
    ContainsAt(body, "$GPGGA,", 0);
    ContainsLeft(body, text[|body|..], "$GPGGA,");
    OtherPayload(st, fd, text, fails);
  }
}
