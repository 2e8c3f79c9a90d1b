/** The requests that client and server print, line by line. */
module Wire {
  import opened Text
  import Base64
  import Split

  datatype ClientConfig = ClientConfig(mount: string, agent: string, user: Base64.Bytes, password: Base64.Bytes)

  datatype ServerConfig = ServerConfig(mount: string, ip: string, port: nat, agent: string,
                                       user: Base64.Bytes, password: Base64.Bytes, row: string)

  function Decimal(n: nat): string {
    (if n < 10 then "" else Decimal(n / 10)) + ["0123456789"[n % 10]]
  }

  /** The number that a text of digits stands for. */
  function ValueOf(digits: string): int {
    if digits == "" then 0
    else ValueOf(digits[..|digits| - 1]) * 10 + digits[|digits| - 1] as int - '0' as int
  }

  lemma ValueOfMore(digits: string, c: char)
    ensures ValueOf(digits + [c]) == ValueOf(digits) * 10 + c as int - '0' as int
  {
    assert (digits + [c])[..|digits|] == digits;
  }

  lemma LastDigit(n: nat)
    ensures var c := "0123456789"[n % 10]; '0' <= c <= '9' && c as int == '0' as int + n % 10
  {
  }

  lemma NoDigits()
    ensures ValueOf("") == 0
  {
  }

  lemma {:induction false} DecimalIs(n: nat)
    ensures ValueOf(Decimal(n)) == n && Decimal(n) != "" && (n > 0 ==> Decimal(n)[0] != '0')
    ensures forall k | 0 <= k < |Decimal(n)| :: '0' <= Decimal(n)[k] <= '9'
  {
    hide ValueOf;
    var front, c := if n < 10 then "" else Decimal(n / 10), "0123456789"[n % 10];
    assert Decimal(n) == front + [c];
    LastDigit(n);
    ValueOfMore(front, c);
    if n < 10 {
      assert ValueOf("") == 0 by { NoDigits(); }
    } else {
      hide Decimal;
      DecimalIs(n / 10);
    }
  }

  function Pair(user: Base64.Bytes, password: Base64.Bytes): (s: Base64.Bytes)
    ensures s == user + ":" + password
  {
    user + ":" + password
  }

  function Credentials(user: Base64.Bytes, password: Base64.Bytes): string {
    Base64.Rfc4648(Pair(user, password))
  }

  function Line(text: string): string {
    text + CRLF
  }

  /** A client's request in either version of the protocol. */
  function GetRequest(c: ClientConfig, v: string): string {
    Line("GET /" + c.mount + " " + v) +
    Line("User-Agent: " + c.agent) +
    Line("Authorization: Basic " + Credentials(c.user, c.password)) +
    CRLF
  }

  /** The one that this library's client prints. */
  function ClientRequest(c: ClientConfig): string {
    Line("GET /" + c.mount + " HTTP/1.1") +
    Line("User-Agent: " + c.agent) +
    Line("Authorization: Basic " + Credentials(c.user, c.password)) +
    CRLF
  }

  lemma ClientPrintsVersionOne(c: ClientConfig)
    ensures ClientRequest(c) == GetRequest(c, "HTTP/1.1")
  {
    hide Credentials, Line;
    assert "GET /" + c.mount + " HTTP/1.1" == "GET /" + c.mount + " " + "HTTP/1.1";
  }

  function Host(s: ServerConfig): string {
    s.ip + ":" + Decimal(s.port)
  }

  function ServerRequest(s: ServerConfig): string {
    Line("POST /" + s.mount + " HTTP/1.1") +
    Line("Host: " + Host(s)) +
    Line("Ntrip-Version: Ntrip/2.0") +
    Line("User-Agent: " + s.agent) +
    Line("Authorization: Basic " + Credentials(s.user, s.password)) +
    Line("Ntrip-STR: " + s.row) +
    Line("Connection: close") +
    Line("Transfer-Encoding: chunked")
  }

  // ---------- admissible fields ----------

  const BUFFER_SIZE := 4096

  predicate IsLine(s: string) {
    forall i | 0 <= i < |s| :: s[i] != '\r' && s[i] != '\n' && s[i] as int != 0
  }

  predicate IsMountName(m: string) {
    m != "" && IsLine(m) && ' ' !in m
  }

  /** The value of a header the caster does not look into. */
  predicate IsHeaderValue(v: string) {
    IsLine(v) && !Contains(v, "GET") && !Contains(v, "POST")
    && !Contains(v, "Authorization: Basic") && !Contains(v, "Ntrip-STR: ")
  }

  predicate IsUserPassword(user: string, password: string) {
    ':' !in user && 0 as char !in user && 0 as char !in password
  }

  predicate IsVersion(v: string) {
    v == "HTTP/1.0" || v == "HTTP/1.1"
  }

  predicate ClientAdmissible(c: ClientConfig) {
    && IsMountName(c.mount) && IsHeaderValue(c.agent) && IsUserPassword(c.user, c.password)
    && |ClientRequest(c)| < BUFFER_SIZE - 1
  }

  /** A mountpoint that ends in "Ntrip-STR:" would make the request line look like a row. */
  predicate ServerAdmissible(s: ServerConfig) {
    && IsMountName(s.mount) && !EndsWith(s.mount, "Ntrip-STR:")
    && IsHeaderValue(Host(s)) && IsHeaderValue(s.agent) && IsUserPassword(s.user, s.password)
    && IsLine(s.row) && !Contains(s.row, "POST") && !Contains(s.row, "Authorization: Basic")
    && |ServerRequest(s)| < BUFFER_SIZE - 1
  }

  // ---------- the printed lines ----------

  function RequestLine(verb: string, mount: string, v: string): string {
    verb + mount + " " + v
  }

  function AuthLine(user: Base64.Bytes, password: Base64.Bytes): string {
    "Authorization: Basic " + Credentials(user, password)
  }

  function ClientLines(c: ClientConfig, v: string): seq<string> {
    [RequestLine("GET /", c.mount, v), "User-Agent: " + c.agent, AuthLine(c.user, c.password)]
  }

  function ServerLines(s: ServerConfig): seq<string> {
    [RequestLine("POST /", s.mount, "HTTP/1.1"), "Host: " + Host(s), "Ntrip-Version: Ntrip/2.0",
     "User-Agent: " + s.agent, AuthLine(s.user, s.password), "Ntrip-STR: " + s.row,
     "Connection: close", "Transfer-Encoding: chunked"]
  }

  lemma AlphabetChar(c: char)
    requires Base64.InAlphabet(c)
    ensures c != ' ' && c != '\r' && c != '\n' && c as int != 0
  {
    var n :| 0 <= n < |Base64.TABLE| && Base64.TABLE[n] == c;
    assert |Base64.TABLE| == 64;
    Base64.TableAt(n);
  }

  lemma EncodedChar(s: Base64.Bytes, i: nat)
    requires i < |Base64.Rfc4648(s)|
    ensures Base64.Rfc4648(s)[i] == '=' || Base64.InAlphabet(Base64.Rfc4648(s)[i])
    ensures var c := Base64.Rfc4648(s)[i]; c != ' ' && c != '\r' && c != '\n' && c as int != 0
  {
    hide Base64.Codes;
    Base64.CodesAlphabet(s, 0);
    if i < |Base64.Codes(s, 0)| {
      AlphabetChar(Base64.Codes(s, 0)[i]);
    }
  }

  lemma CredentialChars(user: Base64.Bytes, password: Base64.Bytes)
    ensures forall i | 0 <= i < |Credentials(user, password)| ::
              var c := Credentials(user, password)[i];
              c != ' ' && c != '\r' && c != '\n' && c as int != 0
  {
    hide Base64.Codes, Base64.Rfc4648;
    var s := Pair(user, password);
    Base64.CodesAlphabet(s, 0);
    forall i | 0 <= i < |Credentials(user, password)|
      ensures var c := Credentials(user, password)[i];
              c != ' ' && c != '\r' && c != '\n' && c as int != 0
    {
      EncodedChar(s, i);
    }
  }

  lemma {:induction false} LinesTextSnoc(lines: seq<string>, line: string)
    ensures Split.LinesText(lines + [line]) == Split.LinesText(lines) + Line(line)
  {
    if lines == [] {
      assert lines + [line] == [line] && [line][1..] == [];
    } else {
      LinesTextSnoc(lines[1..], line);
      assert (lines + [line])[1..] == lines[1..] + [line];
    }
  }

  lemma LinesTextUpTo(lines: seq<string>, n: nat)
    requires n < |lines|
    ensures Split.LinesText(lines[..n + 1]) == Split.LinesText(lines[..n]) + Line(lines[n])
  {
    LinesTextSnoc(lines[..n], lines[n]);
    assert lines[..n] + [lines[n]] == lines[..n + 1];
  }

  lemma NoLinesText(lines: seq<string>)
    ensures forall x {:trigger Line(x)} :: Split.LinesText(lines[..0]) + Line(x) == Line(x)
    ensures lines[..|lines|] == lines
  {
  }

  lemma ClientText(c: ClientConfig, v: string)
    ensures GetRequest(c, v) == Split.LinesText(ClientLines(c, v)) + CRLF
  {
    hide Credentials, Line, Split.LinesText;
    var l := ClientLines(c, v);
    NoLinesText(l);
    LinesTextUpTo(l, 0);
    LinesTextUpTo(l, 1);
    LinesTextUpTo(l, 2);
  }

  lemma ServerText(s: ServerConfig)
    ensures ServerRequest(s) == Split.LinesText(ServerLines(s))
  {
    hide Credentials, Host, Line, Split.LinesText;
    var l := ServerLines(s);
    assert l[0] == "POST /" + s.mount + " HTTP/1.1";
    NoLinesText(l);
    LinesTextUpTo(l, 0);
    LinesTextUpTo(l, 1);
    LinesTextUpTo(l, 2);
    LinesTextUpTo(l, 3);
    LinesTextUpTo(l, 4);
    LinesTextUpTo(l, 5);
    LinesTextUpTo(l, 6);
    LinesTextUpTo(l, 7);
  }

  lemma IsLineConcat(a: string, b: string)
    requires IsLine(a) && IsLine(b)
    ensures IsLine(a + b)
  {
  }

  lemma HeaderTexts()
    ensures IsLine("GET /") && IsLine(" ") && IsLine("POST /") && IsLine(" HTTP/1.1")
    ensures IsLine("Host: ") && IsLine("User-Agent: ")
    ensures IsLine("Authorization: Basic ") && IsLine("Ntrip-STR: ")
  {
  }

  lemma FixedLines()
    ensures IsLine("Ntrip-Version: Ntrip/2.0") && IsLine("Connection: close")
    ensures IsLine("Transfer-Encoding: chunked")
  {
  }

  lemma ClientLinesAreLines(c: ClientConfig, v: string)
    requires ClientAdmissible(c) && IsVersion(v)
    ensures forall i | 0 <= i < 3 :: ClientLines(c, v)[i] != "" && IsLine(ClientLines(c, v)[i])
  {
    hide Credentials, ClientRequest, Contains;
    CredentialChars(c.user, c.password);
    assert IsLine(Credentials(c.user, c.password));
    assert IsLine(c.mount) && IsLine(c.agent) && IsLine(v);
    hide IsLine, ClientAdmissible, IsUserPassword, IsMountName, IsHeaderValue;
    HeaderTexts();
    IsLineConcat("GET /", c.mount);
    IsLineConcat("GET /" + c.mount, " ");
    IsLineConcat("GET /" + c.mount + " ", v);
    IsLineConcat("User-Agent: ", c.agent);
    IsLineConcat("Authorization: Basic ", Credentials(c.user, c.password));
  }

  lemma ServerLinesAreLines(s: ServerConfig)
    requires ServerAdmissible(s)
    ensures forall i | 0 <= i < 8 :: ServerLines(s)[i] != "" && IsLine(ServerLines(s)[i])
  {
    hide Credentials, ServerRequest, Contains, Host;
    CredentialChars(s.user, s.password);
    assert IsLine(Credentials(s.user, s.password));
    assert IsLine(s.mount) && IsLine(Host(s)) && IsLine(s.agent) && IsLine(s.row);
    hide IsLine, ServerAdmissible, IsUserPassword, IsMountName, IsHeaderValue;
    HeaderTexts();
    FixedLines();
    IsLineConcat("POST /", s.mount);
    IsLineConcat("POST /" + s.mount, " HTTP/1.1");
    IsLineConcat("Host: ", Host(s));
    IsLineConcat("User-Agent: ", s.agent);
    IsLineConcat("Authorization: Basic ", Credentials(s.user, s.password));
    IsLineConcat("Ntrip-STR: ", s.row);
  }

  lemma LineHasNoCrlf(line: string)
    requires IsLine(line)
    ensures !Contains(line, CRLF)
  {
    NotContainsChar(line, CRLF, 0);
  }

  lemma ClientCount(c: ClientConfig, v: string)
    ensures |ClientLines(c, v)| == 3
  {
  }

  /** The caster's lines of a printed request are the printed lines, each with its CRLF. */
  lemma ClientSplits(c: ClientConfig, v: string)
    requires ClientAdmissible(c) && IsVersion(v)
    ensures Split.SplitResult(GetRequest(c, v), CRLF, true) == Split.WithCrlf(ClientLines(c, v))
  {
    hide Contains, GetRequest, ClientAdmissible, IsLine, Split.SplitResult, Split.LinesText, ClientLines;
    ClientText(c, v);
    ClientLinesAreLines(c, v);
    assert |ClientLines(c, v)| == 3 by { ClientCount(c, v); }
    forall i | 0 <= i < 3
      ensures !Contains(ClientLines(c, v)[i], CRLF)
    {
      LineHasNoCrlf(ClientLines(c, v)[i]);
    }
    Split.SplitLines(ClientLines(c, v), true);
  }

  lemma ServerCount(s: ServerConfig)
    ensures |ServerLines(s)| == 8
  {
  }

  lemma ServerSplits(s: ServerConfig)
    requires ServerAdmissible(s)
    ensures Split.SplitResult(ServerRequest(s), CRLF, true) == Split.WithCrlf(ServerLines(s))
  {
    hide Contains, ServerRequest, ServerAdmissible, IsLine, Split.SplitResult, Split.LinesText, ServerLines;
    ServerText(s);
    ServerLinesAreLines(s);
    assert |ServerLines(s)| == 8 by { ServerCount(s); }
    forall i | 0 <= i < 8
      ensures !Contains(ServerLines(s)[i], CRLF)
    {
      LineHasNoCrlf(ServerLines(s)[i]);
    }
    Split.SplitLines(ServerLines(s), false);
    assert Split.LinesText(ServerLines(s)) + "" == Split.LinesText(ServerLines(s));
  }

  lemma {:induction false} WithCrlfLength(lines: seq<string>)
    ensures |Split.WithCrlf(lines)| == |lines|
  {
    if lines != [] {
      WithCrlfLength(lines[1..]);
    }
  }

  lemma {:induction false} WithCrlfAt(lines: seq<string>, i: nat)
    requires i < |lines|
    ensures |Split.WithCrlf(lines)| == |lines|
    ensures Split.WithCrlf(lines)[i] == lines[i] + CRLF
  {
    if i > 0 {
      WithCrlfAt(lines[1..], i - 1);
    } else {
      WithCrlfLength(lines);
    }
  }
}
