/** What the caster makes of the printed lines: which branch each line takes, and the
    mountpoint, the credentials and the row it reads from them. */
module Parsing {
  import opened Text
  import opened Requests
  import opened Wire
  import Base64

  const POST := "POST"
  const GET := "GET"
  const AUTH := "Authorization: Basic"
  const ROW := "Ntrip-STR: "

  // ---------- texts without a pattern ----------

  /** No way for `pat` to start in `a` and run over its end. */
  ghost predicate NoSeam(a: string, pat: string) {
    a != "" && forall j | 0 <= j < |pat| - 1 && j < |a| :: pat[j] != a[|a| - 1]
  }

  lemma LastOfEnd(a: string, pat: string, k: nat)
    requires 0 < k < |pat| && EndsWith(a, pat[..k])
    ensures k <= |a| && a[|a| - 1] == pat[k - 1]
  {
    assert a[|a| - k..][k - 1] == pat[..k][k - 1];
  }

  lemma SeamIsFree(a: string, pat: string, k: nat)
    requires NoSeam(a, pat) && 0 < k < |pat|
    ensures !EndsWith(a, pat[..k])
  {
    if EndsWith(a, pat[..k]) {
      LastOfEnd(a, pat, k);
    }
  }

  lemma LacksAfter(prefix: string, v: string, pat: string)
    requires !Contains(prefix, pat) && !Contains(v, pat) && NoSeam(prefix, pat)
    ensures !Contains(prefix + v, pat)
  {
    hide Contains, EndsWith, NoSeam;
    forall k | 0 < k < |pat|
      ensures !EndsWith(prefix, pat[..k])
    {
      SeamIsFree(prefix, pat, k);
    }
    NotContainsConcat(prefix, v, pat);
  }

  lemma CrlfStarts(pat: string, k: nat)
    requires k < |pat| && pat[k] != '\r'
    ensures !StartsWith(CRLF, pat[k..])
  {
    assert pat[k..][0] == pat[k];
  }

  lemma CrlfLacks(pat: string)
    requires pat != "" && IsLine(pat)
    ensures !Contains(CRLF, pat)
  {
    NotContainsChar(CRLF, pat, 0);
  }

  lemma LacksWithCrlf(line: string, pat: string)
    requires !Contains(line, pat) && pat != "" && IsLine(pat)
    ensures !Contains(line + CRLF, pat)
  {
    hide Contains, EndsWith, StartsWith;
    forall k | 0 < k < |pat|
      ensures !StartsWith(CRLF, pat[k..])
    {
      CrlfStarts(pat, k);
    }
    CrlfLacks(pat);
    NotContainsConcat(line, CRLF, pat);
  }

  lemma PatternsAreLines()
    ensures IsLine(POST) && IsLine(GET) && IsLine(AUTH) && IsLine(ROW)
  {
  }

  /** A header line with a short name: neither a request line nor credentials nor a row,
      unless its value is. */
  lemma HeaderLacks(name: string, v: string, pat: string, k: nat)
    requires name != "" && name[|name| - 1] == ' '
    requires pat != "" && IsLine(pat) && forall j | 0 <= j < |pat| - 1 && j < |name| :: pat[j] != ' '
    requires k < |pat| && forall i | 0 <= i < |name| :: name[i] != pat[k]
    requires !Contains(v, pat)
    ensures !Contains(name + v + CRLF, pat)
  {
    hide Contains;
    NotContainsChar(name, pat, k);
    LacksAfter(name, v, pat);
    LacksWithCrlf(name + v, pat);
  }

  lemma AgentLine(v: string)
    requires IsHeaderValue(v)
    ensures !Contains("User-Agent: " + v + CRLF, POST) && !Contains("User-Agent: " + v + CRLF, GET)
    ensures !Contains("User-Agent: " + v + CRLF, AUTH) && !Contains("User-Agent: " + v + CRLF, ROW)
  {
    hide Contains, IsLine;
    PatternsAreLines();
    HeaderLacks("User-Agent: ", v, POST, 0);
    HeaderLacks("User-Agent: ", v, GET, 0);
    HeaderLacks("User-Agent: ", v, AUTH, 7);
    HeaderLacks("User-Agent: ", v, ROW, 0);
  }

  lemma HostLine(v: string)
    requires IsHeaderValue(v)
    ensures !Contains("Host: " + v + CRLF, POST) && !Contains("Host: " + v + CRLF, AUTH)
    ensures !Contains("Host: " + v + CRLF, ROW)
  {
    hide Contains, IsLine;
    PatternsAreLines();
    HeaderLacks("Host: ", v, POST, 0);
    HeaderLacks("Host: ", v, AUTH, 0);
    HeaderLacks("Host: ", v, ROW, 0);
  }

  lemma StartOccurs(pat: string, rest: string)
    ensures Contains(pat + rest, pat)
  {
    assert OccursAt(pat + rest, pat, 0);
  }

  lemma RowLine(v: string)
    requires !Contains(v, POST) && !Contains(v, AUTH)
    ensures !Contains("Ntrip-STR: " + v + CRLF, POST) && !Contains("Ntrip-STR: " + v + CRLF, AUTH)
    ensures Contains("Ntrip-STR: " + v + CRLF, ROW)
  {
    hide IsLine;
    PatternsAreLines();
    HeaderLacks("Ntrip-STR: ", v, POST, 0);
    HeaderLacks("Ntrip-STR: ", v, AUTH, 0);
    StartOccurs("Ntrip-STR: ", v + CRLF);
    assert "Ntrip-STR: " + v + CRLF == "Ntrip-STR: " + (v + CRLF);
  }

  lemma VersionLine()
    ensures var line := "Ntrip-Version: Ntrip/2.0" + CRLF;
            !Contains(line, POST) && !Contains(line, AUTH) && !Contains(line, ROW)
  {
    hide Contains;
    var line := "Ntrip-Version: Ntrip/2.0" + CRLF;
    NotContainsChar(line, POST, 0);
    NotContainsChar(line, AUTH, 0);
    NotContainsChar(line, ROW, 6);
  }

  lemma ConnectionLine()
    ensures var line := "Connection: close" + CRLF;
            !Contains(line, POST) && !Contains(line, AUTH) && !Contains(line, ROW)
  {
    hide Contains;
    var line := "Connection: close" + CRLF;
    NotContainsChar(line, POST, 0);
    NotContainsChar(line, AUTH, 0);
    NotContainsChar(line, ROW, 0);
  }

  lemma EncodingLine()
    ensures var line := "Transfer-Encoding: chunked" + CRLF;
            !Contains(line, POST) && !Contains(line, AUTH) && !Contains(line, ROW)
  {
    hide Contains;
    var line := "Transfer-Encoding: chunked" + CRLF;
    NotContainsChar(line, POST, 0);
    NotContainsChar(line, AUTH, 0);
    NotContainsChar(line, ROW, 0);
  }

  // ---------- the request line ----------

  lemma MountOfRequestLine(verb: string, m: string, v: string)
    requires verb == "GET /" || verb == "POST /"
    requires IsMountName(m)
    ensures MountOf(RequestLine(verb, m, v) + CRLF) == Some(m)
  {
    hide FindChar;
    var line, b := RequestLine(verb, m, v) + CRLF, |verb| - 1;
    assert verb[b] == '/' && forall j | 0 <= j < b :: verb[j] != '/';
    assert line == verb + (m + (" " + v + CRLF));
    assert forall j | 0 <= j < |verb| :: line[j] == verb[j];
    FindCharIs(line, '/', 0, b);
    var e := |verb| + |m|;
    assert line[e] == ' ';
    assert forall j | |verb| <= j < e :: line[j] == m[j - |verb|];
    FindCharIs(line, ' ', b, e);
    assert line[b + 1..e] == m;
  }

  lemma RequestLineHas(verb: string, m: string, v: string, pat: string)
    requires (verb == "GET /" && pat == GET) || (verb == "POST /" && pat == POST)
    ensures Contains(RequestLine(verb, m, v) + CRLF, pat)
  {
    var rest := verb[|pat|..] + (m + (" " + v + CRLF));
    StartOccurs(pat, rest);
    assert pat + rest == RequestLine(verb, m, v) + CRLF;
  }

  lemma BlankStart(k: nat)
    requires 0 < k < 10
    ensures !StartsWith(" HTTP/1.1" + CRLF, ROW[k..])
  {
    assert ROW[k..][0] == ROW[k] != ' ';
  }

  lemma HeadEnds(m: string)
    requires !EndsWith(m, "Ntrip-STR:")
    ensures !EndsWith("POST /" + m, ROW[..10])
  {
    var head := "POST /" + m;
    assert ROW[..10] == "Ntrip-STR:";
    if |m| >= 10 {
      assert head[|head| - 10..] == m[|m| - 10..];
    } else if |head| >= 10 {
      var j := 9 - |m|;
      assert head[|head| - 10..][j] == head[5] == '/';
      assert forall i | 0 <= i < 10 :: "Ntrip-STR:"[i] != '/';
    }
  }

  /** The request line of a server is no row line. */
  lemma RequestLineIsNoRow(m: string)
    requires IsMountName(m) && !EndsWith(m, "Ntrip-STR:")
    ensures !Contains(RequestLine("POST /", m, "HTTP/1.1") + CRLF, ROW)
  {
    hide Contains;
    var head, tail := "POST /" + m, " HTTP/1.1" + CRLF;
    assert forall i | 0 <= i < |m| :: m[i] != ROW[10];
    NotContainsChar(m, ROW, 10);
    NotContainsChar("POST /", ROW, 0);
    LacksAfter("POST /", m, ROW);
    NotContainsChar(tail, ROW, 0);
    forall k | 0 < k < |ROW|
      ensures !EndsWith(head, ROW[..k]) || !StartsWith(tail, ROW[k..])
    {
      if k == 10 {
        HeadEnds(m);
      } else {
        BlankStart(k);
      }
    }
    NotContainsConcat(head, tail, ROW);
    assert RequestLine("POST /", m, "HTTP/1.1") + CRLF == head + tail;
  }

  // ---------- the credentials line ----------

  /** The password as the caster stores it: with the decoder's extra zero byte. */
  function Stored(user: Base64.Bytes, password: Base64.Bytes): string {
    password + Base64.ZeroByte(|Pair(user, password)|)
  }

  lemma AuthLineHas(u: Base64.Bytes, p: Base64.Bytes, pat: string)
    requires pat == POST || pat == GET
    ensures Contains(AuthLine(u, p) + CRLF, pat) <==> Contains(Credentials(u, p), pat)
  {
    hide Contains, Credentials, IsLine;
    PatternsAreLines();
    var name, x := "Authorization: Basic ", Credentials(u, p);
    if Contains(x, pat) {
      ContainsRight(name, x, pat);
      ContainsLeft(name + x, CRLF, pat);
    } else {
      HeaderLacks(name, x, pat, 0);
    }
  }

  lemma AuthLineIsAuth(u: Base64.Bytes, p: Base64.Bytes)
    ensures Contains(AuthLine(u, p) + CRLF, AUTH) && !Contains(AuthLine(u, p) + CRLF, ROW)
  {
    hide Contains, Credentials, IsLine;
    PatternsAreLines();
    var name, x := "Authorization: Basic ", Credentials(u, p);
    StartOccurs(AUTH, " " + x + CRLF);
    assert AUTH + (" " + x + CRLF) == AuthLine(u, p) + CRLF;
    CredentialChars(u, p);
    NotContainsChar(x, ROW, 10);
    HeaderLacks(name, x, ROW, 0);
  }

  lemma CredentialTextOfLine(u: Base64.Bytes, p: Base64.Bytes)
    ensures CredentialText(AuthLine(u, p) + CRLF) == Some(Credentials(u, p))
  {
    hide FindChar, FindLastChar, Credentials;
    var name, x := "Authorization: Basic ", Credentials(u, p);
    var line, n := AuthLine(u, p) + CRLF, |x|;
    CredentialChars(u, p);
    assert line == name + x + CRLF;
    assert forall j | 21 <= j < 21 + n :: line[j] == x[j - 21];
    assert line[20] == ' ' && line[21 + n] == '\r' && line[22 + n] == '\n';
    FindLastCharIs(line, ' ', 20);
    FindCharIs(line, '\r', 20, 21 + n);
    assert line[21..21 + n] == x;
  }

  /** The credentials read from the printed line: the printed user, and the printed
      password followed by the decoder's zero byte if there is one. */
  lemma UserPasswordOfLine(u: Base64.Bytes, p: Base64.Bytes)
    requires ':' !in u
    ensures UserPassword(AuthLine(u, p) + CRLF) == Some((u, Stored(u, p)))
  {
    hide FindChar, CredentialText, Base64.Decode, Base64.Rfc4648, AuthLine;
    CredentialTextOfLine(u, p);
    var pair := Pair(u, p);
    Base64.RoundTrip(pair);
    var decoded := pair + Base64.ZeroByte(|pair|);
    assert forall j | 0 <= j < |u| :: decoded[j] == u[j];
    assert decoded[|u|] == ':';
    FindCharIs(decoded, ':', 0, |u|);
    assert decoded[..|u|] == u;
    assert decoded[|u| + 1..] == Stored(u, p);
  }

  /** Taken for a request line, the credentials line gives no mountpoint. */
  lemma NoMountInAuthLine(u: Base64.Bytes, p: Base64.Bytes)
    ensures MountOf(AuthLine(u, p) + CRLF) == None
  {
    hide FindChar, Credentials;
    var name, x := "Authorization: Basic ", Credentials(u, p);
    var line := AuthLine(u, p) + CRLF;
    CredentialChars(u, p);
    assert line == name + x + CRLF;
    assert forall j | 0 <= j < 21 :: line[j] == name[j] != '/';
    assert forall j | 21 <= j < 21 + |x| :: line[j] == x[j - 21] != ' ';
    FindCharSpec(line, '/', 0);
    match FindChar(line, '/', 0)
    case Npos =>
    case At(b) =>
      assert b >= 21;
      FindCharSpec(line, ' ', b);
  }

  lemma RowOfLine(v: string)
    ensures RowOf("Ntrip-STR: " + v + CRLF) == v + CRLF
  {
    hide FindChar;
    var line := "Ntrip-STR: " + v + CRLF;
    assert forall j | 0 <= j < 10 :: line[j] == "Ntrip-STR:"[j] != ' ';
    FindCharIs(line, ' ', 0, 10);
    assert line[11..] == v + CRLF;
  }
}
