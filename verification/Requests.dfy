/** What the caster reads out of the header lines of a request. */
module Requests {
  import opened Text
  import Base64
  import Split

  /** The mountpoint and the credentials found so far. */
  datatype Login = Login(mount: string, user: string, password: string)

  const NO_LOGIN := Login("", "", "")

  predicate Complete(login: Login) {
    login.mount != "" && login.user != "" && login.password != ""
  }

  /** The text between the first '/' and the next blank. */
  function MountOf(line: string): Option<string> {
    match FindChar(line, '/', 0)
    case Npos => None
    case At(b) =>
      match FindChar(line, ' ', b)
      case Npos => None
      case At(e) => if b >= e then None else Some(line[b + 1..e])
  }

  /** The text between the last blank and the next carriage return. */
  function CredentialText(line: string): Option<string> {
    match FindLastChar(line, ' ')
    case Npos => None
    case At(b) =>
      match FindChar(line, '\r', b)
      case Npos => None
      case At(e) => if b >= e then None else Some(line[b + 1..e])
  }

  /** The decoded credentials, cut at the first ':' (section 2 of RFC 7617). */
  function UserPassword(line: string): Option<(string, string)> {
    match CredentialText(line)
    case None => None
    case Some(x) =>
      match Base64.Decode(x)
      case None => None
      case Some(pair) =>
        match FindChar(pair, ':', 0)
        case Npos => None
        case At(p) => Some((pair[..p], pair[p + 1..]))
  }

  /** The first loop over the lines of a POST request. */
  datatype PostHeaders = Refused | Taken | Headers(login: Login)

  function ReadPost(lines: seq<string>, taken: set<string>, i: nat, login: Login): PostHeaders
    requires i <= |lines|
    decreases |lines| - i
  {
    if i == |lines| then Headers(login)
    else if Contains(lines[i], "POST") then
      match MountOf(lines[i])
      case None => Refused
      case Some(m) => if m in taken then Taken else ReadPost(lines, taken, i + 1, login.(mount := m))
    else if Contains(lines[i], "Authorization: Basic") then
      match UserPassword(lines[i])
      case None => Refused
      case Some(up) => ReadPost(lines, taken, i + 1, login.(user := up.0, password := up.1))
    else ReadPost(lines, taken, i + 1, login)
  }

  /** A row with more than four sections must name the mountpoint twice. */
  predicate RowFits(row: string, mount: string) {
    var sections := Split.SplitResult(row, ";", false);
    |sections| > 4 ==> sections[1] == sections[2] == mount
  }

  function RowOf(line: string): string {
    match FindChar(line, ' ', 0)
    case Npos => line
    case At(p) => line[p + 1..]
  }

  /** The second loop: the last Ntrip-STR line gives the row, and each must fit. */
  function ReadRow(lines: seq<string>, mount: string, i: nat, row: string): Option<string>
    requires i <= |lines|
    decreases |lines| - i
  {
    if i == |lines| then Some(row)
    else if Contains(lines[i], "Ntrip-STR: ") then
      if RowFits(RowOf(lines[i]), mount) then ReadRow(lines, mount, i + 1, RowOf(lines[i])) else None
    else ReadRow(lines, mount, i + 1, row)
  }

  /** The loop over the lines of a GET request: it stops at the first line it cannot
      use and keeps what it has by then. */
  datatype GetHeaders = GetHeaders(login: Login, version1: bool)

  function ReadGet(lines: seq<string>, i: nat, got: GetHeaders): GetHeaders
    requires i <= |lines|
    decreases |lines| - i
  {
    if i == |lines| then got
    else if Contains(lines[i], "GET") then
      var seen := if Contains(lines[i], "HTTP/1.0") then got.(version1 := true) else got;
      match MountOf(lines[i])
      case None => seen
      case Some(m) => ReadGet(lines, i + 1, seen.(login := seen.login.(mount := m)))
    else if Contains(lines[i], "Authorization: Basic") then
      match UserPassword(lines[i])
      case None => got
      case Some(up) => ReadGet(lines, i + 1, got.(login := got.login.(user := up.0, password := up.1)))
    else ReadGet(lines, i + 1, got)
  }
}
