/** What the header readers find, said without their loops: which lines count, which one
    has the last word, and what stands where in a line. */
module Headers {
  import opened Text
  import opened Requests
  import Base64

  // ---------- one line ----------

  ghost predicate Encloses(line: string, a: string, left: string, x: string, right: string, b: string) {
    line == a + left + x + right + b
  }

  lemma Cut(line: string, i: nat, j: nat)
    requires i < j < |line|
    ensures Encloses(line, line[..i], [line[i]], line[i + 1..j], [line[j]], line[j + 1..])
  {
  }

  lemma Pieces(line: string, a: string, l: char, x: string, r: char, b: string)
    requires Encloses(line, a, [l], x, [r], b)
    ensures |line| == |a| + |x| + |b| + 2
    ensures line[|a|] == l && line[|a| + 1 + |x|] == r && line[|a| + 1..|a| + 1 + |x|] == x
    ensures forall k | 0 <= k < |a| :: line[k] == a[k]
    ensures forall k | |a| < k <= |a| + |x| :: line[k] == x[k - |a| - 1]
    ensures forall k | |a| + 1 + |x| < k < |line| :: line[k] == b[k - |a| - |x| - 2]
  {
  }

  /** The mountpoint stands between the first '/' and the next blank. */
  lemma MountOfSpec(line: string, m: string)
    ensures MountOf(line) == Some(m) <==>
              exists a, b :: Encloses(line, a, "/", m, " ", b) && '/' !in a && ' ' !in m
  {
    hide FindChar, Encloses;
    if MountOf(line) == Some(m) {
      var i := FindChar(line, '/', 0).pos;
      var j := FindChar(line, ' ', i).pos;
      FindCharSpec(line, '/', 0);
      FindCharSpec(line, ' ', i);
      Cut(line, i, j);
      assert Encloses(line, line[..i], "/", m, " ", line[j + 1..]);
    }
    if a, b :| Encloses(line, a, "/", m, " ", b) && '/' !in a && ' ' !in m {
      Pieces(line, a, '/', m, ' ', b);
      FindCharIs(line, '/', 0, |a|);
      FindCharIs(line, ' ', |a|, |a| + 1 + |m|);
    }
  }

  /** The encoded credentials stand between the last blank and the next carriage return. */
  lemma CredentialTextSpec(line: string, x: string)
    ensures CredentialText(line) == Some(x) <==>
              exists a, b :: Encloses(line, a, " ", x, "\r", b) && ' ' !in x && '\r' !in x && ' ' !in b
  {
    hide FindChar, FindLastChar, Encloses;
    if CredentialText(line) == Some(x) {
      FindLastCharSpec(line, ' ');
      var i := FindLastChar(line, ' ').pos;
      var j := FindChar(line, '\r', i).pos;
      FindCharSpec(line, '\r', i);
      Cut(line, i, j);
      assert Encloses(line, line[..i], " ", x, "\r", line[j + 1..]);
    }
    if a, b :| Encloses(line, a, " ", x, "\r", b) && ' ' !in x && '\r' !in x && ' ' !in b {
      Pieces(line, a, ' ', x, '\r', b);
      FindLastCharIs(line, ' ', |a|);
      FindCharIs(line, '\r', |a|, |a| + 1 + |x|);
    }
  }

  /** User and password are the two sides of the first ':' of the decoded text. */
  lemma UserPasswordSpec(line: string, u: string, p: string)
    ensures UserPassword(line) == Some((u, p)) <==>
              ':' !in u && exists x :: CredentialText(line) == Some(x) && Base64.Decode(x) == Some(u + ":" + p)
  {
    hide FindChar, CredentialText, Base64.Decode;
    var text := CredentialText(line);
    if text.Some? && Base64.Decode(text.value).Some? {
      var pair := Base64.Decode(text.value).value;
      FindCharSpec(pair, ':', 0);
      if pair == u + ":" + p && ':' !in u {
        assert pair[|u|] == ':' && forall k | 0 <= k < |u| :: pair[k] == u[k];
        FindCharIs(pair, ':', 0, |u|);
        assert pair[..|u|] == u && pair[|u| + 1..] == p;
      }
      if UserPassword(line) == Some((u, p)) {
        var i := FindChar(pair, ':', 0).pos;
        assert pair == pair[..i] + [pair[i]] + pair[i + 1..];
      }
    }
  }

  /** The row is what stands behind the first blank. */
  lemma RowOfSpec(line: string)
    ensures ' ' in line ==> exists a :: ' ' !in a && line == a + " " + RowOf(line)
    ensures ' ' !in line ==> RowOf(line) == line
  {
    hide FindChar;
    FindCharSpec(line, ' ', 0);
    match FindChar(line, ' ', 0)
    case Npos =>
    case At(p) =>
      assert line == line[..p] + [line[p]] + line[p + 1..];
  }

  // ---------- a GET request ----------

  /** A line the GET loop does not stop at. */
  predicate GetReads(line: string) {
    if Contains(line, "GET") then MountOf(line).Some?
    else Contains(line, "Authorization: Basic") ==> UserPassword(line).Some?
  }

  /** Line `j` is looked at, when the loop has come to line `i`. */
  ghost predicate Reached(lines: seq<string>, i: nat, j: nat) {
    i <= j < |lines| && forall k | i <= k < j :: GetReads(lines[k])
  }

  ghost predicate Read(lines: seq<string>, i: nat, j: nat) {
    Reached(lines, i, j) && GetReads(lines[j])
  }

  /** The two kinds of lines that count: those with a mountpoint, those with a login. */
  predicate IsKind(line: string, login: bool) {
    if login then !Contains(line, "GET") && Contains(line, "Authorization: Basic") else Contains(line, "GET")
  }

  ghost predicate NoneRead(lines: seq<string>, i: nat, login: bool) {
    forall j | i <= j < |lines| && Read(lines, i, j) :: !IsKind(lines[j], login)
  }

  /** Line `j` is the last one of its kind that is read. */
  ghost predicate LastRead(lines: seq<string>, i: nat, login: bool, j: nat) {
    && Read(lines, i, j) && IsKind(lines[j], login)
    && forall k | j < k < |lines| && Read(lines, i, k) :: !IsKind(lines[k], login)
  }

  /** A line looked at asks for the old style. */
  ghost predicate OldStyleFrom(lines: seq<string>, i: nat) {
    exists j | i <= j < |lines| :: Reached(lines, i, j) && Contains(lines[j], "GET") && Contains(lines[j], "HTTP/1.0")
  }

  lemma ReachedStep(lines: seq<string>, i: nat, j: nat)
    requires i < |lines|
    ensures Reached(lines, i, j) <==> j == i || (GetReads(lines[i]) && Reached(lines, i + 1, j))
  {
  }

  lemma OldStyleStep(lines: seq<string>, i: nat)
    requires i < |lines|
    ensures OldStyleFrom(lines, i) <==>
              || (Contains(lines[i], "GET") && Contains(lines[i], "HTTP/1.0"))
              || (GetReads(lines[i]) && OldStyleFrom(lines, i + 1))
  {
    hide Contains, GetReads, Reached;
    forall j: nat
      ensures Reached(lines, i, j) <==> j == i || (GetReads(lines[i]) && Reached(lines, i + 1, j))
    {
      ReachedStep(lines, i, j);
    }
  }

  lemma NoneLeft(lines: seq<string>)
    ensures !OldStyleFrom(lines, |lines|)
  {
  }

  /** The style of the reply: old if a GET line that is looked at names HTTP/1.0. */
  lemma {:induction false} ReadGetVersion(lines: seq<string>, i: nat, got: GetHeaders)
    requires i <= |lines|
    ensures ReadGet(lines, i, got).version1 <==> got.version1 || OldStyleFrom(lines, i)
    decreases |lines| - i
  {
    hide Contains, MountOf, UserPassword, OldStyleFrom;
    if i == |lines| {
      assert !OldStyleFrom(lines, i) by { NoneLeft(lines); }
    } else {
      OldStyleStep(lines, i);
      var line := lines[i];
      if Contains(line, "GET") {
        var seen := if Contains(line, "HTTP/1.0") then got.(version1 := true) else got;
        if MountOf(line).Some? {
          ReadGetVersion(lines, i + 1, seen.(login := seen.login.(mount := MountOf(line).value)));
        }
      } else if Contains(line, "Authorization: Basic") {
        if UserPassword(line).Some? {
          var up := UserPassword(line).value;
          ReadGetVersion(lines, i + 1, got.(login := got.login.(user := up.0, password := up.1)));
        }
      } else {
        ReadGetVersion(lines, i + 1, got);
      }
    }
  }

  lemma ReachedRange(lines: seq<string>, i: nat, j: nat)
    ensures Reached(lines, i, j) ==> i <= j < |lines|
  {
  }

  lemma ReadStep(lines: seq<string>, i: nat, login: bool)
    requires i < |lines|
    ensures NoneRead(lines, i, login) <==>
              (GetReads(lines[i]) ==> !IsKind(lines[i], login) && NoneRead(lines, i + 1, login))
    ensures forall j: nat :: LastRead(lines, i, login, j) <==>
              GetReads(lines[i]) && if j == i then IsKind(lines[i], login) && NoneRead(lines, i + 1, login)
                                    else LastRead(lines, i + 1, login, j)
  {
    hide Contains, GetReads, Reached, IsKind;
    forall j: nat
      ensures Reached(lines, i, j) <==> j == i || (GetReads(lines[i]) && Reached(lines, i + 1, j))
      ensures Reached(lines, i + 1, j) ==> i < j < |lines|
      ensures Reached(lines, i, j) ==> i <= j < |lines|
    {
      ReachedStep(lines, i, j);
      ReachedRange(lines, i, j);
      ReachedRange(lines, i + 1, j);
    }
  }

  ghost predicate GetFinds(lines: seq<string>, i: nat, before: Login, after: Login) {
    && (NoneRead(lines, i, false) ==> after.mount == before.mount)
    && (NoneRead(lines, i, true) ==> after.user == before.user && after.password == before.password)
    && (forall j: nat | LastRead(lines, i, false, j) :: MountOf(lines[j]) == Some(after.mount))
    && (forall j: nat | LastRead(lines, i, true, j) :: UserPassword(lines[j]) == Some((after.user, after.password)))
  }

  lemma NothingToRead(lines: seq<string>)
    ensures forall login :: NoneRead(lines, |lines|, login)
    ensures forall login, j :: !LastRead(lines, |lines|, login, j)
  {
  }

  /** The last GET line that is read gives the mountpoint, the last credentials line that
      is read gives user and password. */
  lemma {:induction false} ReadGetLogin(lines: seq<string>, i: nat, got: GetHeaders)
    requires i <= |lines|
    ensures GetFinds(lines, i, got.login, ReadGet(lines, i, got).login)
    decreases |lines| - i
  {
    hide Contains, MountOf, UserPassword, NoneRead, LastRead;
    if i == |lines| {
      NothingToRead(lines);
    } else {
      ReadStep(lines, i, false);
      ReadStep(lines, i, true);
      var line := lines[i];
      if Contains(line, "GET") {
        var seen := if Contains(line, "HTTP/1.0") then got.(version1 := true) else got;
        if MountOf(line).Some? {
          ReadGetLogin(lines, i + 1, seen.(login := seen.login.(mount := MountOf(line).value)));
        }
      } else if Contains(line, "Authorization: Basic") {
        if UserPassword(line).Some? {
          var up := UserPassword(line).value;
          ReadGetLogin(lines, i + 1, got.(login := got.login.(user := up.0, password := up.1)));
        }
      } else {
        ReadGetLogin(lines, i + 1, got);
      }
    }
  }

  // ---------- a POST request ----------

  /** A line that ends the first loop of a POST request. */
  predicate PostStops(line: string, taken: set<string>) {
    if Contains(line, "POST") then MountOf(line).None? || MountOf(line).value in taken
    else Contains(line, "Authorization: Basic") && UserPassword(line).None?
  }

  predicate IsPostKind(line: string, login: bool) {
    if login then !Contains(line, "POST") && Contains(line, "Authorization: Basic") else Contains(line, "POST")
  }

  ghost predicate LastOf(lines: seq<string>, login: bool, j: nat) {
    j < |lines| && IsPostKind(lines[j], login) && forall k | j < k < |lines| :: !IsPostKind(lines[k], login)
  }

  /** What is found from line `i` on, when no line stops the loop. */
  ghost predicate PostFinds(lines: seq<string>, i: nat, before: Login, after: Login) {
    && ((forall j | i <= j < |lines| :: !IsPostKind(lines[j], false)) ==> after.mount == before.mount)
    && ((forall j | i <= j < |lines| :: !IsPostKind(lines[j], true)) ==>
          after.user == before.user && after.password == before.password)
    && (forall j | i <= j < |lines| && LastOf(lines, false, j) :: MountOf(lines[j]) == Some(after.mount))
    && (forall j | i <= j < |lines| && LastOf(lines, true, j) ::
          UserPassword(lines[j]) == Some((after.user, after.password)))
  }

  /** Line `j` is the first one that stops the loop. */
  ghost predicate FirstStop(lines: seq<string>, taken: set<string>, i: nat, j: nat) {
    i <= j < |lines| && PostStops(lines[j], taken) && forall k | i <= k < j :: !PostStops(lines[k], taken)
  }

  lemma FirstStopStep(lines: seq<string>, taken: set<string>, i: nat, j: nat)
    requires i < |lines|
    ensures FirstStop(lines, taken, i, j) <==>
              if j == i then PostStops(lines[i], taken)
              else !PostStops(lines[i], taken) && FirstStop(lines, taken, i + 1, j)
  {
    hide PostStops;
  }

  /** The first line that stops the loop refuses the request, and its sender is told so only
      when the line names a mountpoint that is taken. */
  lemma {:induction false} ReadPostStops(lines: seq<string>, taken: set<string>, i: nat, login: Login, j: nat)
    requires i <= |lines| && FirstStop(lines, taken, i, j)
    ensures ReadPost(lines, taken, i, login) ==
              if Contains(lines[j], "POST") && MountOf(lines[j]).Some? then Taken else Refused
    decreases |lines| - i
  {
    hide Contains, MountOf, UserPassword;
    if i < j {
      var line := lines[i];
      FirstStopStep(lines, taken, i, j);
      hide FirstStop;
      if Contains(line, "POST") {
        ReadPostStops(lines, taken, i + 1, login.(mount := MountOf(line).value), j);
      } else if Contains(line, "Authorization: Basic") {
        var up := UserPassword(line).value;
        ReadPostStops(lines, taken, i + 1, login.(user := up.0, password := up.1), j);
      } else {
        ReadPostStops(lines, taken, i + 1, login, j);
      }
    }
  }

  /** Without a line that stops the loop, the last request line gives the mountpoint and the
      last credentials line user and password. */
  lemma {:induction false} ReadPostFinds(lines: seq<string>, taken: set<string>, i: nat, login: Login)
    requires i <= |lines| && forall j | i <= j < |lines| :: !PostStops(lines[j], taken)
    ensures var r := ReadPost(lines, taken, i, login); r.Headers? && PostFinds(lines, i, login, r.login)
    decreases |lines| - i
  {
    hide Contains, MountOf, UserPassword;
    if i < |lines| {
      var line := lines[i];
      assert !PostStops(line, taken);
      if Contains(line, "POST") {
        ReadPostFinds(lines, taken, i + 1, login.(mount := MountOf(line).value));
      } else if Contains(line, "Authorization: Basic") {
        var up := UserPassword(line).value;
        ReadPostFinds(lines, taken, i + 1, login.(user := up.0, password := up.1));
      } else {
        ReadPostFinds(lines, taken, i + 1, login);
      }
    }
  }

  /** The row comes from the last line that has one, and every such line must fit. */
  lemma {:induction false} ReadRowSpec(lines: seq<string>, mount: string, i: nat, row: string)
    requires i <= |lines|
    ensures var r := ReadRow(lines, mount, i, row);
            && (r.Some? <==> forall j | i <= j < |lines| && Contains(lines[j], "Ntrip-STR: ") ::
                  RowFits(RowOf(lines[j]), mount))
            && (r.Some? ==> forall j | i <= j < |lines| && Contains(lines[j], "Ntrip-STR: ")
                  && (forall k | j < k < |lines| :: !Contains(lines[k], "Ntrip-STR: ")) :: r.value == RowOf(lines[j]))
            && (r.Some? && (forall j | i <= j < |lines| :: !Contains(lines[j], "Ntrip-STR: ")) ==> r.value == row)
    decreases |lines| - i
  {
    hide Contains, RowFits, RowOf;
    if i < |lines| {
      if Contains(lines[i], "Ntrip-STR: ") {
        if RowFits(RowOf(lines[i]), mount) {
          ReadRowSpec(lines, mount, i + 1, RowOf(lines[i]));
        }
      } else {
        ReadRowSpec(lines, mount, i + 1, row);
      }
    }
  }
}
