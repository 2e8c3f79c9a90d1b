/** The source-table rows against the mount list: which row a hang-up erases, and when the
    rows stay in step with the mounts. */
module SourceTable {
  import opened Text
  import opened Requests
  import opened Caster
  import opened Tables
  import Net
  import Split

  const STR := "STR;"

  /** No field of the row but the first ends in "STR". */
  ghost predicate OneStr(row: string) {
    forall i | 0 < i <= |row| :: !OccursAt(row, STR, i)
  }

  /** A row for mountpoint `name`: it starts "STR;name;". */
  ghost predicate RowFor(row: string, name: string) {
    StartsWith(row, RowKey(name)) && ';' !in name && OneStr(row)
  }

  /** Row by row, the source table lists the mounts in the order of the mount list. */
  ghost predicate Aligned(st: State) {
    |st.rows| == |st.mounts| && forall q | 0 <= q < |st.mounts| :: RowFor(st.rows[q], st.mounts[q].name)
  }

  /** The text of a row alone: it starts "STR;" and a non-empty field, has more than
      four sections, and no other field ends in "STR". */
  ghost predicate RowShape(row: string) {
    && StartsWith(row, STR) && |row| > 4 && row[4] != ';'
    && |Split.SplitResult(row, ";", false)| > 4
    && OneStr(row)
  }

  /** A registration by this event brings a row of that shape. */
  ghost predicate BringsProperRow(st: State, e: Event) {
    var st' := Step(st, e);
    |st'.rows| > |st.rows| ==> RowShape(st'.rows[|st'.rows| - 1])
  }

  ghost predicate ProperRows(events: seq<Event>) {
    events == [] ||
    var before, e := events[..|events| - 1], events[|events| - 1];
    ProperRows(before) && BringsProperRow(Run(before), e)
  }

  // ---------- which row a hang-up erases ----------

  /** Row `p` is the first one that contains `key`. */
  ghost predicate FirstMatch(rows: seq<string>, key: string, p: nat) {
    p < |rows| && Contains(rows[p], key) && forall k | 0 <= k < p :: !Contains(rows[k], key)
  }

  /** The row that each server would take along is the one that came with it. */
  ghost predicate OwnRows(st: State) {
    |st.rows| == |st.mounts| && forall q | 0 <= q < |st.mounts| :: FirstMatch(st.rows, RowKey(st.mounts[q].name), q)
  }

  /** A row that can be added for mountpoint `name`: it contains the key of the mountpoint,
      and no row that is there already does. */
  ghost predicate NewRow(rows: seq<string>, row: string, name: string) {
    Contains(row, RowKey(name)) && forall k | 0 <= k < |rows| :: !Contains(rows[k], RowKey(name))
  }

  /** If the event registers a mount, then with such a row. */
  ghost predicate FitsIn(st: State, e: Event) {
    e.Recv? && IsPost(e.data) && Net.Sends(st.net, e.fd, 0 !in e.fails) ==>
      var reg := Registration(Lines(e.data), Names(st.mounts));
      reg.Some? ==> NewRow(st.rows, reg.value.1, reg.value.0.mount)
  }

  lemma {:induction false} FirstFrom(rows: seq<string>, key: string, i: nat, k: nat) returns (p: nat)
    requires i <= k < |rows| && Contains(rows[k], key) && forall j | 0 <= j < i :: !Contains(rows[j], key)
    ensures FirstMatch(rows, key, p)
    decreases k - i
  {
    hide Contains;
    if Contains(rows[i], key) {
      p := i;
    } else {
      p := FirstFrom(rows, key, i + 1, k);
    }
  }

  lemma FirstMatchOrNone(rows: seq<string>, key: string)
    ensures (exists p | 0 <= p < |rows| :: FirstMatch(rows, key, p))
            || forall k | 0 <= k < |rows| :: !Contains(rows[k], key)
    ensures (forall k | 0 <= k < |rows| :: !Contains(rows[k], key)) ==> EraseRow(rows, key) == rows
  {
    hide Contains, EraseRow;
    if k :| 0 <= k < |rows| && Contains(rows[k], key) {
      var p := FirstFrom(rows, key, 0, k);
    } else {
      EraseRowNone(rows, key);
    }
  }

  /** What the hang-up of mount `q`'s server does to the rows: the first match goes,
      and all rows stay exactly when there is none. */
  lemma HangupErases(st: State, fd: int, q: nat)
    requires q < |st.mounts| && FindRole(st.mounts, fd, 0) == At(q) && st.mounts[q].serverFd == fd
    ensures var rows, key := Disconnect(st, fd).rows, "STR;" + st.mounts[q].name + ";";
            && Disconnect(st, fd).mounts == RemoveAt(st.mounts, q)
            && (forall p | 0 <= p < |st.rows| && FirstMatch(st.rows, key, p) :: rows == RemoveAt(st.rows, p))
            && (rows == st.rows <==> forall k | 0 <= k < |st.rows| :: !Contains(st.rows[k], key))
  {
    hide Contains, EraseRow, FindRole, CloseAll;
    var key := RowKey(st.mounts[q].name);
    FirstMatchOrNone(st.rows, key);
    forall p | 0 <= p < |st.rows| && FirstMatch(st.rows, key, p)
      ensures EraseRow(st.rows, key) == RemoveAt(st.rows, p)
    {
      EraseRowAt(st.rows, key, p);
    }
    if p :| 0 <= p < |st.rows| && FirstMatch(st.rows, key, p) {
      assert |RemoveAt(st.rows, p)| < |st.rows| && Contains(st.rows[p], key);
    }
  }

  lemma OwnRowsWithout(st: State, st': State, q: nat)
    requires OwnRows(st) && q < |st.mounts|
    requires st'.mounts == RemoveAt(st.mounts, q) && st'.rows == RemoveAt(st.rows, q)
    ensures OwnRows(st')
  {
    hide Contains, RowKey;
    forall j | 0 <= j < |st'.mounts|
      ensures FirstMatch(st'.rows, RowKey(st'.mounts[j].name), j)
    {
      var i := if j < q then j else j + 1;
      assert st'.mounts[j] == st.mounts[i] && st'.rows[j] == st.rows[i];
      assert FirstMatch(st.rows, RowKey(st.mounts[i].name), i);
      assert forall k | 0 <= k < j :: st'.rows[k] == st.rows[if k < q then k else k + 1];
    }
  }

  lemma OwnRowsSameNames(st: State, st': State)
    requires st'.rows == st.rows && |st'.mounts| == |st.mounts|
    requires forall q | 0 <= q < |st.mounts| :: st'.mounts[q].name == st.mounts[q].name
    ensures OwnRows(st') <==> OwnRows(st)
  {
    hide FirstMatch, RowKey;
    forall q | 0 <= q < |st.mounts|
      ensures FirstMatch(st'.rows, RowKey(st'.mounts[q].name), q) <==> FirstMatch(st.rows, RowKey(st.mounts[q].name), q)
    {
    }
  }

  lemma OwnRowsWithNew(st: State, st': State, mount: Mount, row: string)
    requires OwnRows(st) && st'.mounts == st.mounts + [mount] && st'.rows == st.rows + [row]
    ensures OwnRows(st') <==> NewRow(st.rows, row, mount.name)
  {
    hide Contains, RowKey;
    var n := |st.mounts|;
    forall q | 0 <= q < n
      ensures FirstMatch(st'.rows, RowKey(st'.mounts[q].name), q)
    {
      assert FirstMatch(st.rows, RowKey(st.mounts[q].name), q);
      assert forall k | 0 <= k <= q :: st'.rows[k] == st.rows[k];
    }
    assert st'.mounts[n] == mount && st'.rows[n] == row;
    assert forall k | 0 <= k < n :: st'.rows[k] == st.rows[k];
    assert FirstMatch(st'.rows, RowKey(mount.name), n) <==> NewRow(st.rows, row, mount.name);
  }

  lemma OwnRow(st: State, q: nat)
    requires OwnRows(st) && q < |st.mounts|
    ensures q < |st.rows| == |st.mounts| && FirstMatch(st.rows, RowKey(st.mounts[q].name), q)
  {
  }

  lemma HangupOwnRows(st: State, fd: int)
    requires OwnRows(st)
    ensures OwnRows(Disconnect(st, fd))
  {
    hide Contains, EraseRow, FindRole, CloseAll, RemoveFirst, OwnRows;
    var role := FindRole(st.mounts, fd, 0);
    if role.At? && st.mounts[role.pos].serverFd == fd {
      OwnRow(st, role.pos);
      HangupErases(st, fd, role.pos);
      OwnRowsWithout(st, Disconnect(st, fd), role.pos);
    } else {
      OwnRowsSameNames(st, Disconnect(st, fd));
    }
  }

  lemma RecvOwnRows(st: State, e: Event)
    requires OwnRows(st) && e.Recv?
    ensures OwnRows(Step(st, e)) <==> FitsIn(st, e)
  {
    hide Contains, ReadPost, ReadRow, ReadGet, Lines, Net.Send, Net.Sends, SendAll, Complete, Names, OwnRows,
         NewRow, Registration;
    var r := ParseData(st, e.fd, e.data, e.fails);
    if IsPost(e.data) {
      ServerConnectEffect(st, Lines(e.data), e.fd, e.fails);
      var reg := Registration(Lines(e.data), Names(st.mounts));
      if reg.Some? && Net.Sends(st.net, e.fd, 0 !in e.fails) {
        var login, row := reg.value.0, reg.value.1;
        OwnRowsWithNew(st, Step(st, e), Mount(e.fd, login.mount, login.user, login.password, []), row);
      } else {
        OwnRowsSameNames(st, Step(st, e));
      }
    } else {
      ParseDataEffect(st, e.fd, e.data, e.fails);
      OwnRowsSameNames(st, Step(st, e));
    }
  }

  /** One step keeps the rows in order exactly when a row it adds fits in: this can be
      looked up before the registration, in the row and in the present rows. */
  lemma StepOwnRows(st: State, e: Event)
    requires OwnRows(st)
    ensures OwnRows(Step(st, e)) <==> FitsIn(st, e)
  {
    hide ParseData, Disconnect, OwnRows, NewRow;
    match e
    case Accept(fd) =>
      OwnRowsSameNames(st, Step(st, e));
    case Recv(fd, data, fails) =>
      RecvOwnRows(st, e);
    case Hangup(fd) =>
      HangupOwnRows(st, fd);
  }

  ghost predicate AlwaysOwnRows(events: seq<Event>) {
    forall n | 0 <= n <= |events| :: OwnRows(Run(events[..n]))
  }

  ghost predicate AllFitIn(events: seq<Event>) {
    forall n | 0 <= n < |events| :: FitsIn(Run(events[..n]), events[n])
  }

  lemma RunStep(events: seq<Event>, n: nat)
    requires n < |events|
    ensures Run(events[..n + 1]) == Step(Run(events[..n]), events[n])
  {
    assert events[..n + 1][..n] == events[..n];
  }

  lemma InitOwnRows()
    ensures Run([]) == INIT && OwnRows(Run([]))
  {
  }

  lemma {:induction false} FittingRows(events: seq<Event>, n: nat)
    requires AllFitIn(events) && n <= |events|
    ensures OwnRows(Run(events[..n]))
    decreases n
  {
    hide Step, Run, OwnRows, FitsIn;
    if n == 0 {
      InitOwnRows();
      assert events[..0] == [];
    } else {
      FittingRows(events, n - 1);
      RunStep(events, n - 1);
      StepOwnRows(Run(events[..n - 1]), events[n - 1]);
    }
  }

  /** For every run, whatever the peers send: every server that leaves, at any time, would
      take its own row along, if and only if each registration brought a row that fitted in. */
  lemma RowsFollowServers(events: seq<Event>)
    ensures AlwaysOwnRows(events) <==> AllFitIn(events)
  {
    hide Run, Step, OwnRows, FitsIn;
    if AlwaysOwnRows(events) {
      forall n | 0 <= n < |events|
        ensures FitsIn(Run(events[..n]), events[n])
      {
        RunStep(events, n);
        assert OwnRows(Run(events[..n])) && OwnRows(Run(events[..n + 1]));
        StepOwnRows(Run(events[..n]), events[n]);
      }
    }
    if AllFitIn(events) {
      forall n | 0 <= n <= |events|
        ensures OwnRows(Run(events[..n]))
      {
        FittingRows(events, n);
      }
    }
  }

  // ---------- which row contains which key ----------

  lemma KeyStart(name: string, rest: string)
    ensures StartsWith(RowKey(name) + rest, STR)
    ensures OccursAt(RowKey(name), STR, 0)
  {
  }

  lemma KeyInRow(row: string, name: string, i: nat)
    requires OneStr(row) && OccursAt(row, RowKey(name), i)
    ensures i == 0
  {
    KeyStart(name, "");
    forall k | 0 <= k < 4
      ensures row[i + k] == STR[k]
    {
      assert RowKey(name)[k] == STR[k];
    }
    assert OccursAt(row, STR, i);
  }

  /** The first field after "STR;" ends at the first ';' from there on. */
  lemma KeyEnds(row: string, name: string)
    requires OccursAt(row, RowKey(name), 0) && ';' !in name
    ensures FindChar(row, ';', 4) == At(4 + |name|)
    ensures row[4..4 + |name|] == name
  {
    var key, n := RowKey(name), |name|;
    assert row[..|key|] == key;
    assert row[4 + n] == key[4 + n] == ';';
    assert row[4..4 + n] == key[4..4 + n] == name;
    assert forall j | 4 <= j < 4 + n :: row[j] == row[4..4 + n][j - 4];
    FindCharIs(row, ';', 4, 4 + n);
  }

  lemma PrefixOccurs(row: string, pat: string)
    requires StartsWith(row, pat)
    ensures OccursAt(row, pat, 0)
  {
    assert forall k | 0 <= k < |pat| :: row[k] == row[..|pat|][k];
  }

  /** The substring search finds a mount's key in its own row and in no other. */
  lemma KeyFindsOwnRow(row: string, a: string, b: string)
    requires RowFor(row, a) && ';' !in b
    ensures Contains(row, RowKey(b)) <==> a == b
  {
    PrefixOccurs(row, RowKey(a));
    KeyEnds(row, a);
    if Contains(row, RowKey(b)) {
      var i :| 0 <= i <= |row| && OccursAt(row, RowKey(b), i);
      KeyInRow(row, b, i);
      KeyEnds(row, b);
    }
  }

  /** In an aligned table, the first row that contains a mount's key is the mount's own. */
  lemma AlignedOwnRows(st: State)
    requires Aligned(st) && TablesHold(st)
    ensures OwnRows(st)
  {
    hide Contains;
    forall q | 0 <= q < |st.mounts|
      ensures FirstMatch(st.rows, RowKey(st.mounts[q].name), q)
    {
      forall k | 0 <= k <= q
        ensures Contains(st.rows[k], RowKey(st.mounts[q].name)) <==> k == q
      {
        KeyFindsOwnRow(st.rows[k], st.mounts[k].name, st.mounts[q].name);
      }
    }
  }

  // ---------- the section check ----------

  lemma StrIsClean()
    ensures Split.CleanCut("STR", ";")
  {
    var s := "STR" + ";";
    forall j | 0 <= j < 3
      ensures !OccursAt(s, ";", j)
    {
      assert s[j + 0] != ";"[0];
    }
  }

  /** The rest of a row after "STR;" has a first field that is not empty. */
  lemma SecondField(rest: string)
    requires rest != "" && rest[0] != ';' && |Split.Kept(Split.Fields(rest, ";"), ";", false)| > 1
    ensures var e := FindChar(rest, ';', 0);
            e.At? && e.pos > 0 && Split.Kept(Split.Fields(rest, ";"), ";", false)[0] == rest[..e.pos]
  {
    hide Find;
    FindOne(rest, ';', 0);
    FindCharSpec(rest, ';', 0);
    match Find(rest, ";", 0)
    case Npos =>
    case At(p) =>
      Split.FieldsUnfold(rest, ";", p);
      Split.KeptCons(rest[..p], Split.Fields(rest[p + 1..], ";"), ";", false);
  }

  lemma SectionsOfRow(row: string)
    requires StartsWith(row, STR)
    ensures Split.SplitResult(row, ";", false) == ["STR"] + Split.Kept(Split.Fields(row[4..], ";"), ";", false)
  {
    StrIsClean();
    Split.FieldsStep("STR", row[4..], ";");
    assert "STR" + ";" + row[4..] == row;
    Split.KeptCons("STR", Split.Fields(row[4..], ";"), ";", false);
  }

  /** A row of good shape that passes the section check is a row for its mountpoint. */
  lemma CheckedRowIsFor(row: string, name: string)
    requires RowShape(row) && RowFits(row, name)
    ensures RowFor(row, name)
  {
    hide Split.Kept, Split.Fields, FindChar;
    var rest := row[4..];
    SectionsOfRow(row);
    SecondField(rest);
    var p := FindChar(rest, ';', 0).pos;
    FindCharSpec(rest, ';', 0);
    assert name == rest[..p];
    assert row == STR + rest;
    assert rest[..p + 1] == name + ";";
    assert row[..4 + p + 1] == STR + rest[..p + 1];
  }

  // ---------- steps ----------

  lemma {:induction false} ReadRowFits(lines: seq<string>, mount: string, i: nat, row: string)
    requires i <= |lines| && (row == "" || RowFits(row, mount))
    ensures var r := ReadRow(lines, mount, i, row);
            r.Some? ==> r.value == "" || RowFits(r.value, mount)
    decreases |lines| - i
  {
    hide Contains, RowFits, RowOf;
    if i < |lines| {
      if Contains(lines[i], "Ntrip-STR: ") {
        if RowFits(RowOf(lines[i]), mount) {
          ReadRowFits(lines, mount, i + 1, RowOf(lines[i]));
        }
      } else {
        ReadRowFits(lines, mount, i + 1, row);
      }
    }
  }

  /** The row a registration adds has passed the section check for the new mount. */
  lemma NewRowFits(st: State, fd: int, data: string, fails: set<nat>)
    ensures var st' := ParseData(st, fd, data, fails).st;
            || SameTables(st, st')
            || (|st'.mounts| == |st.mounts| && st'.rows == st.rows
                && forall q | 0 <= q < |st.mounts| :: st'.mounts[q].name == st.mounts[q].name)
            || (|st'.mounts| > 0 && |st'.rows| > 0
                && var mount, row := st'.mounts[|st'.mounts| - 1], st'.rows[|st'.rows| - 1];
                && st'.mounts == st.mounts + [mount] && st'.rows == st.rows + [row]
                && (row == "" || RowFits(row, mount.name)))
  {
    hide Contains, ReadPost, ReadRow, ReadGet, RowFits, Complete, Lines, Net.Send, Net.Sends, SendAll, Names;
    if IsPost(data) {
      var lines := Lines(data);
      ServerConnectEffect(st, lines, fd, fails);
      var reg := Registration(lines, Names(st.mounts));
      if reg.Some? {
        ReadRowFits(lines, reg.value.0.mount, 0, "");
      }
    } else {
      ParseDataEffect(st, fd, data, fails);
    }
  }

  lemma NoShape(row: string)
    ensures RowShape(row) ==> row != ""
  {
  }

  lemma RecvAligned(st: State, fd: int, data: string, fails: set<nat>)
    requires Aligned(st) && BringsProperRow(st, Recv(fd, data, fails))
    ensures Aligned(Step(st, Recv(fd, data, fails)))
  {
    hide ParseData, RowFor, RowShape, RowFits;
    NewRowFits(st, fd, data, fails);
    var st' := ParseData(st, fd, data, fails).st;
    if |st'.rows| > |st.rows| {
      var row := st'.rows[|st'.rows| - 1];
      NoShape(row);
      CheckedRowIsFor(row, st'.mounts[|st'.mounts| - 1].name);
    }
  }

  lemma HangupAligned(st: State, fd: int)
    requires TablesHold(st) && Aligned(st)
    ensures Aligned(Disconnect(st, fd))
  {
    hide RowFor, EraseRow, FindRole, CloseAll, RemoveFirst, Contains, OwnRows, FirstMatch;
    var role := FindRole(st.mounts, fd, 0);
    if role.At? && st.mounts[role.pos].serverFd == fd {
      AlignedOwnRows(st);
      OwnRow(st, role.pos);
      HangupErases(st, fd, role.pos);
    }
  }

  lemma StepAligned(st: State, e: Event)
    requires TablesHold(st) && Aligned(st) && BringsProperRow(st, e)
    ensures Aligned(Step(st, e))
  {
    hide ParseData, RowFor, RowShape;
    match e
    case Accept(fd) =>
    case Recv(fd, data, fails) =>
      RecvAligned(st, fd, data, fails);
    case Hangup(fd) =>
      HangupAligned(st, fd);
  }

  lemma InitAligned()
    ensures Aligned(INIT)
  {
  }

  /** Over whole runs, whatever else the peers send: if each accepted row has a proper shape,
      the rows are the mounts' own, in order, and fitted in when they came. */
  lemma {:induction false} AlwaysAligned(events: seq<Event>)
    requires ProperRows(events)
    ensures Aligned(Run(events)) && OwnRows(Run(events))
  {
    hide Step, TablesHold, Aligned, OwnRows, BringsProperRow;
    TablesAlwaysHold(events);
    if events == [] {
      InitAligned();
    } else {
      var before := events[..|events| - 1];
      AlwaysAligned(before);
      TablesAlwaysHold(before);
      StepAligned(Run(before), events[|events| - 1]);
    }
    AlignedOwnRows(Run(events));
  }
}
