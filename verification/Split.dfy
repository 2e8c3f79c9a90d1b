/** `StringSplit`: cutting a text at the successive leftmost occurrences of a divider. */
module Split {
  import opened Text

  /** Every field of `src`, the empty ones too. There is always a last field. */
  function Fields(src: string, div: string): (fs: seq<string>)
    requires div != ""
    ensures |fs| > 0
    decreases |src|
  {
    match Find(src, div, 0)
    case Npos => [src]
    case At(p) => [src[..p]] + Fields(src[p + |div|..], div)
  }

  function Join(fs: seq<string>, div: string): string {
    if |fs| == 0 then "" else if |fs| == 1 then fs[0] else fs[0] + div + Join(fs[1..], div)
  }

  /** `f` is what stands before the leftmost divider of `f + div`. */
  ghost predicate CleanCut(f: string, div: string) {
    forall j | 0 <= j < |f| :: !OccursAt(f + div, div, j)
  }

  /** A cut of a text into fields where each cut is the leftmost possible one. */
  ghost predicate IsFieldsOf(fs: seq<string>, src: string, div: string) {
    && |fs| > 0
    && Join(fs, div) == src
    && (forall i | 0 <= i < |fs| - 1 :: CleanCut(fs[i], div))
    && !Contains(fs[|fs| - 1], div)
  }

  /** A field as it is stored: with the divider put back when asked. */
  function Item(f: string, div: string, append: bool): string {
    if append then f + div else f
  }

  function Stored(f: string, div: string, append: bool): seq<string> {
    if |f| > 0 then [Item(f, div, append)] else []
  }

  /** What `StringSplit` keeps: the non-empty fields, except that the last one
      stays only when it is at least as long as the divider. */
  function Kept(fs: seq<string>, div: string, append: bool): seq<string> {
    if |fs| == 0 then []
    else if |fs| == 1 then (if |fs[0]| >= |div| then [Item(fs[0], div, append)] else [])
    else Stored(fs[0], div, append) + Kept(fs[1..], div, append)
  }

  function SplitResult(src: string, div: string, append: bool): seq<string>
    requires div != ""
  {
    Kept(Fields(src, div), div, append)
  }

  /** The scan's result when it stands at `from` having stored `out`. */
  function Scan(src: string, div: string, append: bool, from: nat, out: seq<string>): seq<string>
    requires div != "" && from <= |src|
    decreases |src| - from
  {
    match Find(src, div, from)
    case Npos => if from + |div| <= |src| then out + [Item(src[from..], div, append)] else out
    case At(p) =>
      Scan(src, div, append, p + |div|, if p > from then out + [Item(src[from..p], div, append)] else out)
  }

  lemma FieldsUnfold(src: string, div: string, p: nat)
    requires div != "" && Find(src, div, 0) == At(p)
    ensures Fields(src, div) == [src[..p]] + Fields(src[p + |div|..], div)
  {
  }

  lemma {:induction false} FieldsAtRest(src: string, div: string, from: nat, p: nat)
    requires div != "" && from <= |src| && Find(src, div, from) == At(p)
    ensures Fields(src[from..], div) == [src[from..p]] + Fields(src[p + |div|..], div)
  {
    hide Find, Fields;
    FindInRest(src, div, from, 0);
    FieldsUnfold(src[from..], div, p - from);
    SliceOfRest(src, from, p);
    SliceOfRest(src, from, p + |div|);
    assert p + |div| - from == p - from + |div|;
  }

  lemma KeptCons(f: string, fs: seq<string>, div: string, append: bool)
    requires |fs| > 0
    ensures Kept([f] + fs, div, append)
         == Stored(f, div, append) + Kept(fs, div, append)
  {
    assert ([f] + fs)[1..] == fs;
  }

  lemma ScanUnfold(src: string, div: string, append: bool, from: nat, out: seq<string>, p: nat)
    requires div != "" && from <= |src| && Find(src, div, from) == At(p)
    ensures Scan(src, div, append, from, out)
         == Scan(src, div, append, p + |div|, out + Stored(src[from..p], div, append))
  {
    hide Find;
    if p == from {
      assert out == out + [];
    }
  }

  lemma ScanEnd(src: string, div: string, append: bool, from: nat, out: seq<string>)
    requires div != "" && from <= |src| && Find(src, div, from) == Npos
    ensures Scan(src, div, append, from, out) == out + Kept(Fields(src[from..], div), div, append)
  {
    FindInRest(src, div, from, 0);
    hide Find;
    assert Fields(src[from..], div) == [src[from..]];
  }

  lemma Assoc(a: seq<string>, b: seq<string>, c: seq<string>)
    ensures (a + b) + c == a + (b + c)
    ensures a + [] == a
  {
  }

  lemma {:induction false} ScanKeeps(src: string, div: string, append: bool, from: nat, out: seq<string>)
    requires div != "" && from <= |src|
    ensures Scan(src, div, append, from, out) == out + Kept(Fields(src[from..], div), div, append)
    decreases |src| - from
  {
    hide *;
    match Find(src, div, from)
    case Npos =>
      ScanEnd(src, div, append, from, out);
    case At(p) =>
      var stored, rest := Stored(src[from..p], div, append), Fields(src[p + |div|..], div);
      ScanUnfold(src, div, append, from, out, p);
      ScanKeeps(src, div, append, p + |div|, out + stored);
      FieldsAtRest(src, div, from, p);
      KeptCons(src[from..p], rest, div, append);
      Assoc(out, stored, Kept(rest, div, append));
  }

  method StringSplit(src: string, div: string, append: bool) returns (out: seq<string>)
    requires div != ""
    ensures out == SplitResult(src, div, append)
  {
    hide Find;
    ghost var total := Scan(src, div, append, 0, []);
    out := [];
    var posBegin := 0;
    var divPos := Find(src, div, 0);
    while divPos.At?
      invariant 0 <= posBegin <= |src|
      invariant divPos == Find(src, div, posBegin)
      invariant Scan(src, div, append, posBegin, out) == total
      decreases |src| - posBegin
    {
      var len := divPos.pos - posBegin;
      if len > 0 {
        var item := src[posBegin..posBegin + len];
        if append {
          item := item + div;
        }
        assert posBegin + len == divPos.pos;
        out := out + [item];
      }
      posBegin := divPos.pos + |div|;
      divPos := Find(src, div, posBegin);
    }
    if posBegin + |div| <= |src| {
      var item := src[posBegin..];
      if append {
        item := item + div;
      }
      out := out + [item];
    }
    ScanKeeps(src, div, append, 0, []);
    assert src[0..] == src;
  }

  lemma FieldsStep(f: string, rest: string, div: string)
    requires div != "" && CleanCut(f, div)
    ensures Find(f + div + rest, div, 0) == At(|f|)
    ensures Fields(f + div + rest, div) == [f] + Fields(rest, div)
  {
    var s := f + div + rest;
    assert OccursAt(s, div, |f|);
    forall j | 0 <= j < |f|
      ensures !OccursAt(s, div, j)
    {
      assert s[j..j + |div|] == (f + div)[j..j + |div|];
      assert !OccursAt(f + div, div, j);
    }
    FindIs(s, div, 0, |f|);
    assert s[..|f|] == f;
    assert s[|f| + |div|..] == rest;
  }

  lemma FieldsOfCons(f: string, fs: seq<string>, rest: string, div: string)
    requires CleanCut(f, div) && IsFieldsOf(fs, rest, div)
    ensures IsFieldsOf([f] + fs, f + div + rest, div)
  {
    var all := [f] + fs;
    assert all[1..] == fs;
    forall i | 0 <= i < |all| - 1
      ensures CleanCut(all[i], div)
    {
      if i > 0 {
        assert all[i] == fs[i - 1];
      }
    }
  }

  lemma {:induction false} LeftmostIsClean(src: string, div: string, p: nat)
    requires Find(src, div, 0) == At(p)
    ensures src == src[..p] + div + src[p + |div|..]
    ensures CleanCut(src[..p], div)
  {
    FindSpec(src, div, 0);
    var s := src[..p] + div;
    assert src[p..p + |div|] == div;
    assert s == src[..p + |div|];
    forall j | 0 <= j < p
      ensures !OccursAt(s, div, j)
    {
      OccursInPrefix(src, p + |div|, div, j);
    }
  }

  /** Cutting and joining are inverse, and the leftmost cut is the only one. */
  lemma {:induction false} FieldsAreTheCut(src: string, div: string)
    requires div != ""
    ensures IsFieldsOf(Fields(src, div), src, div)
    decreases |src|
  {
    match Find(src, div, 0)
    case Npos =>
      FindSpec(src, div, 0);
    case At(p) =>
      var rest := src[p + |div|..];
      FieldsAreTheCut(rest, div);
      LeftmostIsClean(src, div, p);
      FieldsOfCons(src[..p], Fields(rest, div), rest, div);
  }

  lemma {:induction false} FieldsUnique(fs: seq<string>, src: string, div: string)
    requires div != "" && IsFieldsOf(fs, src, div)
    ensures Fields(src, div) == fs
    decreases |fs|
  {
    if |fs| == 1 {
      FindSpec(src, div, 0);
    } else {
      var tail, rest := fs[1..], Join(fs[1..], div);
      assert forall i | 0 <= i < |tail| - 1 :: tail[i] == fs[i + 1];
      assert CleanCut(fs[0], div);
      FieldsUnique(tail, rest, div);
      FieldsStep(fs[0], rest, div);
      assert fs == [fs[0]] + tail;
    }
  }

  // ---------- a divider of one character ----------

  function NonEmpty(fs: seq<string>): seq<string> {
    if fs == [] then [] else (if fs[0] == "" then [] else [fs[0]]) + NonEmpty(fs[1..])
  }

  lemma FreeOf(f: string, c: char)
    requires c !in f
    ensures CleanCut(f, [c]) && !Contains(f, [c])
  {
    forall j | 0 <= j <= |f|
      ensures j < |f| ==> !OccursAt(f + [c], [c], j)
      ensures !OccursAt(f, [c], j)
    {
      assert j < |f| ==> (f + [c])[j + 0] == f[j] != [c][0];
    }
  }

  lemma {:induction false} KeptOfOne(fs: seq<string>, c: char)
    requires fs != []
    ensures Kept(fs, [c], false) == NonEmpty(fs)
  {
    if |fs| == 1 {
      assert fs[1..] == [];
    } else {
      KeptOfOne(fs[1..], c);
    }
  }

  /** Fields that are free of the divider, joined and split, come back without the empty ones. */
  lemma SplitJoined(fs: seq<string>, c: char)
    requires fs != [] && forall i | 0 <= i < |fs| :: c !in fs[i]
    ensures SplitResult(Join(fs, [c]), [c], false) == NonEmpty(fs)
  {
    hide Contains, CleanCut;
    forall i | 0 <= i < |fs|
      ensures CleanCut(fs[i], [c]) && !Contains(fs[i], [c])
    {
      FreeOf(fs[i], c);
    }
    FieldsUnique(fs, Join(fs, [c]), [c]);
    KeptOfOne(fs, c);
  }

  lemma {:induction false} JoinLast(fs: seq<string>, last: string, more: string, div: string)
    ensures Join(fs + [last], div) + more == Join(fs + [last + more], div)
  {
    if fs == [] {
      assert [] + [last] == [last] && [] + [last + more] == [last + more];
    } else {
      JoinLast(fs[1..], last, more, div);
      assert (fs + [last])[1..] == fs[1..] + [last] && (fs + [last + more])[1..] == fs[1..] + [last + more];
    }
  }

  lemma {:induction false} NonEmptyLast(fs: seq<string>, last: string)
    requires last != ""
    ensures NonEmpty(fs + [last]) == NonEmpty(fs) + [last]
  {
    if fs == [] {
      assert [] + [last] == [last] && [last][1..] == [];
    } else {
      NonEmptyLast(fs[1..], last);
      assert (fs + [last])[1..] == fs[1..] + [last];
    }
  }

  // ---------- lines ended by CRLF ----------

  /** The text made of `lines`, each ended by CRLF. */
  function LinesText(lines: seq<string>): string {
    if |lines| == 0 then "" else lines[0] + CRLF + LinesText(lines[1..])
  }

  function WithCrlf(lines: seq<string>): seq<string> {
    if |lines| == 0 then [] else [lines[0] + CRLF] + WithCrlf(lines[1..])
  }

  lemma CleanLine(line: string)
    requires !Contains(line, CRLF)
    ensures CleanCut(line, CRLF)
  {
    var s := line + CRLF;
    forall j | 0 <= j < |line|
      ensures !OccursAt(s, CRLF, j)
    {
      if OccursAt(s, CRLF, j) {
        OccursInConcat(line, CRLF, CRLF, j);
        OccursHasChar(s, CRLF, j, 1);
      }
    }
  }

  lemma {:induction false} FieldsOfLines(lines: seq<string>, tail: string)
    requires forall i | 0 <= i < |lines| :: !Contains(lines[i], CRLF)
    ensures Fields(LinesText(lines) + tail, CRLF) == lines + Fields(tail, CRLF)
  {
    hide Fields, Contains;
    if |lines| == 0 {
      assert "" + tail == tail;
    } else {
      var rest := LinesText(lines[1..]) + tail;
      assert LinesText(lines) + tail == lines[0] + CRLF + rest;
      hide *;
      FieldsOfLines(lines[1..], tail);
      CleanLine(lines[0]);
      FieldsStep(lines[0], rest, CRLF);
      assert lines == [lines[0]] + lines[1..];
      Assoc([lines[0]], lines[1..], Fields(tail, CRLF));
    }
  }

  lemma {:induction false} KeptLines(lines: seq<string>, fs: seq<string>)
    requires |fs| > 0 && forall i | 0 <= i < |lines| :: lines[i] != ""
    ensures Kept(lines + fs, CRLF, true) == WithCrlf(lines) + Kept(fs, CRLF, true)
  {
    if |lines| == 0 {
      assert lines + fs == fs;
    } else {
      KeptLines(lines[1..], fs);
      assert lines + fs == [lines[0]] + (lines[1..] + fs);
      KeptCons(lines[0], lines[1..] + fs, CRLF, true);
    }
  }

  lemma NoLines()
    ensures Kept(Fields("", CRLF), CRLF, true) == []
    ensures Kept(Fields(CRLF, CRLF), CRLF, true) == []
  {
    FieldsStep("", "", CRLF);
    assert "" + CRLF + "" == CRLF;
    KeptCons("", [""], CRLF, true);
  }

  /** Whole lines come back as they are, each with its CRLF; the blank line that
      may end a request is dropped. */
  lemma SplitLines(lines: seq<string>, blank: bool)
    requires forall i | 0 <= i < |lines| :: lines[i] != "" && !Contains(lines[i], CRLF)
    ensures SplitResult(LinesText(lines) + if blank then CRLF else "", CRLF, true) == WithCrlf(lines)
  {
    var tail := if blank then CRLF else "";
    FieldsOfLines(lines, tail);
    KeptLines(lines, Fields(tail, CRLF));
    NoLines();
  }

  /** An unfinished last line is given a CRLF if it has two characters or more, and is
      dropped otherwise. */
  lemma SplitOpenLine(lines: seq<string>, tail: string)
    requires forall i | 0 <= i < |lines| :: lines[i] != "" && !Contains(lines[i], CRLF)
    requires !Contains(tail, CRLF)
    ensures SplitResult(LinesText(lines) + tail, "\r\n", true) ==
              WithCrlf(lines) + if |tail| >= 2 then [tail + "\r\n"] else []
  {
    FieldsOfLines(lines, tail);
    KeptLines(lines, Fields(tail, CRLF));
    FindSpec(tail, CRLF, 0);
    assert Find(tail, CRLF, 0) == Npos;
  }
}
