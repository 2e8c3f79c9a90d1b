/** Searching in text, as `std::string::find` and `find_last_of` do it.
    A search that fails gives Npos. */
module Text {

  datatype Option<+T> = None | Some(value: T)

  datatype Position = Npos | At(pos: nat)

  const CRLF := "\r\n"

  predicate OccursAt(s: string, pat: string, i: int) {
    0 <= i && i + |pat| <= |s| && forall k | 0 <= k < |pat| :: s[i + k] == pat[k]
  }

  predicate Contains(s: string, pat: string) {
    exists i | 0 <= i <= |s| :: OccursAt(s, pat, i)
  }

  predicate StartsWith(s: string, pat: string) {
    |pat| <= |s| && s[..|pat|] == pat
  }

  predicate EndsWith(s: string, pat: string) {
    |pat| <= |s| && s[|s| - |pat|..] == pat
  }

  /** The leftmost occurrence of `pat` at or after `from`. */
  function Find(s: string, pat: string, from: nat): (r: Position)
    ensures r.At? ==> from <= r.pos && r.pos + |pat| <= |s|
    decreases |s| - from
  {
    if from + |pat| > |s| then Npos
    else if OccursAt(s, pat, from) then At(from)
    else Find(s, pat, from + 1)
  }

  /** The leftmost `c` at or after `from`. */
  function FindChar(s: string, c: char, from: nat): (r: Position)
    ensures r.At? ==> from <= r.pos < |s|
    decreases |s| - from
  {
    if from >= |s| then Npos
    else if s[from] == c then At(from)
    else FindChar(s, c, from + 1)
  }

  /** The rightmost `c`. */
  function FindLastChar(s: string, c: char): (r: Position)
    ensures r.At? ==> r.pos < |s|
  {
    if s == [] then Npos
    else if s[|s| - 1] == c then At(|s| - 1)
    else FindLastChar(s[..|s| - 1], c)
  }

  lemma {:induction false} FindSpec(s: string, pat: string, from: nat)
    ensures match Find(s, pat, from)
            case Npos => forall j :: from <= j ==> !OccursAt(s, pat, j)
            case At(p) => OccursAt(s, pat, p) && forall j :: from <= j < p ==> !OccursAt(s, pat, j)
    decreases |s| - from
  {
    if from + |pat| <= |s| && !OccursAt(s, pat, from) {
      FindSpec(s, pat, from + 1);
    }
  }

  lemma {:induction false} FindIs(s: string, pat: string, from: nat, p: nat)
    requires from <= p && OccursAt(s, pat, p)
    requires forall j :: from <= j < p ==> !OccursAt(s, pat, j)
    ensures Find(s, pat, from) == At(p)
    decreases p - from
  {
    if from < p {
      FindIs(s, pat, from + 1, p);
    }
  }

  lemma {:induction false} FindCharIs(s: string, c: char, from: nat, p: nat)
    requires from <= p < |s| && s[p] == c
    requires forall j :: from <= j < p ==> s[j] != c
    ensures FindChar(s, c, from) == At(p)
    decreases p - from
  {
    if from < p {
      FindCharIs(s, c, from + 1, p);
    }
  }

  lemma {:induction false} FindCharSpec(s: string, c: char, from: nat)
    ensures match FindChar(s, c, from)
            case Npos => forall j :: from <= j < |s| ==> s[j] != c
            case At(p) => s[p] == c && forall j :: from <= j < p ==> s[j] != c
    decreases |s| - from
  {
    if from < |s| && s[from] != c {
      FindCharSpec(s, c, from + 1);
    }
  }

  lemma {:induction false} FindLastCharIs(s: string, c: char, p: nat)
    requires p < |s| && s[p] == c
    requires forall j :: p < j < |s| ==> s[j] != c
    ensures FindLastChar(s, c) == At(p)
  {
    if p < |s| - 1 {
      FindLastCharIs(s[..|s| - 1], c, p);
    }
  }

  lemma {:induction false} FindLastCharSpec(s: string, c: char)
    ensures match FindLastChar(s, c)
            case Npos => c !in s
            case At(p) => s[p] == c && forall j :: p < j < |s| ==> s[j] != c
  {
    if s != [] && s[|s| - 1] != c {
      FindLastCharSpec(s[..|s| - 1], c);
      assert forall j | 0 <= j < |s| - 1 :: s[j] == s[..|s| - 1][j];
    }
  }

  lemma {:induction false} FindOne(s: string, c: char, from: nat)
    ensures Find(s, [c], from) == FindChar(s, c, from)
    decreases |s| - from
  {
    if from < |s| {
      assert OccursAt(s, [c], from) <==> s[from + 0] == [c][0];
      FindOne(s, c, from + 1);
    }
  }

  lemma ContainsAt(s: string, pat: string, i: nat)
    requires OccursAt(s, pat, i)
    ensures Contains(s, pat)
  {
  }

  /** An occurrence in `a + b` lies in `a`, lies in `b`, or straddles the seam. */
  lemma OccursInConcat(a: string, b: string, pat: string, i: nat)
    requires OccursAt(a + b, pat, i)
    ensures OccursAt(a, pat, i) || OccursAt(b, pat, i - |a|)
            || (0 < |a| - i < |pat| && EndsWith(a, pat[..|a| - i]) && StartsWith(b, pat[|a| - i..]))
  {
    var s := a + b;
    if i + |pat| <= |a| {
      forall k | 0 <= k < |pat|
        ensures a[i + k] == pat[k]
      {
        assert s[i + k] == pat[k];
      }
    } else if |a| <= i {
      forall k | 0 <= k < |pat|
        ensures b[i - |a| + k] == pat[k]
      {
        assert s[i + k] == pat[k];
      }
    } else {
      var n := |a| - i;
      forall k | 0 <= k < n
        ensures a[|a| - n..][k] == pat[..n][k]
      {
        assert s[i + k] == pat[k];
      }
      forall k | 0 <= k < |pat| - n
        ensures b[..|pat| - n][k] == pat[n..][k]
      {
        assert s[i + (n + k)] == pat[n + k];
      }
    }
  }

  lemma NotContainsConcat(a: string, b: string, pat: string)
    requires !Contains(a, pat) && !Contains(b, pat)
    requires forall k :: 0 < k < |pat| ==> !EndsWith(a, pat[..k]) || !StartsWith(b, pat[k..])
    ensures !Contains(a + b, pat)
  {
    forall i | 0 <= i <= |a + b|
      ensures !OccursAt(a + b, pat, i)
    {
      if OccursAt(a + b, pat, i) {
        OccursInConcat(a, b, pat, i);
      }
    }
  }

  lemma ContainsLeft(a: string, b: string, pat: string)
    requires Contains(a, pat)
    ensures Contains(a + b, pat)
  {
    var i :| 0 <= i <= |a| && OccursAt(a, pat, i);
    assert (a + b)[i..i + |pat|] == a[i..i + |pat|];
    ContainsAt(a + b, pat, i);
  }

  lemma ContainsRight(a: string, b: string, pat: string)
    requires Contains(b, pat)
    ensures Contains(a + b, pat)
  {
    var i :| 0 <= i <= |b| && OccursAt(b, pat, i);
    assert (a + b)[|a| + i..|a| + i + |pat|] == b[i..i + |pat|];
    ContainsAt(a + b, pat, |a| + i);
  }

  lemma OccursHasChar(s: string, pat: string, i: nat, k: nat)
    requires k < |pat| && OccursAt(s, pat, i)
    ensures i + k < |s| && s[i + k] == pat[k]
  {
    assert s[i + k] == pat[k];
  }

  /** Text without one of the pattern's characters does not contain the pattern. */
  lemma NotContainsChar(s: string, pat: string, k: nat)
    requires k < |pat| && forall i | 0 <= i < |s| :: s[i] != pat[k]
    ensures !Contains(s, pat)
  {
    var c := pat[k];
    forall i | 0 <= i <= |s|
      ensures !OccursAt(s, pat, i)
    {
    }
  }

  lemma SliceOfRest(s: string, a: nat, b: nat)
    requires a <= b <= |s|
    ensures s[a..][..b - a] == s[a..b]
    ensures s[a..][b - a..] == s[b..]
  {
  }

  lemma OccursInPrefix(s: string, n: nat, pat: string, j: nat)
    requires n <= |s| && j + |pat| <= n
    ensures OccursAt(s[..n], pat, j) == OccursAt(s, pat, j)
  {

  }

  lemma OccursInRest(s: string, pat: string, from: nat, j: nat)
    requires from <= |s|
    ensures OccursAt(s[from..], pat, j) == OccursAt(s, pat, from + j)
  {
    var t := s[from..];
    if j + |pat| <= |t| {
      assert t[j..j + |pat|] == s[from + j..from + j + |pat|];
    }
  }

  /** Searching from an offset is searching in the rest. */
  lemma {:induction false} FindInRest(s: string, pat: string, from: nat, at: nat)
    requires from <= |s|
    ensures Find(s, pat, from + at) ==
            (match Find(s[from..], pat, at) case Npos => Npos case At(p) => At(from + p))
    decreases |s| - at
  {
    OccursInRest(s, pat, from, at);
    if at + |pat| <= |s[from..]| {
      FindInRest(s, pat, from, at + 1);
    }
  }
}
