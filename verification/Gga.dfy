/** The checksum of GGA sentences in `ntrip_util.cc`: XOR of the characters between
    the first one and '*', written as two hexadecimal digits after the '*'. */
module Gga {
  import opened Text

  /** Text of non-NUL ASCII characters: what a C string holds without sign extension. */
  predicate IsAscii(s: string) {
    forall i | 0 <= i < |s| :: 0 < s[i] as int < 128
  }

  function Bits(c: char): bv8 {
    (c as int % 256) as bv8
  }

  /** XOR of `s[i..n]`. */
  function Xor(s: string, i: nat, n: nat): bv8
    requires n <= |s|
    decreases n - i
  {
    if i >= n then 0 else Bits(s[i]) ^ Xor(s, i + 1, n)
  }

  // ---------- hexadecimal digits ----------

  function HexDigit(n: nat): char
    requires n < 16
  {
    "0123456789ABCDEF"[n]
  }

  predicate IsHex(c: char) {
    '0' <= c <= '9' || 'A' <= c <= 'F' || 'a' <= c <= 'f'
  }

  function HexValue(c: char): (n: nat)
    requires IsHex(c)
    ensures n < 16
  {
    if c <= '9' then c as int - '0' as int
    else if c <= 'F' then c as int - 'A' as int + 10
    else c as int - 'a' as int + 10
  }

  /** The digits read by `%x` from position `i` on. */
  function HexRun(s: string, i: nat, read: nat): nat
    decreases |s| - i
  {
    if i < |s| && IsHex(s[i]) then HexRun(s, i + 1, read * 16 + HexValue(s[i])) else read
  }

  /** `%02X` */
  function Hex2(n: nat): string
    requires n < 256
  {
    [HexDigit(n / 16), HexDigit(n % 16)]
  }

  lemma HexDigitValue(n: nat)
    requires n < 16
    ensures IsHex(HexDigit(n)) && HexValue(HexDigit(n)) == n
  {
  }

  // ---------- comparing ----------

  /** Where the '*' stands. The program reads past the end of a text without one, and
      `sscanf` wants at least one character before it. */
  predicate HasStar(s: string) {
    match FindChar(s, '*', 0) case Npos => false case At(p) => p >= 1
  }

  function Star(s: string): (p: nat)
    requires HasStar(s)
    ensures 1 <= p < |s|
  {
    FindChar(s, '*', 0).pos
  }

  /** The number after the '*' is plain digits: `%x` would also skip blanks and take a
      sign or a 0x prefix, and a longer run would overflow. */
  predicate PlainNumber(s: string, i: nat) {
    && (i < |s| ==> s[i] !in " \t\n\r+-" && s[i] as int != 11 && s[i] as int != 12)
    && (i + 1 < |s| && s[i] == '0' ==> s[i + 1] !in "xX")
    && (i + 8 <= |s| ==> exists k | i <= k < i + 8 :: !IsHex(s[k]))
  }

  function Compare(src: string): int
    requires HasStar(src)
  {
    Xor(src, 1, Star(src)) as int - HexRun(src, Star(src) + 1, 0)
  }

  lemma {:induction false} XorUpTo(s: string, i: nat, n: nat)
    requires i <= n < |s|
    ensures Xor(s, i, n + 1) == Xor(s, i, n) ^ Bits(s[n])
    decreases n - i
  {
    if i < n {
      XorUpTo(s, i + 1, n);
    }
  }

  method BccCheckSumCompareForGGA(src: string) returns (r: int)
    requires IsAscii(src) && HasStar(src) && PlainNumber(src, Star(src) + 1)
    ensures r == Compare(src)
  {
    FindCharSpec(src, '*', 0);
    var sum: bv8 := 0;
    var num := HexRun(src, Star(src) + 1, 0);
    var i := 1;
    while src[i] != '*'
      invariant 1 <= i <= Star(src)
      invariant sum == Xor(src, 1, i)
      decreases Star(src) - i
    {
      XorUpTo(src, 1, i);
      sum := sum ^ Bits(src[i]);
      i := i + 1;
    }
    r := sum as int - num;
  }

  // ---------- framing ----------

  /** The sentence without its '*', from the leading '$' on. */
  predicate IsBody(body: string) {
    IsAscii(body) && body != "" && '*' !in body
  }

  function Checksum(body: string): nat {
    Xor(body, 1, |body|) as int
  }

  function Frame(body: string, checksum: nat): string
    requires checksum < 256
  {
    body + "*" + Hex2(checksum) + CRLF
  }

  function Sentence(body: string): string {
    Frame(body, Checksum(body))
  }

  lemma XorZero(x: bv8)
    ensures x ^ Bits(0 as char) == x
  {
  }

  lemma {:induction false} XorSame(s: string, t: string, i: nat, n: nat)
    requires n <= |s| && n <= |t| && forall k | i <= k < n :: s[k] == t[k]
    ensures Xor(s, i, n) == Xor(t, i, n)
    decreases n - i
  {
    if i < n {
      XorSame(s, t, i + 1, n);
    }
  }

  lemma XorWithNul(body: string)
    requires body != ""
    ensures var src := body + [0 as char];
            Xor(src, 1, |src|) == Xor(body, 1, |body|)
  {
    var src := body + [0 as char];
    XorUpTo(src, 1, |body|);
    XorSame(src, body, 1, |body|);
    XorZero(Xor(body, 1, |body|));
  }

  lemma FrameShape(body: string, checksum: nat)
    requires IsBody(body) && checksum < 256
    ensures var f := Frame(body, checksum);
            IsAscii(f) && HasStar(f) && Star(f) == |body| && PlainNumber(f, |body| + 1)
  {
    var f, n := Frame(body, checksum), |body|;
    HexDigitValue(checksum / 16);
    HexDigitValue(checksum % 16);
    FindCharIs(f, '*', 0, n);
    assert f[n + 1] == HexDigit(checksum / 16) && f[n + 2] == HexDigit(checksum % 16) && f[n + 3] == '\r';
    assert !IsHex(f[n + 3]);
  }

  /** What the comparison gives for a frame: the difference of the two checksums. */
  lemma FrameCompares(body: string, checksum: nat)
    requires IsBody(body)
    requires checksum < 256
    ensures HasStar(Frame(body, checksum))
    ensures Compare(Frame(body, checksum)) == Checksum(body) - checksum
  {
    FrameShape(body, checksum);
    var f, n := Frame(body, checksum), |body|;
    HexDigitValue(checksum / 16);
    HexDigitValue(checksum % 16);
    assert f[n + 1] == HexDigit(checksum / 16) && f[n + 2] == HexDigit(checksum % 16) && f[n + 3] == '\r';
    assert HexRun(f, n + 1, 0) == HexRun(f, n + 2, checksum / 16) == HexRun(f, n + 3, checksum) == checksum;
    XorSame(f, body, 1, n);
  }

  // ---------- what may stand behind the '*' ----------

  /** `c` is the digit `v`, in either case. */
  predicate IsDigit(c: char, v: nat) {
    v < 16 && (c == "0123456789ABCDEF"[v] || c == "0123456789abcdef"[v])
  }

  function Number(values: seq<nat>): nat {
    if values == [] then 0 else Number(values[..|values| - 1]) * 16 + values[|values| - 1]
  }

  lemma DigitValue(c: char, v: nat)
    requires IsDigit(c, v)
    ensures IsHex(c) && HexValue(c) == v
  {
  }

  lemma NoDigit(c: char)
    requires c !in "0123456789ABCDEFabcdef"
    ensures !IsHex(c)
  {
  }

  lemma {:induction false} HexRunReads(s: string, i: nat, n: nat, values: seq<nat>)
    requires n <= |values| && i + |values| <= |s| && forall k | 0 <= k < |values| :: IsDigit(s[i + k], values[k])
    ensures HexRun(s, i, 0) == HexRun(s, i + n, Number(values[..n]))
  {
    hide IsDigit, HexValue, IsHex;
    if n == 0 {
      assert values[..0] == [];
    } else {
      HexRunReads(s, i, n - 1, values);
      DigitValue(s[i + (n - 1)], values[n - 1]);
      assert values[..n][..n - 1] == values[..n - 1];
    }
  }

  lemma RunEnds(s: string, i: nat, read: nat)
    requires i >= |s| || s[i] !in "0123456789ABCDEFabcdef"
    ensures HexRun(s, i, read) == read
  {
    if i < |s| {
      NoDigit(s[i]);
    }
  }

  lemma SentenceParts(body: string, digits: string, rest: string)
    ensures var src, n := body + "*" + digits + rest, |body|;
            && |src| == n + 1 + |digits| + |rest| && src[n] == '*'
            && (forall j | 0 <= j < n :: src[j] == body[j])
            && (forall k | 0 <= k < |digits| :: src[n + 1 + k] == digits[k])
            && (rest != "" ==> src[n + 1 + |digits|] == rest[0])
  {
  }

  lemma NumberIsRead(src: string, i: nat, digits: string, values: seq<nat>, rest: string)
    requires |src| == i + |digits| + |rest| && |digits| == |values|
    requires forall k | 0 <= k < |digits| :: IsDigit(digits[k], values[k]) && src[i + k] == digits[k]
    requires rest == "" || (src[i + |digits|] == rest[0] && rest[0] !in "0123456789ABCDEFabcdef")
    ensures HexRun(src, i, 0) == Number(values)
  {
    hide IsDigit, HexRun, Number;
    HexRunReads(src, i, |values|, values);
    assert values[..|values|] == values;
    RunEnds(src, i + |values|, Number(values));
  }

  /** Whatever hexadecimal number stands behind the '*', in either case, the comparison gives
      the difference of the true checksum and that number. */
  lemma AnyNumberCompares(body: string, digits: string, values: seq<nat>, rest: string)
    requires IsBody(body) && |digits| == |values| && forall k | 0 <= k < |digits| :: IsDigit(digits[k], values[k])
    requires rest == "" || rest[0] !in "0123456789ABCDEFabcdef"
    ensures var src := body + "*" + digits + rest;
            HasStar(src) && Compare(src) == Checksum(body) - Number(values)
  {
    hide IsDigit, Xor, IsAscii, FindChar, HexRun, Number;
    var src, n := body + "*" + digits + rest, |body|;
    SentenceParts(body, digits, rest);
    FindCharIs(src, '*', 0, n);
    NumberIsRead(src, n + 1, digits, values, rest);
    XorSame(src, body, 1, n);
  }

  lemma SentenceIs(body: string)
    ensures var digits := "0123456789ABCDEF";
            Sentence(body) == body + "*" + [digits[Checksum(body) / 16], digits[Checksum(body) % 16]] + "\r\n"
  {
    hide Xor;
  }

  /** The last part of GGAFrameGenerate: the loop runs over the terminating zero too. */
  method GGAFrameGenerate(body: string) returns (ret: int, out: string)
    requires IsBody(body)
    ensures out == Sentence(body)
    ensures var digits := "0123456789ABCDEF";
            out == body + "*" + [digits[Checksum(body) / 16], digits[Checksum(body) % 16]] + "\r\n"
    ensures ret == 0
  {
    var src := body + [0 as char];
    assert Xor(src, 1, 1) == 0;
    hide HexRun, Xor, Compare, HasStar, PlainNumber, IsAscii, HexDigit, Hex2, Star, Bits;
    var ptr := |body|;
    var checksum: bv8 := 0;
    var q := 1;
    while q <= ptr
      invariant 1 <= q <= ptr + 1
      invariant checksum == Xor(src, 1, q)
    {
      XorUpTo(src, 1, q);
      checksum := checksum ^ Bits(src[q]);
      q := q + 1;
    }
    XorWithNul(body);
    out := src[..ptr] + "*" + Hex2(checksum as int) + [0x0D as char, 0x0A as char];
    assert src[..ptr] == body;
    assert [0x0D as char, 0x0A as char] == CRLF;
    FrameShape(body, Checksum(body));
    ret := BccCheckSumCompareForGGA(out);
    FrameCompares(body, Checksum(body));
    SentenceIs(body);
  }

  lemma BitsAsInt(c: char)
    requires c as int < 256
    ensures Bits(c) as int == c as int
  {
  }

  lemma {:induction false} XorChanged(s: string, k: nat, c: char, i: nat, n: nat)
    requires n <= |s| && k < |s|
    ensures i <= k < n ==> Xor(s[k := c], i, n) == Xor(s, i, n) ^ Bits(s[k]) ^ Bits(c)
    ensures !(i <= k < n) ==> Xor(s[k := c], i, n) == Xor(s, i, n)
    decreases n - i
  {
    if i < n {
      XorChanged(s, k, c, i + 1, n);
    }
  }

  lemma XorDiffers(x: bv8, a: bv8, b: bv8)
    requires a != b
    ensures x ^ a ^ b != x
  {
  }

  lemma DifferAsInt(x: bv8, y: bv8)
    ensures x as int == y as int <==> x == y
  {
  }

  lemma StillBody(body: string, k: nat, c: char)
    requires IsBody(body) && k < |body| && 0 < c as int < 128 && c != '*'
    ensures IsBody(body[k := c]) && c as int < 256 && body[k] as int < 256
  {
  }

  lemma ChecksumIs(body: string)
    ensures Checksum(body) == Xor(body, 1, |body|) as int < 256
  {
  }

  /** Replacing one character of the body is noticed exactly when it is not the first
      one: both sums start behind it. */
  lemma ChangeIsNoticed(body: string, k: nat, c: char)
    requires IsBody(body) && k < |body|
    requires 0 < c as int < 128 && c != '*' && c != body[k]
    ensures var damaged := Frame(body[k := c], Checksum(body));
            HasStar(damaged) && (Compare(damaged) != 0 <==> k > 0)
  {
    hide *;
    var n := |body|;
    assert IsBody(body[k := c]) && c as int < 256 && body[k] as int < 256 by {
      StillBody(body, k, c);
    }
    ChecksumIs(body);
    FrameCompares(body[k := c], Checksum(body));
    XorChanged(body, k, c, 1, n);
    BitsAsInt(c);
    BitsAsInt(body[k]);
    XorDiffers(Xor(body, 1, n), Bits(body[k]), Bits(c));
    DifferAsInt(Xor(body[k := c], 1, n), Xor(body, 1, n));
    ChecksumIs(body[k := c]);
  }
}
