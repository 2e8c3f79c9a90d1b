/** Base64 as `ntrip_util.cc` does it: the encoding of section 4 of RFC 4648, and a
    decoder that gives one byte too many for a padded text. Shifts and masks of the
    program are written as `/`, `%` and `*` on byte values. */
module Base64 {
  import opened Text

  predicate IsBytes(s: string) {
    forall i | 0 <= i < |s| :: s[i] as int < 256
  }

  type Bytes = s: string | IsBytes(s)

  const UPPER := "ABCDEFGHIJKLMNOPQRSTUVWXYZ"
  const LOWER := "abcdefghijklmnopqrstuvwxyz"
  const DIGITS := "0123456789+/"
  const TABLE := UPPER + LOWER + DIGITS

  function ByteChar(n: nat): (c: char)
    requires n < 256
    ensures c as int == n
  {
    n as char
  }

  function Code(n: nat): char
    requires n < 64
  {
    TABLE[n]
  }

  /** `base64_index(c) & 0x3F`: the index of `c` in the table, and 63 (the low six
      bits of -1) for a character that is not there, '=' included. */
  function Sextet(c: char): (n: nat)
    ensures n < 64
  {
    match FindChar(TABLE, c, 0)
    case Npos => 63
    case At(p) => p
  }

  predicate InAlphabet(c: char) {
    c in TABLE
  }

  /** The order of the alphabet (table 1 of RFC 4648). */
  function CodePoint(n: nat): int
    requires n < 64
  {
    if n < 26 then 'A' as int + n
    else if n < 52 then 'a' as int + n - 26
    else if n < 62 then '0' as int + n - 52
    else if n == 62 then '+' as int
    else '/' as int
  }

  lemma UpperAt(n: nat)
    requires n < 26
    ensures UPPER[n] as int == 'A' as int + n
  {
  }

  lemma LowerAt(n: nat)
    requires n < 26
    ensures LOWER[n] as int == 'a' as int + n
  {
  }

  lemma TableAt(n: nat)
    requires n < 64
    ensures |TABLE| == 64 && TABLE[n] as int == CodePoint(n)
  {
    if n < 26 {
      UpperAt(n);
    } else if n < 52 {
      LowerAt(n - 26);
    }
  }

  /** Table 1 of RFC 4648, by character numbers. */
  lemma AlphabetIs(n: nat)
    requires n < 64
    ensures Code(n) as int ==
              if n < 26 then 65 + n else if n < 52 then 97 + (n - 26) else if n < 62 then 48 + (n - 52)
              else if n == 62 then 43 else 47
  {
    TableAt(n);
  }

  lemma SextetOfCode(n: nat)
    requires n < 64
    ensures Sextet(Code(n)) == n && Code(n) != '='
  {
    TableAt(n);
    forall j | 0 <= j < n
      ensures TABLE[j] != TABLE[n]
    {
      TableAt(j);
    }
    hide FindChar;
    FindCharIs(TABLE, TABLE[n], 0, n);
  }

  lemma CodeOfSextet(c: char)
    requires InAlphabet(c)
    ensures Code(Sextet(c)) == c && c != '='
  {
    hide FindChar;
    FindCharSpec(TABLE, c, 0);
    TableAt(Sextet(c));
  }

  // ---------- encoding ----------

  /** The 24-bit group of three bytes, most significant first. */
  function Group(a: char, b: char, c: char): nat {
    a as int * 65536 + b as int * 256 + c as int
  }

  /** The `k`th group of six bits, counted from the most significant. */
  function Digit(group: nat, k: nat): nat
    requires k < 4
  {
    (match k case 0 => group / 262144 case 1 => group / 4096 case 2 => group / 64 case _ => group) % 64
  }

  function DigitCode(group: nat, k: nat): char
    requires k < 4
  {
    Code(Digit(group, k))
  }

  /** The code characters of `s[i..]`, without padding: four for a whole group,
      three for two bytes and two for a single byte. */
  function Codes(s: Bytes, i: nat): string
    requires i <= |s|
    decreases |s| - i
  {
    if i == |s| then ""
    else if i + 1 == |s| then
      var g := Group(s[i], 0 as char, 0 as char);
      [DigitCode(g, 0), DigitCode(g, 1)]
    else if i + 2 == |s| then
      var g := Group(s[i], s[i + 1], 0 as char);
      [DigitCode(g, 0), DigitCode(g, 1), DigitCode(g, 2)]
    else
      var g := Group(s[i], s[i + 1], s[i + 2]);
      [DigitCode(g, 0), DigitCode(g, 1), DigitCode(g, 2), DigitCode(g, 3)] + Codes(s, i + 3)
  }

  function Padding(n: nat): string {
    if n % 3 == 0 then "" else if n % 3 == 1 then "==" else "="
  }

  /** Section 4 of RFC 4648. */
  function Rfc4648(s: Bytes): string {
    Codes(s, 0) + Padding(|s|)
  }

  /** The '=' characters that bring a text of length `n` to a multiple of four. */
  function Fill(n: nat): string {
    if n % 4 == 0 then "" else seq(4 - n % 4, _ => '=')
  }

  lemma {:induction false} CodesLength(s: Bytes, i: nat)
    requires i <= |s|
    ensures |Codes(s, i)| == ((|s| - i) * 4 + 2) / 3
    decreases |s| - i
  {
    hide DigitCode, Group;
    if i + 3 <= |s| {
      CodesLength(s, i + 3);
      assert ((|s| - i) * 4 + 2) / 3 == 4 + ((|s| - i - 3) * 4 + 2) / 3;
    }
  }

  lemma EncodedLength(s: Bytes)
    ensures |Rfc4648(s)| == (|s| + 2) / 3 * 4
    ensures Fill(|Codes(s, 0)|) == Padding(|s|)
  {
    hide Codes;
    CodesLength(s, 0);
  }

  lemma SplitDigit0(g: nat, d: nat, low: nat)
    requires d < 64 && low < 262144 && g == d * 262144 + low
    ensures g / 262144 % 64 == d
  {
  }

  lemma SplitDigit1(g: nat, high: nat, d: nat, low: nat)
    requires d < 64 && low < 4096 && g == (high * 64 + d) * 4096 + low
    ensures g / 4096 % 64 == d
  {
    assert g / 4096 == high * 64 + d;
  }

  lemma SplitDigit2(g: nat, high: nat, d: nat, low: nat)
    requires d < 64 && low < 64 && g == (high * 64 + d) * 64 + low
    ensures g / 64 % 64 == d
  {
    assert g / 64 == high * 64 + d;
  }

  lemma SplitDigit3(g: nat, high: nat, d: nat)
    requires d < 64 && g == high * 64 + d
    ensures g % 64 == d
  {
  }

  lemma SplitGroup(a: nat, b: nat, c: nat)
    requires a < 256 && b < 256 && c < 256
    ensures (a * 65536 + b * 256 + c) / 262144 % 64 == a / 4
    ensures (a * 65536 + b * 256 + c) / 4096 % 64 == a % 4 * 16 + b / 16
    ensures (a * 65536 + b * 256 + c) / 64 % 64 == b % 16 * 4 + c / 64
    ensures (a * 65536 + b * 256 + c) % 64 == c % 64
  {
    var g := a * 65536 + b * 256 + c;
    SplitDigit0(g, a / 4, a % 4 * 65536 + b * 256 + c);
    SplitDigit1(g, a / 4, a % 4 * 16 + b / 16, b % 16 * 256 + c);
    SplitDigit2(g, a * 16 + b / 16, b % 16 * 4 + c / 64, c % 64);
    SplitDigit3(g, a * 1024 + b * 4 + c / 64, c % 64);
  }

  lemma DigitsOfBytes(a: char, b: char, c: char)
    requires a as int < 256 && b as int < 256 && c as int < 256
    ensures Digit(Group(a, b, c), 0) == a as int / 4
    ensures Digit(Group(a, b, c), 1) == a as int % 4 * 16 + b as int / 16
    ensures Digit(Group(a, b, c), 2) == b as int % 16 * 4 + c as int / 64
    ensures Digit(Group(a, b, c), 3) == c as int % 64
  {
    SplitGroup(a as int, b as int, c as int);
  }

  lemma CodesStep(s: Bytes, i: nat)
    requires i < |s|
    ensures i + 1 == |s| ==>
              Codes(s, i) == [Code(s[i] as int / 4), Code(s[i] as int % 4 * 16)]
    ensures i + 2 == |s| ==>
              Codes(s, i) == [Code(s[i] as int / 4), Code(s[i] as int % 4 * 16 + s[i + 1] as int / 16),
                              Code(s[i + 1] as int % 16 * 4)]
    ensures i + 2 < |s| ==>
              Codes(s, i) == [Code(s[i] as int / 4), Code(s[i] as int % 4 * 16 + s[i + 1] as int / 16),
                              Code(s[i + 1] as int % 16 * 4 + s[i + 2] as int / 64),
                              Code(s[i + 2] as int % 64)] + Codes(s, i + 3)
  {
    hide Digit, Group, Code;
    var zero := 0 as char;
    if i + 1 == |s| {
      DigitsOfBytes(s[i], zero, zero);
    } else if i + 2 == |s| {
      DigitsOfBytes(s[i], s[i + 1], zero);
    } else {
      DigitsOfBytes(s[i], s[i + 1], s[i + 2]);
    }
  }

  lemma CodesEnd(s: Bytes)
    ensures Codes(s, |s|) == ""
  {
  }

  lemma FillIs(body: string, out: string)
    requires out == if |body| % 4 != 0 then body + seq(4 - |body| % 4, _ => '=') else body
    ensures out == body + Fill(|body|)
  {
    if |body| % 4 == 0 {
      assert body + "" == body;
    } else {
      var n := 4 - |body| % 4;
      assert seq(n, _ => '=') == Fill(|body|);
    }
  }

  method Base64Encode(raw: Bytes, out0: string) returns (ret: int, out: string)
    ensures ret == 0
    ensures out == out0 + Codes(raw, 0) + Fill(|out0| + |Codes(raw, 0)|)
    ensures |out| % 4 == 0 && forall i | |out0| + |Codes(raw, 0)| <= i < |out| :: out[i] == '='
    ensures |out| < |out0| + |Codes(raw, 0)| + 4
    ensures out0 == "" ==> out == Rfc4648(raw)
  {
    hide Codes, Code, Fill, Padding;
    out := out0;
    var len := |raw|;
    var i := 0;
    while i < len
      invariant 0 <= i <= len
      invariant out + Codes(raw, i) == out0 + Codes(raw, 0)
    {
      CodesStep(raw, i);
      ghost var before := out;
      out := out + [Code(raw[i] as int / 4)];
      if i + 1 >= len {
        out := out + [Code(raw[i] as int % 4 * 16)];
        assert out == before + Codes(raw, i);
        break;
      }
      out := out + [Code(raw[i] as int % 4 * 16 + raw[i + 1] as int / 16)];
      if i + 2 >= len {
        out := out + [Code(raw[i + 1] as int % 16 * 4)];
        assert out == before + Codes(raw, i);
        break;
      } else {
        out := out + [Code(raw[i + 1] as int % 16 * 4 + raw[i + 2] as int / 64)];
      }
      out := out + [Code(raw[i + 2] as int % 64)];
      assert out + Codes(raw, i + 3) == before + Codes(raw, i);
      i := i + 3;
    }
    CodesEnd(raw);
    assert out == out0 + Codes(raw, 0);
    len := |out|;
    ghost var body := out;
    if len % 4 != 0 {
      out := out + seq(4 - len % 4, _ => '=');
    }
    FillIs(body, out);
    EncodedLength(raw);
    assert "" + Codes(raw, 0) == Codes(raw, 0);
    ret := 0;
  }

  // ---------- decoding ----------

  /** The bytes decoded from `x[i..]`. A padded group gives one byte more than it
      encodes, and ends the decoding. */
  function Decoded(x: string, i: nat): string
    requires |x| % 4 == 0 && i % 4 == 0 && i <= |x|
    decreases |x| - i
  {
    if i == |x| then ""
    else
      var x0, x1, x2, x3 := Sextet(x[i]), Sextet(x[i + 1]), Sextet(x[i + 2]), Sextet(x[i + 3]);
      var b0 := ByteChar(x0 * 4 + x1 / 16);
      if x[i + 2] == '=' then [b0, ByteChar(x1 % 16 * 16)]
      else
        var b1 := ByteChar(x1 % 16 * 16 + x2 / 4);
        if x[i + 3] == '=' then [b0, b1, ByteChar(x2 % 4 * 64)]
        else [b0, b1, ByteChar(x2 % 4 * 64 + x3)] + Decoded(x, i + 4)
  }

  function Decode(x: string): Option<string> {
    if |x| == 0 || |x| % 4 != 0 then None else Some(Decoded(x, 0))
  }

  lemma DecodedStep(x: string, i: nat)
    requires |x| % 4 == 0 && i % 4 == 0 && i + 4 <= |x|
    ensures var x0, x1, x2, x3 := Sextet(x[i]), Sextet(x[i + 1]), Sextet(x[i + 2]), Sextet(x[i + 3]);
            var b0, b1, b2 := ByteChar(x0 * 4 + x1 / 16), ByteChar(x1 % 16 * 16 + x2 / 4), ByteChar(x2 % 4 * 64 + x3);
            Decoded(x, i) ==
              if x[i + 2] == '=' then [b0, ByteChar(x1 % 16 * 16)]
              else if x[i + 3] == '=' then [b0, b1, ByteChar(x2 % 4 * 64)]
              else [b0, b1, b2] + Decoded(x, i + 4)
  {
    hide Sextet, ByteChar;
  }

  lemma DecodedEnd(x: string)
    requires |x| % 4 == 0
    ensures Decoded(x, |x|) == ""
  {
  }

  lemma Push(out: string, a: char, b: char, c: char, rest: string)
    ensures out + [a] + [b] == out + [a, b]
    ensures out + [a] + [b] + [c] == out + [a, b, c]
    ensures out + [a, b, c] + rest == out + ([a, b, c] + rest)
  {
  }

  method Base64Decode(raw: string, out0: string) returns (ret: int, out: string)
    ensures Decode(raw) == None <==> |raw| == 0 || |raw| % 4 != 0
    ensures Decode(raw) == None ==> ret == -1 && out == out0
    ensures Decode(raw).Some? ==> ret == 0 && out == Decode(raw).value
  {
    hide Sextet, Decoded, ByteChar;
    out := out0;
    var len := |raw|;
    if len == 0 || len % 4 != 0 {
      return -1, out;
    }
    out := "";
    var i := 0;
    assert "" + Decoded(raw, 0) == Decoded(raw, 0);
    while i < len
      invariant 0 <= i <= len && i % 4 == 0
      invariant out + Decoded(raw, i) == Decoded(raw, 0)
    {
      DecodedStep(raw, i);
      ghost var before := out;
      var b0 := ByteChar(Sextet(raw[i]) * 4 + Sextet(raw[i + 1]) / 16);
      out := out + [b0];
      if raw[i + 2] == '=' {
        var last := ByteChar(Sextet(raw[i + 1]) % 16 * 16);
        Push(before, b0, last, last, "");
        out := out + [last];
        break;
      }
      var b1 := ByteChar(Sextet(raw[i + 1]) % 16 * 16 + Sextet(raw[i + 2]) / 4);
      out := out + [b1];
      if raw[i + 3] == '=' {
        var last := ByteChar(Sextet(raw[i + 2]) % 4 * 64);
        Push(before, b0, b1, last, "");
        out := out + [last];
        break;
      }
      var b2 := ByteChar(Sextet(raw[i + 2]) % 4 * 64 + Sextet(raw[i + 3]));
      Push(before, b0, b1, b2, Decoded(raw, i + 4));
      out := out + [b2];
      i := i + 4;
    }
    DecodedEnd(raw);
    assert i >= len ==> out + "" == out;
    ret := 0;
  }

  // ---------- texts no encoder makes ----------

  lemma {:induction false} DecodedSlash(x: string, k: nat, i: nat)
    requires |x| % 4 == 0 && i % 4 == 0 && i <= |x| && k < |x|
    requires x[k] !in TABLE && x[k] != '='
    ensures Decoded(x[k := '/'], i) == Decoded(x, i)
    decreases |x| - i
  {
    hide Decoded, Sextet, ByteChar;
    var y := x[k := '/'];
    if i < |x| {
      DecodedSlash(x, k, i + 4);
      DecodedStep(x, i);
      DecodedStep(y, i);
      ForeignSextet(x[k]);
    } else {
      DecodedEnd(x);
      DecodedEnd(y);
    }
  }

  lemma ForeignSextet(c: char)
    requires c !in TABLE
    ensures Sextet(c) == 63 == Sextet('/')
  {
    FindCharSpec(TABLE, c, 0);
    TableAt(63);
    SextetOfCode(63);
  }

  /** The decoder takes any character that is not in the alphabet for a '/'. */
  lemma ForeignReadsSlash(x: string, k: nat)
    requires k < |x| && x[k] !in TABLE && x[k] != '='
    ensures Decode(x[k := '/']) == Decode(x)
  {
    hide Decoded;
    if |x| % 4 == 0 {
      DecodedSlash(x, k, 0);
    }
  }

  lemma {:induction false} DecodedPrefix(x: string, rest: string, i: nat, k: nat)
    requires |x| % 4 == 0 && |rest| % 4 == 0 && i % 4 == 0 && k % 4 == 0 && i <= k < |x|
    requires x[k + 2] == '=' || x[k + 3] == '='
    ensures Decoded(x + rest, i) == Decoded(x, i)
    decreases k - i
  {
    hide Decoded, Sextet, ByteChar;
    DecodedStep(x, i);
    DecodedStep(x + rest, i);
    assert forall j | i <= j < i + 4 :: (x + rest)[j] == x[j];
    if i < k {
      DecodedPrefix(x, rest, i + 4, k);
    }
  }

  /** It stops behind the first group of four with a '=' in its third or fourth place. */
  lemma PaddingEnds(x: string, rest: string)
    requires |x| >= 4 && |x| % 4 == 0 && |rest| % 4 == 0 && (x[|x| - 2] == '=' || x[|x| - 1] == '=')
    ensures Decode(x + rest) == Decode(x)
  {
    hide Decoded;
    DecodedPrefix(x, rest, 0, |x| - 4);
  }

  // ---------- round trips ----------

  /** The extra byte of a padded text: zero, because the encoder leaves the pad bits zero. */
  function ZeroByte(n: nat): string {
    if n % 3 == 0 then "" else [0 as char]
  }

  lemma BytesOfSextets(a: nat, b: nat, c: nat)
    requires a < 256 && b < 256 && c < 256
    ensures a / 4 * 4 + (a % 4 * 16 + b / 16) / 16 == a
    ensures (a % 4 * 16 + b / 16) % 16 * 16 + (b % 16 * 4 + c / 64) / 4 == b
    ensures (b % 16 * 4 + c / 64) % 4 * 64 + c % 64 == c
    ensures (a % 4 * 16) / 16 == a % 4 && (a % 4 * 16) % 16 * 16 == 0
    ensures (b % 16 * 4) / 4 == b % 16 && (b % 16 * 4) % 4 * 64 == 0
  {
  }

  lemma SextetsOfBytes(x0: nat, x1: nat, x2: nat, x3: nat)
    requires x0 < 64 && x1 < 64 && x2 < 64 && x3 < 64
    ensures (x0 * 4 + x1 / 16) / 4 == x0
    ensures (x0 * 4 + x1 / 16) % 4 * 16 + (x1 % 16 * 16 + x2 / 4) / 16 == x1
    ensures (x1 % 16 * 16 + x2 / 4) % 16 * 4 + (x2 % 4 * 64 + x3) / 64 == x2
    ensures (x2 % 4 * 64 + x3) % 64 == x3
  {
  }

  /** Decoding four code characters that stand for three bytes. */
  lemma DecodedWhole(x: string, k: nat, a: char, b: char, c: char)
    requires |x| % 4 == 0 && k % 4 == 0 && k + 4 <= |x|
    requires a as int < 256 && b as int < 256 && c as int < 256
    requires x[k] == Code(a as int / 4) && x[k + 1] == Code(a as int % 4 * 16 + b as int / 16)
    requires x[k + 2] == Code(b as int % 16 * 4 + c as int / 64) && x[k + 3] == Code(c as int % 64)
    ensures Decoded(x, k) == [a, b, c] + Decoded(x, k + 4)
  {
    hide Sextet, Code, Decoded;
    DecodedStep(x, k);
    SextetOfCode(a as int / 4);
    SextetOfCode(a as int % 4 * 16 + b as int / 16);
    SextetOfCode(b as int % 16 * 4 + c as int / 64);
    SextetOfCode(c as int % 64);
    BytesOfSextets(a as int, b as int, c as int);
  }

  lemma DecodedTwo(x: string, k: nat, a: char, b: char)
    requires |x| % 4 == 0 && k % 4 == 0 && k + 4 <= |x|
    requires a as int < 256 && b as int < 256
    requires x[k] == Code(a as int / 4) && x[k + 1] == Code(a as int % 4 * 16 + b as int / 16)
    requires x[k + 2] == Code(b as int % 16 * 4) && x[k + 3] == '='
    ensures Decoded(x, k) == [a, b, 0 as char]
  {
    hide Sextet, Code, Decoded;
    DecodedStep(x, k);
    SextetOfCode(a as int / 4);
    SextetOfCode(a as int % 4 * 16 + b as int / 16);
    SextetOfCode(b as int % 16 * 4);
    BytesOfSextets(a as int, b as int, 0);
  }

  lemma DecodedOne(x: string, k: nat, a: char)
    requires |x| % 4 == 0 && k % 4 == 0 && k + 4 <= |x|
    requires a as int < 256
    requires x[k] == Code(a as int / 4) && x[k + 1] == Code(a as int % 4 * 16)
    requires x[k + 2] == '='
    ensures Decoded(x, k) == [a, 0 as char]
  {
    hide Sextet, Code, Decoded;
    DecodedStep(x, k);
    SextetOfCode(a as int / 4);
    SextetOfCode(a as int % 4 * 16);
    BytesOfSextets(a as int, 0, 0);
  }

  lemma InMiddle(pre: string, mid: string, rest: string, pad: string)
    ensures pre + (mid + rest) + pad == (pre + mid) + rest + pad
    ensures forall j | 0 <= j < |mid| :: (pre + (mid + rest) + pad)[|pre| + j] == mid[j]
  {
  }

  lemma BeforePad(pre: string, mid: string, pad: string)
    requires |mid| + |pad| == 4
    ensures forall j | 0 <= j < |mid| :: (pre + mid + pad)[|pre| + j] == mid[j]
    ensures forall j | 0 <= j < |pad| :: (pre + mid + pad)[|pre| + |mid| + j] == pad[j]
  {
  }

  lemma RoundTripPadded(pre: string, s: Bytes, i: nat)
    requires |pre| % 4 == 0 && i % 3 == 0 && i < |s| < i + 3
    requires |pre + Codes(s, i) + Padding(|s|)| % 4 == 0
    ensures Decoded(pre + Codes(s, i) + Padding(|s|), |pre|) == s[i..] + ZeroByte(|s|)
  {
    hide Code, Codes, Decoded;
    var x, n := pre + Codes(s, i) + Padding(|s|), |pre|;
    CodesStep(s, i);
    BeforePad(pre, Codes(s, i), Padding(|s|));
    var last := |Padding(|s|)| - 1;
    assert x[n] == x[n + 0] && x[n + 1] == Codes(s, i)[1];
    assert x[n + 3] == x[n + |Codes(s, i)| + last] == Padding(|s|)[last] == '=';
    if i + 1 == |s| {
      assert x[n + 2] == x[n + |Codes(s, i)| + 0] == Padding(|s|)[0] == '=';
      DecodedOne(x, n, s[i]);
      assert s[i..] == [s[i]];
    } else {
      assert x[n + 2] == Codes(s, i)[2];
      DecodedTwo(x, n, s[i], s[i + 1]);
      assert s[i..] == [s[i], s[i + 1]];
    }
  }

  lemma {:induction false} RoundTripFrom(pre: string, s: Bytes, i: nat)
    requires |pre| % 4 == 0 && i % 3 == 0 && i <= |s|
    ensures |pre + Codes(s, i) + Padding(|s|)| % 4 == 0
    ensures Decoded(pre + Codes(s, i) + Padding(|s|), |pre|) == s[i..] + ZeroByte(|s|)
    decreases |s| - i, 1
  {
    hide Code, Codes, Decoded;
    var pad := Padding(|s|);
    var x := pre + Codes(s, i) + pad;
    CodesLength(s, i);
    CodesEnd(s);
    if i == |s| {
      DecodedEnd(x);
    } else if |s| < i + 3 {
      RoundTripPadded(pre, s, i);
    } else {
      RoundTripWhole(pre, s, i);
    }
  }

  lemma {:induction false} RoundTripWhole(pre: string, s: Bytes, i: nat)
    requires |pre| % 4 == 0 && i % 3 == 0 && i + 3 <= |s|
    requires |pre + Codes(s, i) + Padding(|s|)| % 4 == 0
    ensures Decoded(pre + Codes(s, i) + Padding(|s|), |pre|) == s[i..] + ZeroByte(|s|)
    decreases |s| - i, 0
  {
    hide Code, Codes, Decoded, Padding, ZeroByte;
    var pad, rest := Padding(|s|), Codes(s, i + 3);
    var x := pre + Codes(s, i) + pad;
    CodesStep(s, i);
    var four := [Code(s[i] as int / 4), Code(s[i] as int % 4 * 16 + s[i + 1] as int / 16),
                 Code(s[i + 1] as int % 16 * 4 + s[i + 2] as int / 64), Code(s[i + 2] as int % 64)];
    InMiddle(pre, four, rest, pad);
    assert x == pre + (four + rest) + pad;
    assert x[|pre| + 0] == four[0] && x[|pre| + 1] == four[1] && x[|pre| + 2] == four[2] && x[|pre| + 3] == four[3];
    RoundTripFrom(pre + four, s, i + 3);
    DecodedWhole(x, |pre|, s[i], s[i + 1], s[i + 2]);
    assert s[i..] == [s[i], s[i + 1], s[i + 2]] + s[i + 3..];
  }

  /** The exact round trip: a padded text decodes to the bytes and one zero byte. */
  lemma RoundTrip(s: Bytes)
    requires s != ""
    ensures Decode(Rfc4648(s)) == Some(s + ZeroByte(|s|))
  {
    hide Codes, Decoded;
    RoundTripFrom("", s, 0);
    EncodedLength(s);
    assert "" + Codes(s, 0) + Padding(|s|) == Rfc4648(s);
    assert s[0..] == s;
  }

  lemma {:induction false} DecodedIsBytes(x: string, i: nat)
    requires |x| % 4 == 0 && i % 4 == 0 && i <= |x|
    ensures IsBytes(Decoded(x, i))
    decreases |x| - i
  {
    hide Sextet;
    if i < |x| {
      DecodedIsBytes(x, i + 4);
    }
  }

  /** Encoding undoes decoding on whole groups of four alphabet characters. */
  lemma {:induction false} EncodeDecodedFrom(pre: Bytes, x: string, i: nat)
    requires |x| % 4 == 0 && i % 4 == 0 && i <= |x|
    requires forall k | i <= k < |x| :: InAlphabet(x[k])
    ensures |Decoded(x, i)| == (|x| - i) / 4 * 3
    ensures IsBytes(pre + Decoded(x, i))
    ensures Codes(pre + Decoded(x, i), |pre|) == x[i..]
    decreases |x| - i
  {
    hide Sextet, Code, Codes, Decoded, InAlphabet;
    DecodedIsBytes(x, i);
    if i == |x| {
      DecodedEnd(x);
      CodesEnd(pre);
      assert pre + "" == pre;
    } else {
      var s: Bytes := pre + Decoded(x, i);
      DecodedGroup(x, i);
      var three := Decoded(x, i)[..3];
      var pre': Bytes := pre + three;
      assert Decoded(x, i) == three + Decoded(x, i + 4);
      EncodeDecodedFrom(pre', x, i + 4);
      assert s == pre' + Decoded(x, i + 4);
      CodesOfThree(s, |pre|, x[i], x[i + 1], x[i + 2], x[i + 3]);
      assert x[i..] == [x[i], x[i + 1], x[i + 2], x[i + 3]] + x[i + 4..];
    }
  }

  lemma DecodedGroup(x: string, i: nat)
    requires |x| % 4 == 0 && i % 4 == 0 && i + 4 <= |x|
    requires forall k | i <= k < |x| :: InAlphabet(x[k])
    ensures var x0, x1, x2, x3 := Sextet(x[i]), Sextet(x[i + 1]), Sextet(x[i + 2]), Sextet(x[i + 3]);
            && |Decoded(x, i)| == 3 + |Decoded(x, i + 4)|
            && Decoded(x, i) == Decoded(x, i)[..3] + Decoded(x, i + 4)
            && Decoded(x, i)[..3] ==
                 [ByteChar(x0 * 4 + x1 / 16), ByteChar(x1 % 16 * 16 + x2 / 4), ByteChar(x2 % 4 * 64 + x3)]
  {
    hide Sextet, ByteChar, InAlphabet, Decoded;
    DecodedStep(x, i);
    CodeOfSextet(x[i + 2]);
    CodeOfSextet(x[i + 3]);
  }

  lemma CodesOfThree(s: Bytes, k: nat, c0: char, c1: char, c2: char, c3: char)
    requires k + 3 <= |s|
    requires InAlphabet(c0) && InAlphabet(c1) && InAlphabet(c2) && InAlphabet(c3)
    requires var x0, x1, x2, x3 := Sextet(c0), Sextet(c1), Sextet(c2), Sextet(c3);
             s[k] == ByteChar(x0 * 4 + x1 / 16) && s[k + 1] == ByteChar(x1 % 16 * 16 + x2 / 4)
             && s[k + 2] == ByteChar(x2 % 4 * 64 + x3)
    ensures Codes(s, k) == [c0, c1, c2, c3] + Codes(s, k + 3)
  {
    hide Sextet, Code, Codes, InAlphabet;
    CodesStep(s, k);
    SextetsOfBytes(Sextet(c0), Sextet(c1), Sextet(c2), Sextet(c3));
    CodeOfSextet(c0);
    CodeOfSextet(c1);
    CodeOfSextet(c2);
    CodeOfSextet(c3);
  }

  lemma WholeGroups(n: nat)
    requires n % 4 == 0
    ensures n / 4 * 3 == 3 * n / 4 && Padding(n / 4 * 3) == ""
  {
  }

  /** With RoundTrip: on whole groups, encoding and decoding are inverse both ways. */
  lemma RoundTripText(x: string)
    requires x != "" && |x| % 4 == 0 && forall k | 0 <= k < |x| :: InAlphabet(x[k])
    ensures Decode(x).Some?
    ensures var s := Decode(x).value;
            |s| == 3 * |x| / 4 && IsBytes(s) && Rfc4648(s) == x
  {
    hide Codes, Decoded, InAlphabet, Padding;
    EncodeDecodedFrom("", x, 0);
    WholeGroups(|x|);
    assert "" + Decoded(x, 0) == Decoded(x, 0);
    assert x[0..] == x && x + "" == x;
  }

  /** What an encoded text is made of. */
  lemma {:induction false} CodesAlphabet(s: Bytes, i: nat)
    requires i <= |s|
    ensures forall k | 0 <= k < |Codes(s, i)| :: InAlphabet(Codes(s, i)[k])
    decreases |s| - i
  {
    hide Group, Digit, Code, Codes;
    if i < |s| {
      CodesStep(s, i);
      if i + 3 <= |s| {
        CodesAlphabet(s, i + 3);
      }
      forall k | 0 <= k < |Codes(s, i)|
        ensures InAlphabet(Codes(s, i)[k])
      {
        if k < 4 {
          CodeInAlphabet(s, i, k);
        } else {
          assert Codes(s, i)[k] == Codes(s, i + 3)[k - 4];
        }
      }
    } else {
      CodesEnd(s);
    }
  }

  lemma CodeInAlphabet(s: Bytes, i: nat, k: nat)
    requires i < |s| && k < 4 && k < |Codes(s, i)|
    ensures InAlphabet(Codes(s, i)[k])
  {
    hide Codes;
    CodesStep(s, i);
  }
}
