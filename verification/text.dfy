/** Bytes, characters and the handful of .NET string operations the protocol
    engine leans on (`Encoding.UTF8`, `int.ToString`, `int.Parse`, `Trim`,
    `Split`, `IndexOf`, `Replace`, `PadLeft`), each stated as the .NET
    library documents it. Searches and prefix tests compare characters
    ordinally. */
module Text {
  import opened Wrappers

  type byte = bv8

  const MinInt32: int := -0x8000_0000
  const MaxInt32: int := 0x7FFF_FFFF

  /** The byte with value `v`. */
  function ByteOf(v: int): (b: byte)
    requires 0 <= v < 0x100
    ensures b as int == v
  {
    v as byte
  }

  /** The header terminator CR LF CR LF, as text and as bytes. */
  const CrLfCrLf: string := "\r\n\r\n"
  const CrLfCrLfBytes: seq<byte> := [0x0D, 0x0A, 0x0D, 0x0A]

  predicate IsAscii(s: string) {
    forall i :: 0 <= i < |s| ==> s[i] as int < 0x80
  }

  // ---------------------------------------------------------------------
  // Encoding.UTF8

  /** UTF-8 encoding of one Unicode scalar value. */
  function EncodeChar(c: char): (r: seq<byte>)
    ensures 1 <= |r| <= 4
    ensures c as int < 0x80 <==> |r| == 1
    ensures c as int < 0x80 ==> r[0] as int == c as int
  {
    var n := c as int;
    if n < 0x80 then [ByteOf(n)]
    else if n < 0x800 then
      [Lead(0xC0, n, 0x40, 0x20), Continuation(n, 1)]
    else if n < 0x1_0000 then
      [Lead(0xE0, n, 0x1000, 0x10), Continuation(n, 0x40), Continuation(n, 1)]
    else
      [Lead(0xF0, n, 0x4_0000, 0x8), Continuation(n, 0x1000), Continuation(n, 0x40), Continuation(n, 1)]
  }

  /** A lead byte: the length marker plus the bits of `n` above `unit`. */
  function Lead(mark: nat, n: nat, unit: nat, room: nat): byte
    requires unit > 0 && n < unit * room && mark + room <= 0x100
  {
    DivBelow(n, unit, room);
    ByteOf(mark + n / unit)
  }

  /** A continuation byte: six bits of `n` starting at `unit`. */
  function Continuation(n: nat, unit: nat): byte
    requires unit > 0
  {
    ByteOf(0x80 + n / unit % 0x40)
  }

  lemma DivBelow(n: nat, unit: nat, room: nat)
    requires unit > 0 && n < unit * room
    ensures n / unit < room
  {
  }

  /** `Encoding.UTF8.GetBytes(s)`. ASCII text encodes one byte per character. */
  function Utf8(s: string): (r: seq<byte>)
    ensures |r| >= |s|
    ensures IsAscii(s) ==> |r| == |s| && forall i :: 0 <= i < |s| ==> r[i] as int == s[i] as int
  {
    if |s| == 0 then [] else EncodeChar(s[0]) + Utf8(s[1..])
  }

  lemma {:induction false} Utf8Append(a: string, b: string)
    ensures Utf8(a + b) == Utf8(a) + Utf8(b)
  {
    if |a| == 0 {
      assert a + b == b;
    } else {
      assert (a + b)[1..] == a[1..] + b;
      Utf8Append(a[1..], b);
    }
  }

  /** `s.Length` in C#: the number of UTF-16 code units, two for a character
      outside the Basic Multilingual Plane. */
  function Utf16Length(s: string): (n: nat)
    ensures |s| <= n <= 2 * |s|
    ensures IsAscii(s) ==> n == |s|
  {
    if |s| == 0 then 0 else (if s[0] as int < 0x1_0000 then 1 else 2) + Utf16Length(s[1..])
  }

  /** `Length` adds up over concatenation. */
  lemma {:induction false} Utf16Append(a: string, b: string)
    ensures Utf16Length(a + b) == Utf16Length(a) + Utf16Length(b)
  {
    if |a| > 0 {
      assert (a + b)[0] == a[0];
      assert (a + b)[1..] == a[1..] + b;
      Utf16Append(a[1..], b);
    } else {
      assert a + b == b;
    }
  }

  /** Decoding received bytes to text: exact for ASCII bytes; any byte of 0x80
      or above stands for the replacement character U+FFFD. */
  function Decode(bs: seq<byte>): (s: string)
    ensures |s| == |bs|
    ensures forall i :: 0 <= i < |bs| && bs[i] < 0x80 ==> s[i] as int == bs[i] as int
  {
    seq(|bs|, i requires 0 <= i < |bs| => if bs[i] < 0x80 then bs[i] as char else '\U{FFFD}')
  }

  lemma DecodeUtf8(s: string)
    requires IsAscii(s)
    ensures Decode(Utf8(s)) == s
  {
  }

  lemma DecodeSlice(bs: seq<byte>, i: nat, j: nat)
    requires i <= j <= |bs|
    ensures Decode(bs)[i..j] == Decode(bs[i..j])
  {
  }

  /** The terminator encodes to its four bytes and decodes back. */
  lemma TerminatorCodes()
    ensures Utf8(CrLfCrLf) == CrLfCrLfBytes && Decode(CrLfCrLfBytes) == CrLfCrLf
  {
    assert IsAscii(CrLfCrLf);
    DecodeUtf8(CrLfCrLf);
  }

  lemma DecodeAppend(a: seq<byte>, b: seq<byte>)
    ensures Decode(a + b) == Decode(a) + Decode(b)
  {
    var l, r := Decode(a + b), Decode(a) + Decode(b);
    forall i | 0 <= i < |l|
      ensures l[i] == r[i]
    {
      if i >= |a| {
        assert (a + b)[i] == b[i - |a|];
      }
    }
  }

  lemma AsciiConcat(a: string, b: string)
    requires IsAscii(a) && IsAscii(b)
    ensures IsAscii(a + b)
  {
    forall i | 0 <= i < |a + b|
      ensures (a + b)[i] as int < 0x80
    {
      if i >= |a| {
        assert (a + b)[i] == b[i - |a|];
      }
    }
  }

  /** The parts of ASCII text are ASCII. */
  lemma AsciiParts(a: string, b: string)
    ensures IsAscii(a + b) ==> IsAscii(a) && IsAscii(b)
  {
    if IsAscii(a + b) {
      forall i | 0 <= i < |b| ensures b[i] as int < 0x80 {
        assert b[i] == (a + b)[|a| + i];
      }
      forall i | 0 <= i < |a| ensures a[i] as int < 0x80 {
        assert a[i] == (a + b)[i];
      }
    }
  }

  /** C#'s `Length` never exceeds the UTF-8 byte count, and the two agree
      exactly on ASCII text: every other character takes more UTF-8 bytes
      than UTF-16 units. */
  lemma {:induction false} Utf16BelowUtf8(s: string)
    ensures Utf16Length(s) <= |Utf8(s)|
    ensures Utf16Length(s) == |Utf8(s)| <==> IsAscii(s)
  {
    if |s| > 0 {
      Utf16BelowUtf8(s[1..]);
      var c := s[0];
      if c as int >= 0x80 {
        assert |EncodeChar(c)| >= 2;
        assert c as int >= 0x1_0000 ==> |EncodeChar(c)| == 4;
      } else {
        assert IsAscii(s) <==> IsAscii(s[1..]) by {
          if IsAscii(s[1..]) {
            forall i | 0 <= i < |s| ensures s[i] as int < 0x80 {
              if i > 0 { assert s[i] == s[1..][i - 1]; }
            }
          }
        }
      }
    }
  }

  // ---------------------------------------------------------------------
  // Numbers

  predicate IsDigit(c: char) { '0' <= c <= '9' }

  predicate AllDigits(s: string) { forall i :: 0 <= i < |s| ==> IsDigit(s[i]) }

  function DigitChar(d: nat): char
    requires d < 10
  {
    ('0' as int + d) as char
  }

  /** `n.ToString()` for a non-negative `n`. */
  function Decimal(n: nat): (r: string)
    ensures |r| >= 1 && AllDigits(r) && IsAscii(r)
    ensures n < 10 <==> |r| == 1
  {
    if n < 10 then [DigitChar(n)] else Decimal(n / 10) + [DigitChar(n % 10)]
  }

  /** A string of digits holds no other character. */
  lemma DigitsExclude(d: string, c: char)
    requires AllDigits(d) && !IsDigit(c)
    ensures c !in d
  {
    forall i | 0 <= i < |d| ensures d[i] != c {
      assert IsDigit(d[i]);
    }
  }

  /** `ToString()` of a signed integer: a minus sign ahead of the digits of
      a negative value. */
  function IntText(i: int): (r: string)
    ensures IsAscii(r) && |r| >= 1
    ensures i >= 0 <==> AllDigits(r)
  {
    if i >= 0 then Decimal(i)
    else
      AsciiConcat("-", Decimal(-i));
      assert !IsDigit(("-" + Decimal(-i))[0]);
      "-" + Decimal(-i)
  }

  /** The value of a non-empty string of decimal digits. */
  function DigitsValue(s: string): nat
    requires AllDigits(s)
  {
    if |s| == 0 then 0 else DigitsValue(s[..|s| - 1]) * 10 + (s[|s| - 1] as int - '0' as int)
  }

  lemma {:induction false} DigitsValueOfDecimal(n: nat)
    ensures DigitsValue(Decimal(n)) == n
  {
    if n >= 10 {
      var d := Decimal(n);
      assert d[..|d| - 1] == Decimal(n / 10);
      DigitsValueOfDecimal(n / 10);
    }
  }

  /** The white space `int.Parse` skips (NumberStyles.Integer). */
  predicate IsNumberWhite(c: char) { c == ' ' || '\t' <= c <= '\r' }

  /** `char.IsWhiteSpace`, the set `string.Trim()` removes. */
  predicate IsWhiteSpace(c: char) {
    || c == ' ' || '\t' <= c <= '\r' || c == '\U{0085}' || c == '\U{00A0}' || c == '\U{1680}'
    || '\U{2000}' <= c <= '\U{200A}' || c == '\U{2028}' || c == '\U{2029}' || c == '\U{202F}'
    || c == '\U{205F}' || c == '\U{3000}'
  }

  /** `int.Parse(s)` with the signs '-' and '+': optional surrounding white
      space, an optional sign, at least one digit, and a value that fits in
      32 bits, followed by any number of NUL characters, which `int.Parse`
      accepts at the very end; anything else throws (None). */
  function ParseInt32(s: string): (r: Option<int>)
    ensures r.Some? ==> MinInt32 <= r.value <= MaxInt32
  {
    ParseTrimmed(Trim(TrimEnd(s, '\0'), IsNumberWhite))
  }

  /** The parse of the text left after the white space is trimmed. */
  function ParseTrimmed(t: string): Option<int> {
    if |t| == 0 then None
    else
      var digits := if t[0] == '-' || t[0] == '+' then t[1..] else t;
      if |digits| == 0 || !AllDigits(digits) then None
      else
        var magnitude: int := DigitsValue(digits);
        var v := if t[0] == '-' then -magnitude else magnitude;
        if MinInt32 <= v <= MaxInt32 then Some(v) else None
  }

  lemma ParseDecimal(n: nat)
    requires n <= MaxInt32
    ensures ParseInt32(Decimal(n)) == Some(n)
  {
    UnsignedShape(n);
    ParseWhite("", IntText(n), "", "");
    assert "" + IntText(n) + "" + "" == Decimal(n);
  }

  /** The text of any integer, surrounded by number white space and
      followed by NUL characters, parses back to the integer exactly when it
      fits in 32 bits. */
  lemma ParseSigned(lead: string, n: int, trail: string, nuls: string)
    requires forall i :: 0 <= i < |lead| ==> IsNumberWhite(lead[i])
    requires forall i :: 0 <= i < |trail| ==> IsNumberWhite(trail[i])
    requires forall i :: 0 <= i < |nuls| ==> nuls[i] == '\0'
    ensures ParseInt32(lead + IntText(n) + trail + nuls) == if MinInt32 <= n <= MaxInt32 then Some(n) else None
  {
    if n >= 0 {
      ParseUnsigned(lead, n, trail, nuls);
    } else {
      ParseMinus(lead, n, trail, nuls);
    }
  }

  lemma ParseUnsigned(lead: string, n: int, trail: string, nuls: string)
    requires forall i :: 0 <= i < |lead| ==> IsNumberWhite(lead[i])
    requires forall i :: 0 <= i < |trail| ==> IsNumberWhite(trail[i])
    requires forall i :: 0 <= i < |nuls| ==> nuls[i] == '\0'
    requires n >= 0
    ensures ParseInt32(lead + IntText(n) + trail + nuls) == if n <= MaxInt32 then Some(n) else None
  {
    UnsignedShape(n);
    ParseWhite(lead, IntText(n), trail, nuls);
  }

  /** The digits of a 32-bit number followed by NUL characters parse back
      to the number. */
  lemma ParseNulTail(n: nat, nuls: string)
    requires n <= MaxInt32
    requires forall i :: 0 <= i < |nuls| ==> nuls[i] == '\0'
    ensures ParseInt32(Decimal(n) + nuls) == Some(n)
  {
    var d := Decimal(n);
    assert IntText(n) == d;
    assert "" + d + "" + nuls == d + nuls;
    UnsignedShape(n);
    ParseWhite("", d, "", nuls);
  }

  /** The text of a non-negative number, trimmed or not. */
  lemma UnsignedShape(n: int)
    requires n >= 0
    ensures var p := IntText(n);
      |p| > 0 && !IsNumberWhite(p[0]) && IsDigit(p[|p| - 1])
      && ParseTrimmed(p) == if n <= MaxInt32 then Some(n) else None
  {
    var p := IntText(n);
    assert p == Decimal(n);
    assert IsDigit(p[0]) && IsDigit(p[|p| - 1]);
    ParseTrimmedPlus(n);
  }

  lemma ParseMinus(lead: string, n: int, trail: string, nuls: string)
    requires forall i :: 0 <= i < |lead| ==> IsNumberWhite(lead[i])
    requires forall i :: 0 <= i < |trail| ==> IsNumberWhite(trail[i])
    requires forall i :: 0 <= i < |nuls| ==> nuls[i] == '\0'
    requires n < 0
    ensures ParseInt32(lead + IntText(n) + trail + nuls) == if MinInt32 <= n then Some(n) else None
  {
    MinusShape(n);
    ParseWhite(lead, IntText(n), trail, nuls);
  }

  /** The text of a negative number, trimmed or not. */
  lemma MinusShape(n: int)
    requires n < 0
    ensures var p := IntText(n);
      |p| > 0 && !IsNumberWhite(p[0]) && IsDigit(p[|p| - 1])
      && ParseTrimmed(p) == if MinInt32 <= n then Some(n) else None
  {
    var d := Decimal(-n);
    var p := IntText(n);
    assert p == "-" + d;
    assert p[|p| - 1] == d[|d| - 1];
    ParseTrimmedMinus(-n);
  }

  /** A '+' ahead of the digits is accepted too. */
  lemma ParsePlus(lead: string, n: nat, trail: string, nuls: string)
    requires forall i :: 0 <= i < |lead| ==> IsNumberWhite(lead[i])
    requires forall i :: 0 <= i < |trail| ==> IsNumberWhite(trail[i])
    requires forall i :: 0 <= i < |nuls| ==> nuls[i] == '\0'
    ensures ParseInt32(lead + ("+" + Decimal(n)) + trail + nuls) == if n <= MaxInt32 then Some(n) else None
  {
    PlusShape(n);
    ParseWhite(lead, "+" + Decimal(n), trail, nuls);
  }

  lemma PlusShape(n: nat)
    ensures var p := "+" + Decimal(n);
      |p| > 0 && !IsNumberWhite(p[0]) && IsDigit(p[|p| - 1])
      && ParseTrimmed(p) == if n <= MaxInt32 then Some(n) else None
  {
    var d := Decimal(n);
    var p := "+" + d;
    assert p[|p| - 1] == d[|d| - 1];
    ParseTrimmedPlus(n);
  }

  /** White space around a number, and NUL characters after it, change
      nothing. */
  lemma ParseWhite(lead: string, p: string, trail: string, nuls: string)
    requires forall i :: 0 <= i < |lead| ==> IsNumberWhite(lead[i])
    requires forall i :: 0 <= i < |trail| ==> IsNumberWhite(trail[i])
    requires forall i :: 0 <= i < |nuls| ==> nuls[i] == '\0'
    requires |p| > 0 && !IsNumberWhite(p[0]) && IsDigit(p[|p| - 1])
    ensures ParseInt32(lead + p + trail + nuls) == ParseTrimmed(p)
  {
    var x := lead + p + trail;
    assert x[|x| - 1] != '\0' by {
      if |trail| > 0 {
        assert x[|x| - 1] == trail[|trail| - 1];
      } else {
        assert x[|x| - 1] == p[|p| - 1];
      }
    }
    TrimEndAfter(x, nuls, '\0');
    TrimAround(lead, p, trail, IsNumberWhite);
  }

  /** Trimming `c` off the end of a text that ends in a run of `c` after a
      character that is not `c` leaves exactly that text before the run. */
  lemma TrimEndAfter(x: string, run: string, c: char)
    requires |x| > 0 && x[|x| - 1] != c
    requires forall i :: 0 <= i < |run| ==> run[i] == c
    ensures TrimEnd(x + run, c) == x
  {
    var y := x + run;
    var r := TrimEnd(y, c);
    assert y[|x| - 1] == x[|x| - 1];
    assert r == y[..|x|] == x;
  }

  /** The digits of `m`, once trimmed, unsigned or behind a '+'. */
  lemma ParseTrimmedPlus(m: nat)
    ensures ParseTrimmed(Decimal(m)) == if m <= MaxInt32 then Some(m) else None
    ensures ParseTrimmed("+" + Decimal(m)) == if m <= MaxInt32 then Some(m) else None
  {
    var d := Decimal(m);
    DigitsValueOfDecimal(m);
    assert IsDigit(d[0]);
    assert ("+" + d)[1..] == d;
  }

  /** The digits of `m` behind a '-', once trimmed. */
  lemma ParseTrimmedMinus(m: nat)
    ensures ParseTrimmed("-" + Decimal(m)) == if MinInt32 <= -(m as int) then Some(-(m as int)) else None
  {
    var d := Decimal(m);
    DigitsValueOfDecimal(m);
    assert ("-" + d)[1..] == d;
  }

  /** Every character `drop` keeps survives trimming. */
  lemma TrimKeeps(s: string, drop: char -> bool, i: nat)
    requires i < |s| && !drop(s[i])
    ensures s[i] in Trim(s, drop)
  {
    var a := FirstKept(s, drop, 0);
    var t := s[a..];
    var e := LastKept(t, drop, |s| - a);
    assert a <= i;
    assert t[i - a] == s[i];
    assert i - a < e;
    assert Trim(s, drop)[i - a] == s[i];
  }

  /** A character that is neither number white space, a sign nor a digit
      makes `int.Parse` throw wherever it stands, unless it is a NUL with
      nothing but NULs after it. */
  lemma ParseRejects(s: string, i: nat)
    requires i < |s| && !IsNumberWhite(s[i]) && !IsDigit(s[i]) && s[i] != '-' && s[i] != '+'
    requires exists j :: i <= j < |s| && s[j] != '\0'
    ensures ParseInt32(s) == None
  {
    var u := TrimEnd(s, '\0');
    var k :| i <= k < |s| && s[k] != '\0';
    assert k < |u|;
    assert u[i] == s[i];
    var t := Trim(u, IsNumberWhite);
    TrimKeeps(u, IsNumberWhite, i);
    var j :| 0 <= j < |t| && t[j] == s[i];
    var digits := if t[0] == '-' || t[0] == '+' then t[1..] else t;
    if j > 0 && digits == t[1..] {
      assert digits[j - 1] == s[i];
    } else {
      assert digits[j] == s[i];
    }
  }

  // ---------------------------------------------------------------------
  // Trimming

  /** The first index at or after `from` whose character `drop` keeps. */
  function FirstKept(s: string, drop: char -> bool, from: nat): (k: nat)
    requires from <= |s|
    ensures from <= k <= |s|
    ensures k < |s| ==> !drop(s[k])
    ensures forall i :: from <= i < k ==> drop(s[i])
    decreases |s| - from
  {
    if from < |s| && drop(s[from]) then FirstKept(s, drop, from + 1) else from
  }

  /** The end of the longest prefix of `s[..to]` whose last character `drop` keeps. */
  function LastKept(s: string, drop: char -> bool, to: nat): (k: nat)
    requires to <= |s|
    ensures k <= to
    ensures k > 0 ==> !drop(s[k - 1])
    ensures forall i :: k <= i < to ==> drop(s[i])
  {
    if to > 0 && drop(s[to - 1]) then LastKept(s, drop, to - 1) else to
  }

  /** `s.Trim(...)`: both ends stripped of the characters `drop` accepts. */
  function Trim(s: string, drop: char -> bool): (r: string)
    ensures |r| <= |s|
  {
    var a := FirstKept(s, drop, 0);
    s[a..a + LastKept(s[a..], drop, |s| - a)]
  }

  lemma TrimNothing(s: string, drop: char -> bool)
    requires forall i :: 0 <= i < |s| ==> !drop(s[i])
    ensures Trim(s, drop) == s
  {
  }

  /** Trimming removes exactly a dropped prefix and a dropped suffix around
      a core that starts and ends with kept characters. */
  lemma TrimAround(a: string, core: string, b: string, drop: char -> bool)
    requires forall i :: 0 <= i < |a| ==> drop(a[i])
    requires forall i :: 0 <= i < |b| ==> drop(b[i])
    requires |core| > 0 && !drop(core[0]) && !drop(core[|core| - 1])
    ensures Trim(a + core + b, drop) == core
  {
    var s := a + core + b;
    var k := FirstKept(s, drop, 0);
    assert s[|a|] == core[0];
    assert k == |a|;
    var t := s[k..];
    assert t == core + b;
    var e := LastKept(t, drop, |s| - k);
    assert t[|core| - 1] == core[|core| - 1];
    assert e == |core|;
    assert s[k..k + e] == core;
  }

  /** `s.TrimStart(c)`: the leading copies of `c` removed. */
  function TrimStart(s: string, c: char): (r: string)
    ensures |r| <= |s| && r == s[|s| - |r|..]
    ensures |r| > 0 ==> r[0] != c
    ensures forall i :: 0 <= i < |s| - |r| ==> s[i] == c
  {
    if |s| > 0 && s[0] == c then TrimStart(s[1..], c) else s
  }

  /** `s.TrimEnd(c)`: the trailing copies of `c` removed. */
  function TrimEnd(s: string, c: char): (r: string)
    ensures |r| <= |s| && r == s[..|r|]
    ensures |r| > 0 ==> r[|r| - 1] != c
    ensures forall i :: |r| <= i < |s| ==> s[i] == c
  {
    if |s| > 0 && s[|s| - 1] == c then TrimEnd(s[..|s| - 1], c) else s
  }

  /** `s.Trim(c)`: both ends stripped of the one character `c`. */
  /** The slice `TrimChar` returns, with only `c` outside it. */
  lemma TrimCharFrame(s: string, c: char, t: string, r: string)
    requires |t| <= |s| && t == s[|s| - |t|..] && forall i :: 0 <= i < |s| - |t| ==> s[i] == c
    requires |r| <= |t| && r == t[..|r|] && forall i :: |r| <= i < |t| ==> t[i] == c
    ensures var a := |s| - |t|;
      && 0 <= a <= a + |r| <= |s| && r == s[a..a + |r|]
      && (forall i :: 0 <= i < a ==> s[i] == c) && (forall i :: a + |r| <= i < |s| ==> s[i] == c)
  {
    var a := |s| - |t|;
    assert t == s[a..];
    forall i | a + |r| <= i < |s|
      ensures s[i] == c
    {
      assert s[i] == t[i - a];
    }
  }

  function TrimChar(s: string, c: char): (r: string)
    ensures |r| <= |s|
    ensures |r| > 0 ==> r[0] != c && r[|r| - 1] != c
    ensures exists a, b :: (0 <= a <= b <= |s| && r == s[a..b] &&
                            (forall i :: 0 <= i < a ==> s[i] == c) &&
                            (forall i :: b <= i < |s| ==> s[i] == c))
  {
    var t := TrimStart(s, c);
    var a := |s| - |t|;
    var r := TrimEnd(t, c);
    TrimCharFrame(s, c, t, r);
    r
  }

  /** Trimming adds no character. */
  lemma TrimCharLacks(s: string, c: char, x: char)
    requires x !in s
    ensures x !in TrimChar(s, c)
  {
    var t := TrimStart(s, c);
    assert x !in t by {
      assert t == s[|s| - |t|..];
    }
    var r := TrimEnd(t, c);
    assert r == t[..|r|];
  }

  /** Trimming `c` off a core that neither starts nor ends with it, with
      one `c` after it or one before it. */
  lemma TrimCharAfter(core: string, c: char)
    requires |core| > 0 && core[0] != c && core[|core| - 1] != c
    ensures TrimChar(core + [c], c) == core
  {
    var t := core + [c];
    assert t[0] == core[0];
    assert TrimStart(t, c) == t;
    assert t[|t| - 1] == c && t[..|t| - 1] == core;
    assert TrimEnd(t, c) == TrimEnd(core, c);
    assert TrimEnd(core, c) == core;
  }

  lemma TrimCharBefore(core: string, c: char)
    requires |core| > 0 && core[0] != c && core[|core| - 1] != c
    ensures TrimChar([c] + core, c) == core
  {
    var t := [c] + core;
    assert t[1..] == core;
    assert TrimStart(core, c) == core;
    assert TrimEnd(core, c) == core;
  }

  predicate IsNullOrWhiteSpace(s: Option<string>) {
    s.None? || forall i :: 0 <= i < |s.value| ==> IsWhiteSpace(s.value[i])
  }

  predicate IsNullOrEmpty(s: Option<string>) {
    s.None? || |s.value| == 0
  }

  // ---------------------------------------------------------------------
  // Searching

  predicate OccursAt<T(==)>(s: seq<T>, pat: seq<T>, j: int) {
    0 <= j && j + |pat| <= |s| && s[j..j + |pat|] == pat
  }

  /** The first occurrence found in a prefix stays the first one however
      the text goes on. */
  lemma IndexOfPrefix<T>(a: seq<T>, b: seq<T>, pat: seq<T>, r: nat)
    requires IndexOf(a, pat) == r
    ensures IndexOf(a + b, pat) == r
  {
    var s := a + b;
    assert s[r..r + |pat|] == a[r..r + |pat|];
    assert OccursAt(s, pat, r);
    forall j | 0 <= j < r
      ensures !OccursAt(s, pat, j)
    {
      assert s[j..j + |pat|] == a[j..j + |pat|];
      assert !OccursAt(a, pat, j);
    }
  }

  /** Ordinal `IndexOf`: the first position where `pat` occurs, or -1. */
  function IndexOf<T(==)>(s: seq<T>, pat: seq<T>): (r: int)
    ensures -1 <= r <= |s|
    ensures r >= 0 ==> OccursAt(s, pat, r)
    ensures forall j :: 0 <= j && (r < 0 || j < r) ==> !OccursAt(s, pat, j)
  {
    IndexFrom(s, pat, 0)
  }

  function IndexFrom<T(==)>(s: seq<T>, pat: seq<T>, from: nat): (r: int)
    requires from <= |s| + 1
    ensures -1 <= r <= |s|
    ensures r >= 0 ==> from <= r && OccursAt(s, pat, r)
    ensures forall j :: from <= j && (r < 0 || j < r) ==> !OccursAt(s, pat, j)
    decreases |s| + 1 - from
  {
    if from + |pat| > |s| then -1
    else if s[from..from + |pat|] == pat then from
    else IndexFrom(s, pat, from + 1)
  }

  predicate Contains<T(==)>(s: seq<T>, pat: seq<T>) {
    IndexOf(s, pat) >= 0
  }

  predicate StartsWith<T(==)>(s: seq<T>, prefix: seq<T>) {
    |prefix| <= |s| && s[..|prefix|] == prefix
  }

  // ---------------------------------------------------------------------
  // Split, Join, Replace, PadLeft

  /** The first position of `x` in `s`, or -1. */
  function Find<T(==)>(s: seq<T>, x: T): (r: int)
    ensures -1 <= r < |s|
    ensures r < 0 <==> x !in s
    ensures r >= 0 ==> s[r] == x && x !in s[..r]
  {
    if |s| == 0 then -1
    else if s[0] == x then 0
    else
      var k := Find(s[1..], x);
      assert k >= 0 ==> s[..k + 1] == [s[0]] + s[1..][..k];
      if k < 0 then -1 else k + 1
  }

  /** `s.Split(sep)`: the pieces between separators, empty ones included. */
  function Split<T(==)>(s: seq<T>, sep: T): (parts: seq<seq<T>>)
    ensures |parts| >= 1
    ensures forall k :: 0 <= k < |parts| ==> sep !in parts[k]
    ensures sep !in s ==> parts == [s]
    decreases |s|
  {
    var i := Find(s, sep);
    if i < 0 then [s] else [s[..i]] + Split(s[i + 1..], sep)
  }

  /** `string.Join(sep, parts)`. */
  function Join<T>(parts: seq<seq<T>>, sep: seq<T>): seq<T> {
    if |parts| == 0 then []
    else if |parts| == 1 then parts[0]
    else parts[0] + sep + Join(parts[1..], sep)
  }

  lemma {:induction false} JoinSplit<T>(s: seq<T>, sep: T)
    ensures Join(Split(s, sep), [sep]) == s
    decreases |s|
  {
    var i := Find(s, sep);
    if i >= 0 {
      var a, t := s[..i], s[i + 1..];
      var rest := Split(t, sep);
      assert Split(s, sep) == [a] + rest;
      JoinSplit(t, sep);
      JoinCons(a, rest, [sep]);
      Around(s, i);
    }
  }

  lemma Around<T>(s: seq<T>, i: nat)
    requires i < |s|
    ensures s == s[..i] + [s[i]] + s[i + 1..]
  {
  }

  lemma JoinCons<T>(p: seq<T>, rest: seq<seq<T>>, sep: seq<T>)
    requires |rest| >= 1
    ensures Join([p] + rest, sep) == p + sep + Join(rest, sep)
  {
    assert ([p] + rest)[1..] == rest;
  }

  /** Splitting a join recovers the parts when none of them holds the
      separator. */
  lemma {:induction false} SplitJoin<T>(parts: seq<seq<T>>, sep: T)
    requires |parts| >= 1
    requires forall k :: 0 <= k < |parts| ==> sep !in parts[k]
    ensures Split(Join(parts, [sep]), sep) == parts
  {
    if |parts| > 1 {
      var p := parts[0];
      var rest := Join(parts[1..], [sep]);
      var s := p + [sep] + rest;
      assert Join(parts, [sep]) == s;
      FindAfter(p, sep, rest);
      assert s[..|p|] == p;
      assert s[|p| + 1..] == rest;
      SplitJoin(parts[1..], sep);
    }
  }

  /** Splitting at a first separator that follows a separator-free prefix. */
  lemma SplitAfter<T>(a: seq<T>, sep: T, b: seq<T>)
    requires sep !in a
    ensures Split(a + [sep] + b, sep) == [a] + Split(b, sep)
  {
    var s := a + [sep] + b;
    FindAfter(a, sep, b);
    assert s[..|a|] == a;
    assert s[|a| + 1..] == b;
  }

  /** The first separator after a separator-free prefix is the one right
      after it. */
  lemma {:induction false} FindAfter<T>(p: seq<T>, sep: T, rest: seq<T>)
    requires sep !in p
    ensures Find(p + [sep] + rest, sep) == |p|
  {
    if |p| > 0 {
      var s := p + [sep] + rest;
      assert s[1..] == p[1..] + [sep] + rest;
      FindAfter(p[1..], sep, rest);
    }
  }

  /** A value found neither in the parts nor in the separator is not in
      their join. */
  lemma {:induction false} JoinExcludes<T>(parts: seq<seq<T>>, sep: seq<T>, x: T)
    requires forall k :: 0 <= k < |parts| ==> x !in parts[k]
    requires x !in sep
    ensures x !in Join(parts, sep)
  {
    if |parts| > 1 {
      JoinExcludes(parts[1..], sep, x);
    }
  }

  /** `s.Replace(pat, rep)`: every occurrence, scanning left to right
      without overlap. */
  function Replace<T(==)>(s: seq<T>, pat: seq<T>, rep: seq<T>): seq<T>
    requires |pat| > 0
    decreases |s|
  {
    if |s| < |pat| then s
    else if s[..|pat|] == pat then rep + Replace(s[|pat|..], pat, rep)
    else [s[0]] + Replace(s[1..], pat, rep)
  }

  /** When the only occurrence of `pat` in `s` is a suffix, `Replace` changes
      just that suffix. */
  lemma {:induction false} ReplaceOnlySuffix<T>(h: seq<T>, pat: seq<T>, rep: seq<T>)
    requires |pat| > 0
    requires forall j :: 0 <= j < |h| ==> !OccursAt(h + pat, pat, j)
    ensures Replace(h + pat, pat, rep) == h + rep
    decreases |h|
  {
    var s := h + pat;
    if |h| == 0 {
      assert s == pat;
      assert s[|pat|..] == [];
    } else {
      assert !OccursAt(s, pat, 0);
      assert s[1..] == h[1..] + pat;
      NoOccurrenceTail(h, pat);
      ReplaceOnlySuffix(h[1..], pat, rep);
      assert h + rep == [h[0]] + (h[1..] + rep);
    }
  }

  /** Text without `pat` comes out of `Replace` unchanged. */
  lemma {:induction false} ReplaceAbsent<T>(s: seq<T>, pat: seq<T>, rep: seq<T>)
    requires |pat| > 0 && !Contains(s, pat)
    ensures Replace(s, pat, rep) == s
    decreases |s|
  {
    if |s| >= |pat| {
      assert !OccursAt(s, pat, 0);
      var t := s[1..];
      forall j | 0 <= j
        ensures !OccursAt(t, pat, j)
      {
        if j + |pat| <= |t| {
          assert t[j..j + |pat|] == s[j + 1..j + 1 + |pat|];
          assert !OccursAt(s, pat, j + 1);
        }
      }
      ReplaceAbsent(t, pat, rep);
    }
  }

  /** Dropping the first element keeps the suffix the only occurrence. */
  lemma NoOccurrenceTail<T>(h: seq<T>, pat: seq<T>)
    requires |h| > 0
    requires forall j :: 0 <= j < |h| ==> !OccursAt(h + pat, pat, j)
    ensures forall j :: 0 <= j < |h| - 1 ==> !OccursAt(h[1..] + pat, pat, j)
  {
    var s := h + pat;
    forall j | 0 <= j < |h| - 1
      ensures !OccursAt(h[1..] + pat, pat, j)
    {
      assert !OccursAt(s, pat, j + 1);
      assert (h[1..] + pat)[j..j + |pat|] == s[j + 1..j + 1 + |pat|];
    }
  }

  /** `s.PadLeft(width, c)`. */
  function PadLeft<T>(s: seq<T>, width: nat, c: T): (r: seq<T>)
    ensures |r| == if |s| >= width then |s| else width
    ensures r[|r| - |s|..] == s
    ensures forall i :: 0 <= i < |r| - |s| ==> r[i] == c
  {
    if |s| >= width then s else seq(width - |s|, _ => c) + s
  }
}
