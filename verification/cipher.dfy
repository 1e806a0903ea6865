/** The rotation cipher every wire message goes through
    (EdiManager/EdimaxUtils.cs, `Encrypt` and `Decrypt`).

    The C# code does its arithmetic on 32-bit `int`s. Shift counts are
    masked to their low five bits by the language, which is what `% 32`
    gives here for any integer, negative ones included, so both directions
    are modelled for every rotation the caller may pass. */
module Cipher {
  import opened Text

  /** The rotation the client always encrypts with. */
  const ClientRotation: int := 7

  /** The marker character a decrypted message starts with. */
  const Marker: byte := 0x3C

  /** `(byte)(b + rotate)`: the first byte of an encrypted message. */
  function EncryptFirst(b: byte, rotate: int): (r: byte)
    ensures r as int == (b as int + rotate) % 256
  {
    ByteOf((b as int + rotate) % 256)
  }

  /** The C# `val << shift` on a byte-sized `int`, as a 32-bit pattern. */
  function Shl(b: byte, shift: nat): bv32
    requires shift < 32
  {
    (b as bv32) << shift
  }

  /** Encrypt's fold: the high byte of the 16-bit window plus the low byte,
      truncated by the `(byte)` cast. */
  function AddFold(v: bv32): byte {
    ((((v & 0xff00) >> 8) + (v & 0xff)) & 0xff) as byte
  }

  /** Decrypt's fold: the low byte or-ed with the high byte of the window. */
  function OrFold(v: bv32): byte {
    ((v & 0xff) | ((v & 0xff00) >> 8)) as byte
  }

  /** One later byte: `val << (8 - rotate)`, then the add-fold. */
  function EncryptByte(b: byte, rotate: int): byte {
    AddFold(Shl(b, (8 - rotate) % 32))
  }

  /** One later byte on the way back: `val << rotate`, then the or-fold. */
  function DecryptByte(b: byte, rotate: int): byte {
    OrFold(Shl(b, rotate % 32))
  }

  /** Inside the 16-bit window a shift by at most 8 leaves the two halves
      disjoint, so the add-fold never carries past 255. */
  lemma FoldHalvesDisjoint(b: byte, k: nat)
    requires k <= 8
    ensures var v := Shl(b, k);
      ((v & 0xff00) >> 8) & (v & 0xff) == 0 && ((v & 0xff00) >> 8) + (v & 0xff) <= 0xff
  {
  }

  lemma AddFoldRotates(b: byte, k: nat)
    requires k <= 8
    ensures AddFold(Shl(b, k)) == b.RotateLeft(k)
  {
  }

  lemma OrFoldRotates(b: byte, k: nat)
    requires k <= 8
    ensures OrFold(Shl(b, k)) == b.RotateLeft(k)
  {
  }

  lemma SmallMod(x: int)
    requires 0 <= x < 32
    ensures x % 32 == x
  {
  }

  /** For rotations 0 through 8 the shift-and-fold of `EncryptByte` is a
      rotation left by `8 - rotate` inside the byte. */
  lemma EncryptByteRotates(b: byte, rotate: int)
    requires 0 <= rotate <= 8
    ensures EncryptByte(b, rotate) == b.RotateLeft(8 - rotate)
  {
    var k: nat := 8 - rotate;
    SmallMod(k);
    AddFoldRotates(b, k);
    assert EncryptByte(b, rotate) == AddFold(Shl(b, k));
  }

  lemma DecryptByteRotates(b: byte, rotate: int)
    requires 0 <= rotate <= 8
    ensures DecryptByte(b, rotate) == b.RotateLeft(rotate)
  {
    var k: nat := rotate;
    SmallMod(k);
    OrFoldRotates(b, k);
    assert DecryptByte(b, rotate) == OrFold(Shl(b, k));
  }

  /** `EdimaxUtils.Encrypt(byte[], int)`. */
  function Encrypt(bytes: seq<byte>, rotate: int): (r: seq<byte>)
    ensures |r| == |bytes|
    ensures |bytes| > 0 ==> r[0] == EncryptFirst(bytes[0], rotate)
  {
    seq(|bytes|, i requires 0 <= i < |bytes| =>
      if i == 0 then EncryptFirst(bytes[i], rotate) else EncryptByte(bytes[i], rotate))
  }

  /** For the rotations 0 through 8 every byte after the first is the
      plaintext byte rotated left by `8 - rotate`. */
  lemma EncryptRotates(bytes: seq<byte>, rotate: int)
    requires 0 <= rotate <= 8
    ensures forall i :: 0 < i < |bytes| ==> Encrypt(bytes, rotate)[i] == bytes[i].RotateLeft(8 - rotate)
  {
    forall i | 0 < i < |bytes|
      ensures Encrypt(bytes, rotate)[i] == bytes[i].RotateLeft(8 - rotate)
    {
      EncryptByteRotates(bytes[i], rotate);
    }
  }

  /** `EdimaxUtils.Encrypt(string, int)`: the UTF-8 bytes of the text, encrypted. */
  function EncryptText(text: string, rotate: int): (r: seq<byte>)
    ensures |r| == |Utf8(text)|
    ensures IsAscii(text) ==> |r| == |text|
  {
    Encrypt(Utf8(text), rotate)
  }

  /** What `Decrypt` returns: the text and its `out int rotate`. */
  datatype Decrypted = Decrypted(text: string, rotate: int)

  /** `EdimaxUtils.Decrypt`. */
  function Decrypt(bytes: seq<byte>): (d: Decrypted)
    ensures |d.text| == |bytes|
    ensures |bytes| > 0 ==> d.text[0] == '<'
    ensures |bytes| == 0 ==> d.rotate == 0
  {
    DecryptFrom(bytes, 0)
  }

  /** The loop of `Decrypt` from some position on, with `rotate` as it stands
      there: while it is still 0 the next byte is taken as the rotation
      byte and shows as '<'. */
  function DecryptFrom(bytes: seq<byte>, rotate: int): (d: Decrypted)
    ensures |d.text| == |bytes|
    ensures |bytes| > 0 && rotate == 0 ==> d.text[0] == '<'
    ensures |bytes| == 0 ==> d.rotate == rotate
    ensures rotate != 0 ==> d.rotate == rotate
  {
    if |bytes| == 0 then Decrypted("", rotate)
    else if rotate == 0 then
      var rest := DecryptFrom(bytes[1..], bytes[0] as int - '<' as int);
      Decrypted(['<'] + rest.text, rest.rotate)
    else
      var rest := DecryptFrom(bytes[1..], rotate);
      Decrypted([DecryptByte(bytes[0], rotate) as char] + rest.text, rest.rotate)
  }

  /** How many bytes at the front of `bytes` are the marker 0x3C. */
  function MarkerRun(bytes: seq<byte>): (k: nat)
    ensures k <= |bytes|
    ensures forall i :: 0 <= i < k ==> bytes[i] == Marker
    ensures k < |bytes| ==> bytes[k] != Marker
  {
    if |bytes| > 0 && bytes[0] == Marker then 1 + MarkerRun(bytes[1..]) else 0
  }

  /** Once a rotation is known, every later byte is decrypted with it. */
  lemma {:induction false} DecryptFromKnown(bytes: seq<byte>, rotate: int)
    requires rotate != 0
    ensures DecryptFrom(bytes, rotate).rotate == rotate
    ensures forall i :: 0 <= i < |bytes| ==>
      DecryptFrom(bytes, rotate).text[i] == DecryptByte(bytes[i], rotate) as char
  {
    if |bytes| > 0 {
      DecryptFromKnown(bytes[1..], rotate);
    }
  }

  /** The shape of every decryption: the leading run of 0x3C bytes and the
      first other byte all show as '<'; that byte fixes the rotation as its
      distance from '<'; every byte after it is decrypted with that
      rotation. A message of 0x3C bytes only leaves the rotation at 0. */
  lemma {:induction false} DecryptShape(bytes: seq<byte>)
    ensures var d := Decrypt(bytes);
      var k := MarkerRun(bytes);
      && (forall i :: 0 <= i < |bytes| && i <= k ==> d.text[i] == '<')
      && (k == |bytes| ==> d.rotate == 0)
      && (k < |bytes| ==> d.rotate == bytes[k] as int - 0x3C)
      && (k < |bytes| ==> forall i :: k < i < |bytes| ==> d.text[i] == DecryptByte(bytes[i], d.rotate) as char)
  {
    if |bytes| > 0 {
      if bytes[0] == Marker {
        DecryptShape(bytes[1..]);
      } else {
        DecryptFromKnown(bytes[1..], bytes[0] as int - 0x3C);
      }
    }
  }

  /** The characters a byte sequence stands for, one per byte. */
  function Chars(bytes: seq<byte>): (s: string)
    ensures |s| == |bytes|
  {
    seq(|bytes|, i requires 0 <= i < |bytes| => bytes[i] as char)
  }

  /** Round trip: a message that starts with '<' (as every command and
      markup document does), encrypted with a rotation from 1 to 7, decrypts
      to the same characters and gives the rotation back. */
  lemma RoundTrip(s: seq<byte>, rotate: int)
    requires |s| > 0 && s[0] == Marker
    requires 1 <= rotate <= 7
    ensures Decrypt(Encrypt(s, rotate)).rotate == rotate
    ensures Decrypt(Encrypt(s, rotate)).text == Chars(s)
  {
    var e := Encrypt(s, rotate);
    DecryptKnownLead(e, rotate);
    forall i | 0 < i < |s|
      ensures Decrypt(e).text[i] == s[i] as char
    {
      ByteRoundTrip(s[i], rotate);
    }
  }

  /** A message whose first byte is not the marker: that byte shows as '<'
      and fixes the rotation, which decrypts every later byte. */
  lemma DecryptKnownLead(e: seq<byte>, rotate: int)
    requires |e| > 0 && e[0] as int - 0x3C == rotate != 0
    ensures Decrypt(e).rotate == rotate && Decrypt(e).text[0] == '<'
    ensures forall i :: 0 < i < |e| ==> Decrypt(e).text[i] == DecryptByte(e[i], rotate) as char
  {
    var rest := DecryptFrom(e[1..], rotate);
    assert Decrypt(e) == Decrypted(['<'] + rest.text, rest.rotate);
    DecryptFromKnown(e[1..], rotate);
    assert forall i :: 0 < i < |e| ==> (['<'] + rest.text)[i] == rest.text[i - 1];
  }

  /** Decrypting an encrypted later byte with the same rotation gives it back. */
  lemma ByteRoundTrip(b: byte, rotate: int)
    requires 1 <= rotate <= 7
    ensures DecryptByte(EncryptByte(b, rotate), rotate) == b
  {
    EncryptByteRotates(b, rotate);
    DecryptByteRotates(EncryptByte(b, rotate), rotate);
    RotateBack(b, rotate);
  }

  /** Rotating a byte left by `8 - k` and then by `k` turns it full circle. */
  lemma RotateBack(b: byte, k: int)
    requires 1 <= k <= 7
    ensures b.RotateLeft(8 - k).RotateLeft(k) == b
  {
    if k == 1 {
    } else if k == 2 {
    } else if k == 3 {
    } else if k == 4 {
    } else if k == 5 {
    } else if k == 6 {
    } else {
    }
  }

  /** The same for text: ASCII text starting with '<', encrypted with the
      client's rotation, decrypts to itself. */
  lemma TextRoundTrip(text: string)
    requires |text| > 0 && text[0] == '<' && IsAscii(text)
    ensures Decrypt(EncryptText(text, ClientRotation)).text == text
    ensures Decrypt(EncryptText(text, ClientRotation)).rotate == ClientRotation
  {
    var bs := Utf8(text);
    RoundTrip(bs, ClientRotation);
    assert Chars(bs) == text;
  }

  /** Decryption reads the rotation off the first byte, so when the first
      plaintext byte is not '<' the rotation recovered is not the one used:
      it is off by the distance of that byte from '<'. */
  lemma RecoveredRotation(s: seq<byte>, rotate: int)
    requires |s| > 0 && 1 <= rotate <= 7
    requires (s[0] as int + rotate) % 256 != 0x3C
    ensures Decrypt(Encrypt(s, rotate)).rotate == (s[0] as int + rotate) % 256 - 0x3C
    ensures Decrypt(Encrypt(s, rotate)).rotate == rotate <==> s[0] == Marker
  {
    var e := Encrypt(s, rotate);
    assert MarkerRun(e) == 0;
    DecryptShape(e);
  }
}
