/**
The ALTO frame codec: the 32-byte frame with its XOR check byte (BCC) in the last place, and the
70-character text form `AA55` + 64 hex digits + CR LF that goes over the serial line.
 */
module AltoCodec {

  type byte = bv8

  const FRAME_SIZE := 32
  const BCC_INDEX := 31
  const TEXT_SIZE := 64
  const MESSAGE_SIZE := 70

  const CR: byte := 0x0D
  const LF: byte := 0x0A
  const HEADER: seq<byte> := [0x41, 0x41, 0x35, 0x35]  // "AA55"

  // ---------- The check byte ----------

  /** The XOR of all the bytes of a sequence. */
  function Xor(s: seq<byte>): byte {
    if s == [] then 0 else Xor(s[..|s| - 1]) ^ s[|s| - 1]
  }

  method BccCalculate(frame: array<byte>) returns (bcc: byte)
    requires frame.Length == FRAME_SIZE
    ensures bcc == Xor(frame[..BCC_INDEX])
  {
    bcc := 0;
    for i := 0 to FRAME_SIZE - 1
      invariant bcc == Xor(frame[..i])
    {
      assert frame[..i + 1][..i] == frame[..i];
      bcc := bcc ^ frame[i];
    }
  }

  method BccFill(frame: array<byte>)
    requires frame.Length == FRAME_SIZE
    modifies frame
    ensures frame[..BCC_INDEX] == old(frame[..BCC_INDEX])
    ensures frame[BCC_INDEX] == Xor(old(frame[..BCC_INDEX]))
    ensures Xor(frame[..]) == 0
  {
    var bcc: byte := 0;
    for i := 0 to FRAME_SIZE - 1
      invariant bcc == Xor(frame[..i])
      invariant frame[..] == old(frame[..])
    {
      assert frame[..i + 1][..i] == frame[..i];
      bcc := bcc ^ frame[i];
    }
    frame[BCC_INDEX] := bcc;
    assert frame[..][..BCC_INDEX] == frame[..BCC_INDEX] == old(frame[..BCC_INDEX]);
    CheckIsZeroIffFilled(frame[..]);
  }

  method BccCheck(frame: array<byte>) returns (bcc: byte)
    requires frame.Length == FRAME_SIZE
    ensures bcc == Xor(frame[..])
    ensures bcc == 0 <==> frame[BCC_INDEX] == Xor(frame[..BCC_INDEX])
  {
    bcc := 0;
    for i := 0 to FRAME_SIZE
      invariant bcc == Xor(frame[..i])
    {
      assert frame[..i + 1][..i] == frame[..i];
      bcc := bcc ^ frame[i];
    }
    assert frame[..FRAME_SIZE] == frame[..];
    assert frame[..][..BCC_INDEX] == frame[..BCC_INDEX];
    CheckIsZeroIffFilled(frame[..]);
  }

  /** The check is zero exactly when the last byte is the XOR of the others. */
  lemma CheckIsZeroIffFilled(f: seq<byte>)
    requires |f| == FRAME_SIZE
    ensures Xor(f) == 0 <==> f[BCC_INDEX] == Xor(f[..BCC_INDEX])
  {
    var rest, last := Xor(f[..BCC_INDEX]), f[BCC_INDEX];
    assert Xor(f) == rest ^ last;
    assert rest ^ last == 0 <==> last == rest;
  }

  /** The byte-by-byte difference of two frames of the same length. */
  function Difference(f: seq<byte>, g: seq<byte>): (d: seq<byte>)
    requires |f| == |g|
  {
    seq(|f|, i requires 0 <= i < |f| => f[i] ^ g[i])
  }

  lemma {:induction false} XorOfDifference(f: seq<byte>, g: seq<byte>)
    requires |f| == |g|
    ensures Xor(f) ^ Xor(g) == Xor(Difference(f, g))
  {
    if f == [] {
      assert Difference(f, g) == [];
    } else {
      var n := |f| - 1;
      XorOfDifference(f[..n], g[..n]);
      assert Difference(f, g)[..n] == Difference(f[..n], g[..n]);
      XorSwap(Xor(f[..n]), f[n], Xor(g[..n]), g[n]);
    }
  }

  lemma XorSwap(a: byte, b: byte, c: byte, d: byte)
    ensures (a ^ b) ^ (c ^ d) == (a ^ c) ^ (b ^ d)
  {}

  /** What the check can and cannot see: a corrupted frame passes exactly when the corruption
      itself XORs to zero. */
  lemma CorruptionUndetectedIff(sent: seq<byte>, received: seq<byte>)
    requires |sent| == |received| == FRAME_SIZE && Xor(sent) == 0
    ensures Xor(received) == 0 <==> Xor(Difference(sent, received)) == 0
  {
    XorOfDifference(sent, received);
    var x := Xor(received);
    assert (0 as byte) ^ x == x;
  }

  lemma {:induction false} XorUpdate(f: seq<byte>, i: nat, b: byte)
    requires i < |f|
    ensures Xor(f[i := b]) == Xor(f) ^ (f[i] ^ b)
  {
    var n := |f| - 1;
    if i == n {
      assert f[i := b][..n] == f[..n];
      XorReplace(Xor(f[..n]), f[n], b);
    } else {
      assert f[i := b][..n] == f[..n][i := b];
      XorUpdate(f[..n], i, b);
      XorReplace(Xor(f[..n]), f[i] ^ b, f[n]);
    }
  }

  lemma XorReplace(x: byte, a: byte, b: byte)
    ensures x ^ b == (x ^ a) ^ (a ^ b)
    ensures (x ^ a) ^ b == (x ^ b) ^ a
  {}

  /** Any change confined to one byte, the check byte included, is detected. */
  lemma SingleByteErrorDetected(f: seq<byte>, i: nat, b: byte)
    requires |f| == FRAME_SIZE && i < FRAME_SIZE
    requires Xor(f) == 0
    ensures Xor(f[i := b]) == 0 <==> b == f[i]
  {
    XorUpdate(f, i, b);
    ZeroXorChange(f[i], b);
  }

  lemma ZeroXorChange(a: byte, b: byte)
    ensures (0 as byte) ^ (a ^ b) == 0 <==> a == b
  {}

  // ---------- The text form ----------

  function HexDigit(n: byte): byte {
    if n >= 10 then (n - 10) + 0x41 else n + 0x30
  }

  function HighDigit(b: byte): byte {
    HexDigit((b >> 4) & 0x0F)
  }

  function LowDigit(b: byte): byte {
    HexDigit(b & 0x0F)
  }

  predicate IsHexDigit(c: byte) {
    0x30 <= c <= 0x39 || 0x41 <= c <= 0x46 || 0x61 <= c <= 0x66
  }

  /** The value of a hex digit in either case. The C function leaves its result uninitialised for
      any other character; `junk` is what happens to be in that variable. */
  function NibbleOf(c: byte, junk: byte): byte {
    if 0x30 <= c <= 0x39 then c - 0x30
    else if 0x41 <= c <= 0x46 then c - 0x41 + 0x0A
    else if 0x61 <= c <= 0x66 then c - 0x61 + 0x0A
    else junk
  }

  /** Upper case, for ASCII letters only. */
  function Upper(c: byte): byte {
    if 0x61 <= c <= 0x7A then c - 0x20 else c
  }

  function UpperAll(s: seq<byte>): (u: seq<byte>)
    ensures |u| == |s|
  {
    seq(|s|, i requires 0 <= i < |s| => Upper(s[i]))
  }

  /** Two hex digits a byte, high nibble first. */
  function Hex(f: seq<byte>): (text: seq<byte>)
    ensures |text| == 2 * |f|
  {
    seq(2 * |f|, i requires 0 <= i < 2 * |f| =>
      if i % 2 == 0 then HighDigit(f[i / 2]) else LowDigit(f[i / 2]))
  }

  /** The message on the wire. */
  function Encode(f: seq<byte>): (msg: seq<byte>)
    ensures |msg| == 2 * |f| + 6
  {
    HEADER + Hex(f) + [CR, LF]
  }

  function DecodeByte(high: byte, low: byte, junkHigh: byte, junkLow: byte): byte {
    NibbleOf(low, junkLow) | (NibbleOf(high, junkHigh) << 4)
  }

  function Decode(text: seq<byte>, junk: seq<byte>): (f: seq<byte>)
    requires |text| == |junk| == TEXT_SIZE
    ensures |f| == FRAME_SIZE
  {
    seq(FRAME_SIZE, i requires 0 <= i < FRAME_SIZE =>
      DecodeByte(text[2 * i], text[2 * i + 1], junk[2 * i], junk[2 * i + 1]))
  }

  /** A message is known by its characters. */
  lemma MessageParts(msg: seq<byte>, text: seq<byte>)
    requires |msg| == MESSAGE_SIZE && |text| == TEXT_SIZE
    requires msg[..4] == HEADER && msg[68] == CR && msg[69] == LF
    requires forall k :: 0 <= k < TEXT_SIZE ==> msg[4 + k] == text[k]
    ensures msg == HEADER + text + [CR, LF]
  {
    assert msg[4..68] == text;
    assert msg[68..] == [CR, LF];
    assert msg == msg[..4] + (msg[4..68] + msg[68..]);
  }

  method CreateAscii(buffer: array<byte>, frame: array<byte>)
    requires buffer.Length >= MESSAGE_SIZE && frame.Length == FRAME_SIZE && buffer != frame
    modifies buffer
    ensures buffer[..MESSAGE_SIZE] == Encode(frame[..])
    ensures buffer[MESSAGE_SIZE..] == old(buffer[MESSAGE_SIZE..])
  {
    hide HexDigit, HighDigit, LowDigit;
    buffer[0], buffer[1], buffer[2], buffer[3] := 0x41, 0x41, 0x35, 0x35;
    var at := 4;
    for i := 0 to FRAME_SIZE
      invariant at == 4 + 2 * i
      invariant buffer[..4] == HEADER
      invariant forall k :: 0 <= k < 2 * i ==> buffer[4 + k] == Hex(frame[..])[k]
      invariant buffer[MESSAGE_SIZE..] == old(buffer[MESSAGE_SIZE..])
    {
      var temp := frame[i];
      assert Hex(frame[..])[2 * i] == HighDigit(temp);
      assert Hex(frame[..])[2 * i + 1] == LowDigit(temp);
      buffer[at] := HighDigit(temp);
      buffer[at + 1] := LowDigit(temp);
      at := at + 2;
    }
    buffer[68] := CR;
    buffer[69] := LF;
    MessageParts(buffer[..MESSAGE_SIZE], Hex(frame[..]));
  }

  method ConvertAsciiToBinary(text: array<byte>, frame: array<byte>, junk: seq<byte>) returns (status: int)
    requires text.Length >= TEXT_SIZE && frame.Length == FRAME_SIZE && text != frame
    requires |junk| == TEXT_SIZE
    modifies frame
    ensures status == 0
    ensures frame[..] == Decode(text[..TEXT_SIZE], junk)
  {
    status := 0;
    for i := 0 to FRAME_SIZE
      invariant text[..TEXT_SIZE] == old(text[..TEXT_SIZE])
      invariant forall k :: 0 <= k < i ==> frame[k] == Decode(text[..TEXT_SIZE], junk)[k]
    {
      var low := NibbleOf(text[2 * i + 1], junk[2 * i + 1]);
      var high := NibbleOf(text[2 * i], junk[2 * i]);
      frame[i] := low | (high << 4);
    }
  }

  // ---------- Round trips ----------

  lemma DigitRoundTrip(b: byte, j0: byte, j1: byte)
    ensures var h, l := HighDigit(b), LowDigit(b);
      IsHexDigit(h) && IsHexDigit(l) && Upper(h) == h && Upper(l) == l
      && DecodeByte(h, l, j0, j1) == b
  {}

  /** Every character of the payload is an upper-case hex digit. */
  lemma HexIsUpperCaseDigits(f: seq<byte>)
    ensures forall k :: 0 <= k < 2 * |f| ==> IsHexDigit(Hex(f)[k]) && Upper(Hex(f)[k]) == Hex(f)[k]
    ensures forall k :: 0 <= k < 2 * |f| ==> Hex(f)[k] != CR
  {
    forall k | 0 <= k < 2 * |f|
      ensures IsHexDigit(Hex(f)[k]) && Upper(Hex(f)[k]) == Hex(f)[k] && Hex(f)[k] != CR
    {
      DigitRoundTrip(f[k / 2], 0, 0);
    }
  }

  /** Decoding the payload of an encoded frame gives the frame back, whatever the uninitialised
      variable held. */
  lemma DecodeEncode(f: seq<byte>, junk: seq<byte>)
    requires |f| == FRAME_SIZE && |junk| == TEXT_SIZE
    ensures Encode(f)[4..68] == Hex(f)
    ensures Decode(Hex(f), junk) == f
  {
    hide HighDigit, LowDigit, DecodeByte, NibbleOf;
    assert Encode(f)[4..68] == Hex(f);
    var g := Decode(Hex(f), junk);
    forall i | 0 <= i < FRAME_SIZE
      ensures g[i] == f[i]
    {
      DigitRoundTrip(f[i], junk[2 * i], junk[2 * i + 1]);
    }
  }

  /** The hex digits of 0 to 15. */
  const DIGITS: seq<byte> :=
    [0x30, 0x31, 0x32, 0x33, 0x34, 0x35, 0x36, 0x37, 0x38, 0x39, 0x41, 0x42, 0x43, 0x44, 0x45, 0x46]

  lemma DigitIs(n: byte)
    requires n < 16
    ensures HexDigit(n) == DIGITS[n as int]
  {}

  lemma Halves(b: byte)
    ensures b as int == 16 * ((b >> 4) & 0x0F) as int + (b & 0x0F) as int
    ensures ((b >> 4) & 0x0F) < 16 && (b & 0x0F) < 16
  {}

  /** Each byte is written as the digit of its sixteens and then the digit of its ones. */
  lemma HexIsSixteens(f: seq<byte>, i: nat)
    requires i < |f|
    ensures Hex(f)[2 * i] == DIGITS[f[i] as int / 16] && Hex(f)[2 * i + 1] == DIGITS[f[i] as int % 16]
  {
    hide HexDigit;
    Halves(f[i]);
    DigitIs((f[i] >> 4) & 0x0F);
    DigitIs(f[i] & 0x0F);
  }

  lemma NibbleRoundTrip(high: byte, low: byte, j0: byte, j1: byte)
    requires IsHexDigit(high) && IsHexDigit(low)
    ensures var b := DecodeByte(high, low, j0, j1);
      HighDigit(b) == Upper(high) && LowDigit(b) == Upper(low)
  {}

  /** Encoding what was decoded from 64 hex digits gives those digits back in upper case. */
  lemma EncodeDecode(text: seq<byte>, junk: seq<byte>)
    requires |text| == |junk| == TEXT_SIZE
    requires forall k :: 0 <= k < TEXT_SIZE ==> IsHexDigit(text[k])
    ensures Hex(Decode(text, junk)) == UpperAll(text)
  {
    var g := Decode(text, junk);
    forall k | 0 <= k < TEXT_SIZE
      ensures Hex(g)[k] == Upper(text[k])
    {
      var i := k / 2;
      assert IsHexDigit(text[2 * i]) && IsHexDigit(text[2 * i + 1]);
      NibbleRoundTrip(text[2 * i], text[2 * i + 1], junk[2 * i], junk[2 * i + 1]);
      assert k == 2 * i || k == 2 * i + 1;
    }
  }

  /** The byte that is decoded when one digit of `b` is replaced by `c`. */
  function WithDigit(b: byte, c: byte, high: bool, j0: byte, j1: byte): byte {
    if high then DecodeByte(c, LowDigit(b), j0, j1) else DecodeByte(HighDigit(b), c, j0, j1)
  }

  function DigitOf(b: byte, high: bool): byte {
    if high then HighDigit(b) else LowDigit(b)
  }

  lemma DigitChangesByte(b: byte, c: byte, high: bool, j0: byte, j1: byte)
    requires IsHexDigit(c)
    ensures WithDigit(b, c, high, j0, j1) == b <==> NibbleOf(c, 0) == NibbleOf(DigitOf(b, high), 0)
  {}

  /** Where the high or low digit of byte `i` stands in the payload. */
  function Place(i: nat, high: bool): nat {
    if high then 2 * i else 2 * i + 1
  }

  lemma DecodeWithDigit(f: seq<byte>, i: nat, high: bool, c: byte, junk: seq<byte>)
    requires |f| == FRAME_SIZE && i < FRAME_SIZE && |junk| == TEXT_SIZE
    ensures Hex(f)[Place(i, high)] == DigitOf(f[i], high)
    ensures Decode(Hex(f)[Place(i, high) := c], junk)
      == f[i := WithDigit(f[i], c, high, junk[2 * i], junk[2 * i + 1])]
  {
    hide Hex, Decode, DecodeByte, HighDigit, LowDigit;
    var text := Hex(f);
    var changed := text[Place(i, high) := c];
    var g := Decode(changed, junk);
    HexAt(f, i);
    DecodeEncode(f, junk);
    forall n | 0 <= n < FRAME_SIZE
      ensures g[n] == if n == i then WithDigit(f[i], c, high, junk[2 * i], junk[2 * i + 1]) else f[n]
    {
      DecodeAt(changed, junk, n);
      if n != i {
        assert changed[2 * n] == text[2 * n] && changed[2 * n + 1] == text[2 * n + 1];
        DecodeAt(text, junk, n);
      }
    }
  }

  lemma HexAt(f: seq<byte>, n: nat)
    requires n < |f|
    ensures Hex(f)[2 * n] == HighDigit(f[n]) && Hex(f)[2 * n + 1] == LowDigit(f[n])
  {}

  lemma DecodeAt(text: seq<byte>, junk: seq<byte>, n: nat)
    requires |text| == |junk| == TEXT_SIZE && n < FRAME_SIZE
    ensures Decode(text, junk)[n] == DecodeByte(text[2 * n], text[2 * n + 1], junk[2 * n], junk[2 * n + 1])
  {}

  /** One hex digit of the transmitted text replaced by another: the decoded frame still passes the
      check exactly when the new digit has the old digit's value. */
  lemma SingleDigitErrorDetected(f: seq<byte>, k: nat, c: byte, junk: seq<byte>)
    requires |f| == FRAME_SIZE && Xor(f) == 0
    requires k < TEXT_SIZE && |junk| == TEXT_SIZE && IsHexDigit(c)
    ensures Xor(Decode(Hex(f)[k := c], junk)) == 0 <==> NibbleOf(c, 0) == NibbleOf(Hex(f)[k], 0)
  {
    var i, high := k / 2, k % 2 == 0;
    assert Place(i, high) == k;
    DecodeWithDigit(f, i, high, c, junk);
    DigitChangesByte(f[i], c, high, junk[2 * i], junk[2 * i + 1]);
    SingleByteErrorDetected(f, i, WithDigit(f[i], c, high, junk[2 * i], junk[2 * i + 1]));
  }
}
