/**
 * The integer part of the Normalizer: where a resized image is pasted on the
 * square canvas, and which colour fills the canvas.  The colour may be given
 * as a hexadecimal string that Python decodes with `bytes.fromhex` and
 * unpacks as exactly three unsigned bytes.
 */
module Normalizer {
  import opened Wrappers

  const RGBA: string := "RGBA"
  const Transparent: seq<int> := [255, 0, 0, 0]
  const White: seq<int> := [255, 255, 255]

  type Byte = b: int | 0 <= b < 256

  /** The `canvas` option once a plain canvas is drawn: `True`, or a colour string. */
  datatype Canvas = Plain | Coloured(spec: string)

  /** `ValueError` from `bytes.fromhex`, or `struct.error` from unpacking other than three bytes. */
  datatype Error = NotHex(spec: string) | NotThreeBytes(spec: string)

  /**
   * `_offset`: where the `w` x `h` image is pasted on the `size` x `size`
   * canvas.  Python's `//` floors; with the divisor 2 Dafny's `/` agrees.
   */
  function Offset(size: int, w: int, h: int): (o: (int, int))
    ensures 0 <= w <= size ==> 0 <= o.0 && o.0 + w <= size
    ensures 0 <= h <= size ==> 0 <= o.1 && o.1 + h <= size
  {
    ((size - w) / 2, (size - h) / 2)
  }

  /** The pasted image is centred: the two margins on each axis differ by at most one pixel. */
  lemma OffsetCentres(size: int, w: int, h: int)
    ensures var o := Offset(size, w, h);
            && o.0 <= size - w - o.0 <= o.0 + 1
            && o.1 <= size - h - o.1 <= o.1 + 1
  {
  }

  /** The 64-pixel canvas example: a 64 x 42 image is pasted 11 rows down. */
  lemma OffsetExample()
    ensures Offset(64, 64, 42) == (0, 11)
  {
  }

  /** ASCII whitespace as Python's `Py_ISSPACE` defines it; `bytes.fromhex` skips it between bytes. */
  predicate IsSpace(c: char)
  {
    c == ' ' || c == '\t' || c == '\n' || c == '\r' || c == '\U{B}' || c == '\U{C}'
  }

  predicate IsHexDigit(c: char)
  {
    ('0' <= c <= '9') || ('a' <= c <= 'f') || ('A' <= c <= 'F')
  }

  function HexValue(c: char): (v: int)
    requires IsHexDigit(c)
    ensures 0 <= v < 16
  {
    if '0' <= c <= '9' then c as int - '0' as int
    else if 'a' <= c <= 'f' then c as int - 'a' as int + 10
    else c as int - 'A' as int + 10
  }

  /** The upper-case hexadecimal digit for a value below 16. */
  function HexDigit(v: int): (c: char)
    requires 0 <= v < 16
    ensures IsHexDigit(c) && HexValue(c) == v
  {
    "0123456789ABCDEF"[v]
  }

  /**
   * Python `bytes.fromhex`: whitespace may precede each byte, each byte is two
   * hexadecimal digits, anything else (an odd digit count included) is an error.
   */
  function FromHex(s: string): (r: Option<seq<Byte>>)
    ensures r.Some? ==> 2 * |r.value| <= |s|
    decreases |s|
  {
    if |s| == 0 then Some([])
    else if IsSpace(s[0]) then FromHex(s[1..])
    else if |s| >= 2 && IsHexDigit(s[0]) && IsHexDigit(s[1]) then
      match FromHex(s[2..])
      case None => None
      case Some(rest) => Some([16 * HexValue(s[0]) + HexValue(s[1])] + rest)
    else None
  }

  /** Two upper-case hexadecimal digits per byte, the form a colour is written in (`FF0000`). */
  function ToHex(bytes: seq<Byte>): (s: string)
    ensures |s| == 2 * |bytes|
    ensures forall i :: 0 <= i < |s| ==> IsHexDigit(s[i])
  {
    if |bytes| == 0 then []
    else [HexDigit(bytes[0] / 16), HexDigit(bytes[0] % 16)] + ToHex(bytes[1..])
  }

  /** Decoding what `ToHex` wrote gives back the bytes. */
  lemma {:induction false} FromHexToHex(bytes: seq<Byte>)
    ensures FromHex(ToHex(bytes)) == Some(bytes)
    decreases |bytes|
  {
    if |bytes| > 0 {
      var hi, lo := HexDigit(bytes[0] / 16), HexDigit(bytes[0] % 16);
      var rest := ToHex(bytes[1..]);
      FromHexToHex(bytes[1..]);
      assert ToHex(bytes) == [hi, lo] + rest;
      FromHexPair(hi, lo, rest);
      ByteDigits(bytes[0]);
      assert [bytes[0]] + bytes[1..] == bytes;
    }
  }

  /** Two hexadecimal digits in front decode to one byte in front. */
  lemma FromHexPair(hi: char, lo: char, rest: string)
    requires IsHexDigit(hi) && IsHexDigit(lo)
    ensures FromHex([hi, lo] + rest) ==
              if FromHex(rest).None? then None else Some([16 * HexValue(hi) + HexValue(lo)] + FromHex(rest).value)
  {
    var s := [hi, lo] + rest;
    assert s[2..] == rest;
    assert !IsSpace(hi);
  }

  /** A byte is sixteen times its high digit plus its low digit. */
  lemma ByteDigits(b: Byte)
    ensures 16 * HexValue(HexDigit(b / 16)) + HexValue(HexDigit(b % 16)) == b
  {
  }

  /**
   * `_color`: RGBA images always get the transparent fill; otherwise `True`
   * gives white and a string must decode to exactly three bytes.
   */
  function Colour(mode: string, canvas: Canvas): (r: Result<seq<int>, Error>)
    ensures mode == RGBA ==> r == Success([255, 0, 0, 0])
    ensures mode != RGBA && canvas.Plain? ==> r == Success([255, 255, 255])
    ensures mode != RGBA && canvas.Coloured? ==>
              (r.Success? <==> FromHex(canvas.spec).Some? && |FromHex(canvas.spec).value| == 3)
    ensures mode != RGBA && canvas.Coloured? && r.Success? ==> r.value == FromHex(canvas.spec).value
    ensures r.Success? ==> |r.value| == (if mode == RGBA then 4 else 3)
    ensures r.Success? ==> forall i :: 0 <= i < |r.value| ==> 0 <= r.value[i] < 256
  {
    if mode == RGBA then Success(Transparent)
    else
      match canvas
      case Plain => Success(White)
      case Coloured(spec) =>
        match FromHex(spec)
        case None => Failure(NotHex(spec))
        case Some(bytes) => if |bytes| == 3 then Success(bytes) else Failure(NotThreeBytes(spec))
  }

  /** Any colour written as six hexadecimal digits is the fill of a non-RGBA canvas. */
  lemma ColourRoundTrip(mode: string, red: Byte, green: Byte, blue: Byte)
    requires mode != RGBA
    ensures Colour(mode, Coloured(ToHex([red, green, blue]))) == Success([red, green, blue])
  {
    FromHexToHex([red, green, blue]);
  }

  /** `FF0000` is red. */
  lemma RedExample()
    ensures Colour("RGB", Coloured("FF0000")) == Success([255, 0, 0])
  {
    assert ToHex([255, 0, 0]) == "FF0000";
    ColourRoundTrip("RGB", 255, 0, 0);
  }

  /** A two-byte colour is rejected, unless the image is RGBA and the colour is not looked at. */
  lemma ShortColourExample()
    ensures Colour("RGB", Coloured("FF00")).Failure?
    ensures Colour("RGBA", Coloured("FF00")) == Success([255, 0, 0, 0])
  {
    assert ToHex([255, 0]) == "FF00";
    FromHexToHex([255, 0]);
  }
}
