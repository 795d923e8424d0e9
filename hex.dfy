/** The hex colour command: normalising and validating the code, expanding
    the short form, and choosing a legible label colour. */
module HexColor {
  import opened JsValues

  predicate IsHexDigit(c: char)
  {
    '0' <= c <= '9' || 'a' <= c <= 'f' || 'A' <= c <= 'F'
  }

  /** The value of one hex digit. */
  function HexValue(c: char): (v: int)
    requires IsHexDigit(c)
    ensures 0 <= v < 16
  {
    if '0' <= c <= '9' then c as int - '0' as int
    else if 'a' <= c <= 'f' then c as int - 'a' as int + 10
    else c as int - 'A' as int + 10
  }

  /** A `#` is put in front of a code that lacks one. */
  function Normalize(code: string): (r: string)
    ensures StartsWith(r, "#")
    ensures StartsWith(code, "#") ==> r == code
    ensures !StartsWith(code, "#") ==> r == "#" + code
  {
    if StartsWith(code, "#") then code else "#" + code
  }

  /** `#` followed by exactly three or six hex digits, either case. */
  predicate ValidHex(code: string)
  {
    (|code| == 4 || |code| == 7) && code[0] == '#' &&
    forall i :: 1 <= i < |code| ==> IsHexDigit(code[i])
  }

  /** The six-digit form: each digit of a three-digit code doubled. */
  function Expand(code: string): (r: string)
    requires ValidHex(code)
    ensures ValidHex(r) && |r| == 7
    ensures |code| == 7 ==> r == code
    ensures |code| == 4 ==> forall i :: 1 <= i < 4 ==> r[2 * i - 1] == code[i] && r[2 * i] == code[i]
  {
    if |code| == 4 then ['#', code[1], code[1], code[2], code[2], code[3], code[3]] else code
  }

  /** `parseInt(code.substring(k, k + 2), 16)`. */
  function Channel(code: string, k: int): (v: int)
    requires ValidHex(code) && |code| == 7 && (k == 1 || k == 3 || k == 5)
    ensures 0 <= v < 256
  {
    16 * HexValue(code[k]) + HexValue(code[k + 1])
  }

  /** Black on light colours, white on dark ones: the weighted brightness
      `0.299 r + 0.587 g + 0.114 b` compared against half of 255, in integers. */
  function ContrastingTextColor(code: string): (r: string)
    requires ValidHex(code) && |code| == 7
    ensures r == "#000000" <==> 299 * Channel(code, 1) + 587 * Channel(code, 3) + 114 * Channel(code, 5) > 127500
    ensures r == "#000000" || r == "#FFFFFF"
  {
    if 299 * Channel(code, 1) + 587 * Channel(code, 3) + 114 * Channel(code, 5) > 127500 then "#000000" else "#FFFFFF"
  }

  /** What the command shows. */
  datatype HexReply = InvalidHex | Preview(code: string, title: string, textColor: string)

  /** The command: normalise, validate, expand, then title in upper case. */
  function HexCommand(input: string): (r: HexReply)
    ensures r.Preview? <==> ValidHex(Normalize(input))
    ensures r.Preview? ==> ValidHex(r.code) && |r.code| == 7 && r.title == "Color: " + ToUpper(r.code)
  {
    var code := Normalize(input);
    if !ValidHex(code) then InvalidHex
    else
      var full := Expand(code);
      Preview(full, "Color: " + ToUpper(full), ContrastingTextColor(full))
  }

  /** Normalising twice is normalising once. */
  lemma NormalizeIdempotent(code: string)
    ensures Normalize(Normalize(code)) == Normalize(code)
  {
  }

  /** Each channel of an expanded short code is its digit times 17
      (`#abc` has red `0xaa`). */
  lemma ShortCodeChannels(code: string)
    requires ValidHex(code) && |code| == 4
    ensures Channel(Expand(code), 1) == 17 * HexValue(code[1])
    ensures Channel(Expand(code), 3) == 17 * HexValue(code[2])
    ensures Channel(Expand(code), 5) == 17 * HexValue(code[3])
  {
    var e := Expand(code);
    assert e[1] == code[1] && e[2] == code[1];
    assert e[3] == code[2] && e[4] == code[2];
    assert e[5] == code[3] && e[6] == code[3];
  }

  /** Upper-casing keeps a code valid and its channels unchanged, so the
      title names the same colour. */
  lemma UpperKeepsColour(code: string)
    requires ValidHex(code) && |code| == 7
    ensures ValidHex(ToUpper(code))
    ensures forall k :: k == 1 || k == 3 || k == 5 ==> Channel(ToUpper(code), k) == Channel(code, k)
  {
    var u := ToUpper(code);
    forall i | 1 <= i < |code|
      ensures IsHexDigit(u[i]) && HexValue(u[i]) == HexValue(code[i])
    {
    }
  }

  /** A code the command accepts with or without its `#` gives the same preview. */
  lemma HashOptional(digits: string)
    requires !StartsWith(digits, "#")
    ensures HexCommand(digits) == HexCommand("#" + digits)
  {
    assert StartsWith("#" + digits, "#");
  }
}
