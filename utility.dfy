/** The pure encoders of `utility.ts`: base-26 letter identifiers, the colour
    palette, byte-to-hex conversion and the brightness adjustment used to fade
    the final path.  JavaScript numbers are modelled as integers, except the
    brightness percentage, which is a `real` (exact, without float rounding). */
module Utility {
  import opened Common

  // ---------------------------------------------------------------------------
  // makeAlphabetID
  // ---------------------------------------------------------------------------

  predicate IsLetter(c: char) {
    'A' <= c <= 'Z'
  }

  /** `alphabet[d]` for the alphabet "ABCDEFGHIJKLMNOPQRSTUVWXYZ". */
  function Letter(d: int): (c: char)
    requires 0 <= d < 26
    ensures IsLetter(c) && LetterValue(c) == d
  {
    (65 + d) as char
  }

  /** Position of a letter in the alphabet (A = 0, ..., Z = 25). */
  function LetterValue(c: char): int {
    c as int - 65
  }

  /** The base-26 digits of `v`, most significant first; empty for 0. */
  function Letters(v: nat): (s: string)
    ensures forall k :: 0 <= k < |s| ==> IsLetter(s[k])
    ensures v > 0 ==> |s| > 0 && s[0] != 'A'
    ensures v == 0 <==> s == ""
  {
    if v == 0 then "" else Letters(v / 26) + [Letter(v % 26)]
  }

  /** Reads a string of letters back as a base-26 number. */
  function Decode(s: string): int {
    if s == [] then 0 else Decode(s[..|s| - 1]) * 26 + LetterValue(s[|s| - 1])
  }

  /** A letter string that `makeAlphabetID` can produce for a positive value. */
  predicate Canonical(s: string) {
    |s| > 0 && s[0] != 'A' && forall k :: 0 <= k < |s| ==> IsLetter(s[k])
  }

  lemma {:induction false} DecodeLetters(v: nat)
    ensures Decode(Letters(v)) == v
  {
    if v > 0 {
      var s := Letters(v);
      assert s[..|s| - 1] == Letters(v / 26);
      DecodeLetters(v / 26);
    }
  }

  lemma {:induction false} DecodeCanonicalPositive(s: string)
    requires Canonical(s)
    ensures Decode(s) > 0
  {
    var p := s[..|s| - 1];
    if |p| > 0 {
      assert p[0] == s[0];
      DecodeCanonicalPositive(p);
    }
  }

  /** Every canonical letter string is the identifier of the value it encodes. */
  lemma {:induction false} LettersDecode(s: string)
    requires Canonical(s)
    ensures Decode(s) > 0
    ensures Letters(Decode(s)) == s
  {
    DecodeCanonicalPositive(s);
    var p, c := s[..|s| - 1], s[|s| - 1];
    var d := LetterValue(c);
    assert s == p + [c];
    if |p| == 0 {
      assert Decode(p) == 0;
      assert Decode(s) == d;
      assert Letters(d) == Letters(0) + [Letter(d)];
    } else {
      assert p[0] == s[0];
      DecodeCanonicalPositive(p);
      LettersDecode(p);
      var v := Decode(s);
      assert v == Decode(p) * 26 + d;
      assert v / 26 == Decode(p) && v % 26 == d;
    }
  }

  lemma ReverseSnoc<T>(s: seq<T>, x: T)
    ensures Reverse(s + [x]) == [x] + Reverse(s)
  {
  }

  /** makeAlphabetID: "A" for 0, the base-26 letters of a positive value,
      and the empty string for a negative one (the loop never runs). */
  method MakeAlphabetID(value: int) returns (id: string)
    ensures value == 0 ==> id == "A"
    ensures value < 0 ==> id == ""
    ensures value > 0 ==> id == Letters(value) && Canonical(id)
    ensures value >= 0 ==> Decode(id) == value
    ensures forall k :: 0 <= k < |id| ==> IsLetter(id[k])
  {
    if value == 0 {
      id := [Letter(0)];
      assert Decode(id) == Decode([]) * 26 + 0;
      return;
    }
    var v := value;
    id := "";
    while v > 0
      invariant value < 0 ==> v == value && id == ""
      invariant value > 0 ==> v >= 0 && Letters(value) == Letters(v) + Reverse(id)
      decreases if v > 0 then v else 0
    {
      ReverseSnoc(id, Letter(v % 26));
      id := id + [Letter(v % 26)];
      v := v / 26;
    }
    id := Reverse(id);
    if value > 0 {
      DecodeLetters(value);
    }
  }

  // ---------------------------------------------------------------------------
  // makeColor
  // ---------------------------------------------------------------------------

  const Palette: seq<string> := ["#C74440", "#2D70B3", "#388C46", "#FFCE00", "#FA7E19", "#6042A6"]

  /** JavaScript's `%`: truncating division, the remainder takes the sign of the dividend. */
  function JsRem(a: int, b: int): (r: int)
    requires b > 0
    ensures -b < r < b
    ensures a >= 0 ==> r == a % b
    ensures a < 0 ==> r <= 0
    ensures (a - r) % b == 0
  {
    if a >= 0 then
      MultipleMod(a / b, b);
      a % b
    else
      var m := (-a) % b;
      assert a - (-m) == -((-a) / b) * b;
      MultipleMod(-((-a) / b), b);
      -m
  }

  /** A multiple of `b` leaves no remainder. */
  lemma MultipleMod(q: int, b: int)
    requires b > 0
    ensures (q * b) % b == 0
  {
    var r := (q * b) % b;
    var d := (q * b) / b;
    assert (q - d) * b == r by {
      assert q * b == d * b + r;
      assert (q - d) * b == q * b - d * b;
    }
    MultipleBounds(q - d, b);
  }

  /** A non-zero multiple of `b` is at least `b` away from zero. */
  lemma MultipleBounds(k: int, b: int)
    requires b > 0
    ensures k >= 1 ==> k * b >= b
    ensures k <= -1 ==> k * b <= -b
  {
    if k >= 1 {
      assert k * b == b + (k - 1) * b;
    } else if k <= -1 {
      assert k * b == -b + (k + 1) * b;
    }
  }

  /** makeColor: `colors[value % 6]`; an index below zero reads `undefined`.
      A negative multiple of 6 gives -0, which indexes the first colour. */
  function MakeColor(value: int): (r: Option<string>)
    ensures value >= 0 ==> r == Some(Palette[value % 6])
    ensures r.Some? <==> value >= 0 || value % 6 == 0
    ensures r.Some? ==> r.value in Palette
  {
    var i := JsRem(value, |Palette|);
    if i >= 0 then Some(Palette[i]) else None
  }

  lemma MakeColorPeriodic(value: int)
    requires value >= 0
    ensures MakeColor(value + 6) == MakeColor(value)
  {
  }

  // ---------------------------------------------------------------------------
  // byte2Hex / RGB2Color
  // ---------------------------------------------------------------------------

  /** ToInt32: the wrap-around JavaScript applies before a bitwise operator. */
  function ToInt32(n: int): (r: int)
    ensures -0x8000_0000 <= r < 0x8000_0000
    ensures (r - n) % 0x1_0000_0000 == 0
  {
    var m := n % 0x1_0000_0000;
    if m >= 0x8000_0000 then m - 0x1_0000_0000 else m
  }

  /** `"0123456789ABCDEF".substr(d, 1)`. */
  function UpperDigit(d: int): char
    requires 0 <= d < 16
  {
    if d < 10 then (48 + d) as char else (55 + d) as char
  }

  predicate IsUpperHexDigit(c: char) {
    '0' <= c <= '9' || 'A' <= c <= 'F'
  }

  function UpperDigitValue(c: char): int {
    if c <= '9' then c as int - 48 else c as int - 55
  }

  lemma ModOfWrapped(r: int, n: int)
    requires (r - n) % 0x1_0000_0000 == 0
    ensures r % 256 == n % 256
  {
    var k := (r - n) / 0x1_0000_0000;
    assert r == n + k * 0x1_0000_0000;
    assert r == n + (k * 0x100_0000) * 256;
  }

  /** byte2Hex: `(n >> 4) & 0x0f` and `n & 0x0f` as upper-case digits; the
      two digits spell `n` modulo 256, whatever the sign or size of `n`. */
  function Byte2Hex(n: int): (r: string)
    ensures |r| == 2 && IsUpperHexDigit(r[0]) && IsUpperHexDigit(r[1])
    ensures UpperDigitValue(r[0]) * 16 + UpperDigitValue(r[1]) == n % 256
  {
    var w := ToInt32(n);
    ModOfWrapped(w, n);
    assert w % 256 == (w / 16 % 16) * 16 + w % 16;
    [UpperDigit(w / 16 % 16), UpperDigit(w % 16)]
  }

  /** RGB2Color: "#" followed by the three bytes in upper-case hex. */
  function RGB2Color(r: int, g: int, b: int): (c: string)
    ensures |c| == 7 && c[0] == '#'
    ensures c[1..3] == Byte2Hex(r) && c[3..5] == Byte2Hex(g) && c[5..7] == Byte2Hex(b)
    ensures forall k :: 1 <= k < 7 ==> IsUpperHexDigit(c[k])
  {
    "#" + Byte2Hex(r) + Byte2Hex(g) + Byte2Hex(b)
  }

  // ---------------------------------------------------------------------------
  // increaseBrightness
  // ---------------------------------------------------------------------------

  /** The characters matched by `\s` (and trimmed by `parseInt`). */
  predicate IsSpace(c: char) {
    || c == ' ' || c == '\t' || c == '\n' || c == '\r' || c == '\U{B}' || c == '\U{C}'
    || c == '\U{A0}' || c == '\U{1680}' || ('\U{2000}' <= c <= '\U{200A}')
    || c == '\U{2028}' || c == '\U{2029}' || c == '\U{202F}' || c == '\U{205F}'
    || c == '\U{3000}' || c == '\U{FEFF}'
  }

  /** The characters a regular-expression `.` does not match. */
  predicate IsLineTerminator(c: char) {
    c == '\n' || c == '\r' || c == '\U{2028}' || c == '\U{2029}'
  }

  function LeadingSpaces(s: string): (k: nat)
    ensures k <= |s|
    ensures forall i :: 0 <= i < k ==> IsSpace(s[i])
    ensures k < |s| ==> !IsSpace(s[k])
  {
    if s == [] || !IsSpace(s[0]) then 0 else 1 + LeadingSpaces(s[1..])
  }

  /** The `^\s*#` alternative: a '#' after leading white space is removed with it. */
  function StripHash(s: string): string {
    var k := LeadingSpaces(s);
    if k < |s| && s[k] == '#' then s[k + 1..] else s
  }

  /** The `\s*$` alternative: trailing white space is removed. */
  function TrimEnd(s: string): (r: string)
    ensures r == [] || !IsSpace(r[|r| - 1])
    ensures r <= s
  {
    if s != [] && IsSpace(s[|s| - 1]) then TrimEnd(s[..|s| - 1]) else s
  }

  /** `hex.replace(/^\s*#|\s*$/g, "")`. */
  function Normalise(hex: string): string {
    TrimEnd(StripHash(hex))
  }

  /** `hex.replace(/(.)/g, "$1$1")`: every character but a line terminator is doubled. */
  function DoubleChars(s: string): string {
    if s == [] then []
    else (if IsLineTerminator(s[0]) then [s[0]] else [s[0], s[0]]) + DoubleChars(s[1..])
  }

  /** Three-digit colours are expanded to six digits. */
  function Expand(hex: string): string {
    if |hex| == 3 then DoubleChars(hex) else hex
  }

  predicate IsHexDigit(c: char) {
    '0' <= c <= '9' || 'a' <= c <= 'f' || 'A' <= c <= 'F'
  }

  function HexDigitValue(c: char): (d: int)
    requires IsHexDigit(c)
    ensures 0 <= d < 16
  {
    if c <= '9' then c as int - 48 else if c <= 'F' then c as int - 55 else c as int - 87
  }

  function HexPrefixLength(s: string): (k: nat)
    ensures k <= |s|
    ensures forall i :: 0 <= i < k ==> IsHexDigit(s[i])
    ensures k < |s| ==> !IsHexDigit(s[k])
  {
    if s == [] || !IsHexDigit(s[0]) then 0 else 1 + HexPrefixLength(s[1..])
  }

  function HexValue(s: string): int
    requires forall i :: 0 <= i < |s| ==> IsHexDigit(s[i])
  {
    if s == [] then 0 else HexValue(s[..|s| - 1]) * 16 + HexDigitValue(s[|s| - 1])
  }

  /** `parseInt(s, 16)`: leading white space and a sign are skipped, then an
      optional "0x"; the longest run of hex digits is read.  None is NaN. */
  function ParseHex(s: string): Option<int> {
    var t := s[LeadingSpaces(s)..];
    var negative := |t| > 0 && t[0] == '-';
    var u := if |t| > 0 && (t[0] == '-' || t[0] == '+') then t[1..] else t;
    var w := if |u| >= 2 && u[0] == '0' && (u[1] == 'x' || u[1] == 'X') then u[2..] else u;
    var d := HexPrefixLength(w);
    if d == 0 then None
    else Some(if negative then -HexValue(w[..d]) else HexValue(w[..d]))
  }

  /** `s.substr(start, 2)`. */
  function Substr2(s: string, start: nat): string {
    if start >= |s| then [] else if start + 2 >= |s| then s[start..] else s[start..start + 2]
  }

  function LowerDigit(d: int): char
    requires 0 <= d < 16
  {
    if d < 10 then (48 + d) as char else (87 + d) as char
  }

  /** `n.toString(16)` for a non-negative integer. */
  function LowerHex(n: nat): string {
    if n < 16 then [LowerDigit(n)] else LowerHex(n / 16) + [LowerDigit(n % 16)]
  }

  /** `v.toString(16)` for any integer. */
  function JsHex(v: int): string {
    if v < 0 then "-" + LowerHex(-v) else LowerHex(v)
  }

  /** Two lower-case hex digits of a byte. */
  function Hex2(n: int): (r: string)
    requires 0 <= n < 256
    ensures |r| == 2
  {
    [LowerDigit(n / 16), LowerDigit(n % 16)]
  }

  /** Truncation toward zero of a real. */
  function Trunc(x: real): int {
    if x >= 0.0 then x.Floor else -((-x).Floor)
  }

  /** `(a * percent) / 100`: the share of the distance to white that is added. */
  function Gain(a: real, percent: real): real {
    a * percent / 100.0
  }

  /** `(1 << 8) + c + ((256 - c) * percent) / 100`, before the bitwise or. */
  function Mixed(c: int, percent: real): real {
    (256 + c) as real + Gain((256 - c) as real, percent)
  }

  /** `(0 | n).toString(16).substr(1)`. */
  function PrintTail(n: int): string {
    var s := JsHex(ToInt32(n));
    if s == [] then [] else s[1..]
  }

  /** One channel.  A NaN channel (None) becomes 0, which prints as "0" and leaves "". */
  function Channel(c: Option<int>, percent: real): string {
    match c
    case None => ""
    case Some(v) => PrintTail(Trunc(Mixed(v, percent)))
  }

  /** The channel read from the two characters of `h` at `k`. */
  function ChannelAt(h: string, k: nat, percent: real): string {
    Channel(ParseHex(Substr2(h, k)), percent)
  }

  /** The colour built from the normalised digits `h`. */
  function Brightened(h: string, percent: real): string {
    "#" + ChannelAt(h, 0, percent) + ChannelAt(h, 2, percent) + ChannelAt(h, 4, percent)
  }

  /** increaseBrightness(hex, percent). */
  function IncreaseBrightness(hex: string, percent: real): (r: string)
    ensures |r| >= 1 && r[0] == '#'
  {
    Brightened(Expand(Normalise(hex)), percent)
  }

  // --- properties of increaseBrightness ---

  /** A colour string: exactly six hex digits, in either case. */
  predicate IsHex6(h: string) {
    |h| == 6 && forall i :: 0 <= i < 6 ==> IsHexDigit(h[i])
  }

  /** The byte spelled by the two hex digits of `h` at `k`. */
  function Pair(h: string, k: nat): (b: int)
    requires IsHex6(h) && k <= 4
    ensures 0 <= b < 256
  {
    HexDigitValue(h[k]) * 16 + HexDigitValue(h[k + 1])
  }

  /** The brightened value of a channel: c + floor((256 - c) * percent / 100). */
  function Brighten(c: int, percent: real): int {
    c + Gain((256 - c) as real, percent).Floor
  }

  lemma GainBounds(a: real, percent: real)
    requires a > 0.0 && 0.0 <= percent < 100.0
    ensures 0.0 <= Gain(a, percent) < a
  {
    assert a * 100.0 - a * percent == a * (100.0 - percent);
  }

  lemma FloorBounds(y: real, n: int)
    requires 0.0 <= y < n as real
    ensures 0 <= y.Floor < n
  {
  }

  /** Below 100 percent a channel never decreases and stays a byte. */
  lemma BrightenBounds(c: int, percent: real)
    requires 0 <= c < 256 && 0.0 <= percent < 100.0
    ensures c <= Brighten(c, percent) < 256
  {
    GainBounds((256 - c) as real, percent);
    FloorBounds(Gain((256 - c) as real, percent), 256 - c);
  }

  lemma FloorShift(n: int, y: real)
    ensures (n as real + y).Floor == n + y.Floor
  {
  }

  lemma TruncOfChannel(c: int, percent: real)
    requires 0 <= c < 256 && 0.0 <= percent < 100.0
    ensures Trunc(Mixed(c, percent)) == 256 + Brighten(c, percent)
  {
    GainBounds((256 - c) as real, percent);
    FloorShift(256 + c, Gain((256 - c) as real, percent));
  }

  lemma LowerHexThreeDigits(v: int)
    requires 256 <= v < 512
    ensures LowerHex(v) == ['1'] + Hex2(v - 256)
  {
    var q := v / 16;
    assert 16 <= q < 32;
    assert LowerHex(q) == LowerHex(1) + [LowerDigit(q % 16)];
    assert q % 16 == (v - 256) / 16;
    assert v % 16 == (v - 256) % 16;
  }

  lemma PrintTailThreeDigits(v: int)
    requires 256 <= v < 512
    ensures PrintTail(v) == Hex2(v - 256)
  {
    assert ToInt32(v) == v;
    LowerHexThreeDigits(v);
  }

  lemma ChannelOfByte(c: int, percent: real)
    requires 0 <= c < 256 && 0.0 <= percent < 100.0
    ensures 0 <= Brighten(c, percent) < 256
    ensures Channel(Some(c), percent) == Hex2(Brighten(c, percent))
  {
    BrightenBounds(c, percent);
    TruncOfChannel(c, percent);
    PrintTailThreeDigits(256 + Brighten(c, percent));
  }

  lemma ParseHexPair(p: string)
    requires |p| == 2 && IsHexDigit(p[0]) && IsHexDigit(p[1])
    ensures ParseHex(p) == Some(HexDigitValue(p[0]) * 16 + HexDigitValue(p[1]))
  {
    assert !IsSpace(p[0]);
    assert LeadingSpaces(p) == 0;
    assert p[0] != '-' && p[0] != '+';
    assert !(p[0] == '0' && (p[1] == 'x' || p[1] == 'X'));
    assert HexPrefixLength(p[1..]) == 1;
    assert HexPrefixLength(p) == 2;
    assert p[..2] == p;
    assert p[..1] == [p[0]];
    assert HexValue([p[0]]) == HexValue([]) * 16 + HexDigitValue(p[0]);
  }

  /** `parseInt(h.substr(k, 2), 16)` reads the byte at `k` of a six-digit colour. */
  lemma ParseSubstr(h: string, k: nat)
    requires IsHex6(h) && k <= 4
    ensures ParseHex(Substr2(h, k)) == Some(Pair(h, k))
  {
    var p := Substr2(h, k);
    assert p == h[k..k + 2];
    assert p[0] == h[k] && p[1] == h[k + 1];
    ParseHexPair(p);
  }

  lemma ChannelAtHex6(h: string, k: nat, percent: real)
    requires IsHex6(h) && k <= 4 && 0.0 <= percent < 100.0
    ensures Pair(h, k) <= Brighten(Pair(h, k), percent) < 256
    ensures ChannelAt(h, k, percent) == Hex2(Brighten(Pair(h, k), percent))
  {
    ParseSubstr(h, k);
    ChannelOfByte(Pair(h, k), percent);
    BrightenBounds(Pair(h, k), percent);
  }

  /** For six hex digits and 0 <= percent < 100, each output channel is
      c + floor((256 - c) * percent / 100), which lies in [c, 255], printed as
      two lower-case hex digits. */
  lemma BrightenedHex6(h: string, percent: real)
    requires IsHex6(h) && 0.0 <= percent < 100.0
    ensures Pair(h, 0) <= Brighten(Pair(h, 0), percent) < 256
    ensures Pair(h, 2) <= Brighten(Pair(h, 2), percent) < 256
    ensures Pair(h, 4) <= Brighten(Pair(h, 4), percent) < 256
    ensures Brightened(h, percent)
            == "#" + Hex2(Brighten(Pair(h, 0), percent)) + Hex2(Brighten(Pair(h, 2), percent))
                   + Hex2(Brighten(Pair(h, 4), percent))
  {
    ChannelAtHex6(h, 0, percent);
    ChannelAtHex6(h, 2, percent);
    ChannelAtHex6(h, 4, percent);
  }

  /** The same, stated for the string passed to increaseBrightness. */
  lemma BrightenHex6(hex: string, percent: real)
    requires IsHex6(Expand(Normalise(hex))) && 0.0 <= percent < 100.0
    ensures var h := Expand(Normalise(hex));
            && Pair(h, 0) <= Brighten(Pair(h, 0), percent) < 256
            && Pair(h, 2) <= Brighten(Pair(h, 2), percent) < 256
            && Pair(h, 4) <= Brighten(Pair(h, 4), percent) < 256
            && IncreaseBrightness(hex, percent)
               == "#" + Hex2(Brighten(Pair(h, 0), percent)) + Hex2(Brighten(Pair(h, 2), percent))
                      + Hex2(Brighten(Pair(h, 4), percent))
  {
    BrightenedHex6(Expand(Normalise(hex)), percent);
  }

  lemma ChannelAtFull(c: int)
    requires 0 <= c < 256
    ensures Channel(Some(c), 100.0) == "00"
  {
    assert Gain((256 - c) as real, 100.0) == (256 - c) as real;
    assert Mixed(c, 100.0) == 512.0;
    assert Trunc(512.0) == 512;
    assert ToInt32(512) == 512;
    assert LowerHex(512) == LowerHex(32) + [LowerDigit(0)];
    assert LowerHex(32) == LowerHex(2) + [LowerDigit(0)];
  }

  lemma ChannelAtHex6Full(h: string, k: nat)
    requires IsHex6(h) && k <= 4
    ensures ChannelAt(h, k, 100.0) == "00"
  {
    ParseSubstr(h, k);
    ChannelAtFull(Pair(h, k));
  }

  lemma BrightenedFull(h: string)
    requires IsHex6(h)
    ensures Brightened(h, 100.0) == "#" + "00" + "00" + "00"
  {
    ChannelAtHex6Full(h, 0);
    ChannelAtHex6Full(h, 2);
    ChannelAtHex6Full(h, 4);
  }

  /** Brightening by 100 percent wraps every channel to 512, printed "00". */
  lemma FullBrightnessIsBlack(hex: string)
    requires IsHex6(Expand(Normalise(hex)))
    ensures IncreaseBrightness(hex, 100.0) == "#000000"
  {
    BrightenedFull(Expand(Normalise(hex)));
    BlackSpelled();
  }

  lemma BlackSpelled()
    ensures "#" + "00" + "00" + "00" == "#000000"
  {
  }

  /** Three-digit colours are expanded by doubling: "E0F" becomes "EE00FF". */
  lemma ExpandThree(t: string)
    requires |t| == 3 && IsHexDigit(t[0]) && IsHexDigit(t[1]) && IsHexDigit(t[2])
    ensures Expand(t) == [t[0], t[0], t[1], t[1], t[2], t[2]]
  {
    assert t[1..][1..] == [t[2]];
    assert DoubleChars([t[2]]) == [t[2], t[2]] + DoubleChars([]);
    assert DoubleChars(t[1..]) == [t[1], t[1]] + DoubleChars([t[2]]);
    assert DoubleChars(t) == [t[0], t[0]] + DoubleChars(t[1..]);
  }

  /** Normalisation strips a leading "#" (after white space) and trailing white space. */
  lemma NormaliseHashColour(h: string)
    requires |h| > 0 && IsHexDigit(h[|h| - 1])
    ensures Normalise("#" + h) == h
  {
    var s := "#" + h;
    assert !IsSpace('#');
    assert LeadingSpaces(s) == 0;
    assert StripHash(s) == h;
    assert !IsSpace(h[|h| - 1]);
  }
}
