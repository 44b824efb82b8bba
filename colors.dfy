/**
 * `hex_color_gradient` with its helpers `hex_to_rgb` and `rgb_to_hex`: colours are strings
 * `#rrggbb`, parsed into three channel values and formatted back with two lower-case hex
 * digits each; the gradient spaces `steps` colours evenly from the start to the end colour.
 */
module Colors {
  import opened Wrappers

  /** The Python exceptions the colour code can raise. */
  datatype Failure = ValueError | ZeroDivisionError

  // ---------------------------------------------------------------------------------
  // Hex digits
  // ---------------------------------------------------------------------------------

  /** A hex digit of either case. */
  predicate IsHexDigit(c: char)
  {
    '0' <= c <= '9' || 'a' <= c <= 'f' || 'A' <= c <= 'F'
  }

  /** A digit as `int(..., 16)` reads it. */
  function DigitValue(c: char): (r: nat)
    requires IsHexDigit(c)
    ensures r < 16
  {
    if '0' <= c <= '9' then c as int - '0' as int
    else if 'a' <= c <= 'f' then c as int - 'a' as int + 10
    else c as int - 'A' as int + 10
  }

  /** The lower-case digit `format(..., "x")` writes for `n`. */
  function Digit(n: nat): (c: char)
    requires n < 16
    ensures IsHexDigit(c)
  {
    if n < 10 then (n + '0' as int) as char else (n - 10 + 'a' as int) as char
  }

  /** A hex digit in lower case. */
  function Lower(c: char): char
    requires IsHexDigit(c)
  {
    if 'A' <= c <= 'F' then (c as int - 'A' as int + 'a' as int) as char else c
  }

  /** Reading a written digit gives the number back; writing a read digit gives it in lower case. */
  lemma DigitRoundTrip(n: nat, c: char)
    requires n < 16 && IsHexDigit(c)
    ensures DigitValue(Digit(n)) == n
    ensures Digit(DigitValue(c)) == Lower(c)
  {
  }

  /** Every character of `t` is a hex digit. */
  predicate AllHex(t: string)
  {
    forall k | 0 <= k < |t| :: IsHexDigit(t[k])
  }

  /** The number the hex digits `t` spell, most significant first. */
  function HexNumber(t: string): nat
    requires AllHex(t)
  {
    if t == [] then 0 else HexNumber(t[..|t| - 1]) * 16 + DigitValue(t[|t| - 1])
  }

  /** `n` in hex, lower case, without leading zeros (`format(n, "x")`). */
  function HexString(n: nat): (r: string)
    ensures r != [] && AllHex(r)
  {
    if n < 16 then [Digit(n)] else HexString(n / 16) + [Digit(n % 16)]
  }

  /** `format(x, "02x")`: hex digits padded with zeros to width 2, after a sign if there is one. */
  function Hex02(x: int): string
  {
    if 0 <= x < 16 then ['0', Digit(x)]
    else if x >= 0 then HexString(x)
    else "-" + HexString(-x)
  }

  /** Two hex digits spell 16 times the first plus the second. */
  lemma HexPair(a: char, b: char)
    requires IsHexDigit(a) && IsHexDigit(b)
    ensures AllHex([a, b]) && HexNumber([a, b]) == DigitValue(a) * 16 + DigitValue(b)
  {
    var t := [a, b];
    assert t[..1] == [a] && [a][..0] == [];
    assert HexNumber([a]) == DigitValue(a);
  }

  /** A channel value from 0 to 255 is written as its two lower-case digits. */
  lemma Hex02Channel(x: int)
    requires 0 <= x <= 255
    ensures Hex02(x) == [Digit(x / 16), Digit(x % 16)]
  {
    if x >= 16 {
      assert HexString(x / 16) == [Digit(x / 16)];
    }
  }

  /** Two hex digits read as a channel value from 0 to 255 and written again come back in lower case. */
  lemma Hex02Digits(a: char, b: char)
    requires IsHexDigit(a) && IsHexDigit(b)
    ensures AllHex([a, b]) && 0 <= HexNumber([a, b]) <= 255
    ensures Hex02(HexNumber([a, b])) == [Lower(a), Lower(b)]
  {
    HexPair(a, b);
    var x := HexNumber([a, b]);
    assert x / 16 == DigitValue(a) && x % 16 == DigitValue(b);
    Hex02Channel(x);
    DigitRoundTrip(0, a);
    DigitRoundTrip(0, b);
  }

  // ---------------------------------------------------------------------------------
  // hex_to_rgb and rgb_to_hex
  // ---------------------------------------------------------------------------------

  /** `s.lstrip("#")`: `s` without its leading `#` characters. */
  function StripHashes(s: string): (r: string)
    ensures |r| <= |s| && r == s[|s| - |r|..]
    ensures r == [] || r[0] != '#'
    ensures forall k | 0 <= k < |s| - |r| :: s[k] == '#'
  {
    if s != [] && s[0] == '#' then StripHashes(s[1..]) else s
  }

  /** Python's slice `t[i:j]`, whose ends are cut back to the length of `t`. */
  function Slice(t: string, i: nat, j: nat): (r: string)
    requires i <= j
    ensures |r| <= j - i
  {
    var hi := if j <= |t| then j else |t|;
    var lo := if i <= hi then i else hi;
    t[lo..hi]
  }

  /**
   * `int(t, 16)` for the slices `hex_to_rgb` cuts, of at most two characters: one or two
   * hex digits of either case give their value; an empty slice or any other character
   * raises ValueError.
   */
  function ParseHex(t: string): (r: Result<int, Failure>)
  {
    if t != [] && AllHex(t) then Ok(HexNumber(t)) else Err(ValueError)
  }

  /**
   * `hex_to_rgb`: strip the leading `#`s, then read characters 0-1, 2-3 and 4-5 as hex
   * numbers; the first slice that does not read raises ValueError.
   */
  function HexToRgb(s: string): (r: Result<seq<int>, Failure>)
    ensures r.Ok? ==> |r.value| == 3 && forall j | 0 <= j < 3 :: 0 <= r.value[j] <= 255
    ensures r.Err? ==> r.error == ValueError
  {
    var h := StripHashes(s);
    var red, green, blue := ParseHex(Slice(h, 0, 2)), ParseHex(Slice(h, 2, 4)), ParseHex(Slice(h, 4, 6));
    if red.Err? then Err(ValueError)
    else if green.Err? then Err(ValueError)
    else if blue.Err? then Err(ValueError)
    else
      ChannelRange(Slice(h, 0, 2));
      ChannelRange(Slice(h, 2, 4));
      ChannelRange(Slice(h, 4, 6));
      Ok([red.value, green.value, blue.value])
  }

  /** At most two hex digits read as a number from 0 to 255. */
  lemma ChannelRange(t: string)
    requires |t| <= 2
    ensures ParseHex(t).Ok? ==> 0 <= ParseHex(t).value <= 255
  {
    if t != [] && AllHex(t) {
      if |t| == 2 {
        assert t == [t[0], t[1]];
        HexPair(t[0], t[1]);
      } else {
        assert t[..0] == [] && HexNumber(t[..0]) == 0;
      }
    }
  }

  /** `rgb_to_hex`: `#` and each channel formatted by `Hex02`. */
  function RgbToHex(rgb: seq<int>): string
    requires |rgb| == 3
  {
    "#" + Hex02(rgb[0]) + Hex02(rgb[1]) + Hex02(rgb[2])
  }

  /** A colour string: `#` and six hex digits. */
  predicate IsColor(s: string)
  {
    |s| == 7 && s[0] == '#' && AllHex(s[1..])
  }

  /** `s` with its hex digits in lower case. */
  function LowerColor(s: string): (r: string)
    requires IsColor(s)
    ensures IsColor(r)
  {
    ['#', Lower(s[1]), Lower(s[2]), Lower(s[3]), Lower(s[4]), Lower(s[5]), Lower(s[6])]
  }

  /** `hex_to_rgb` reads `#` and six hex digits as the numbers the three digit pairs spell. */
  lemma ReadColor(c1: char, c2: char, c3: char, c4: char, c5: char, c6: char)
    requires IsHexDigit(c1) && IsHexDigit(c2) && IsHexDigit(c3) && IsHexDigit(c4) && IsHexDigit(c5) && IsHexDigit(c6)
    ensures AllHex([c1, c2]) && AllHex([c3, c4]) && AllHex([c5, c6])
    ensures HexToRgb(['#', c1, c2, c3, c4, c5, c6])
         == Ok([HexNumber([c1, c2]), HexNumber([c3, c4]), HexNumber([c5, c6])])
  {
    var h := [c1, c2, c3, c4, c5, c6];
    assert ['#', c1, c2, c3, c4, c5, c6][1..] == h;
    assert StripHashes(h) == h;
    assert Slice(h, 0, 2) == [c1, c2];
    assert Slice(h, 2, 4) == [c3, c4];
    assert Slice(h, 4, 6) == [c5, c6];
  }

  /** A colour string is `#` and its six digits. */
  lemma ColorChars(s: string)
    requires IsColor(s)
    ensures s == ['#', s[1], s[2], s[3], s[4], s[5], s[6]]
    ensures IsHexDigit(s[1]) && IsHexDigit(s[2]) && IsHexDigit(s[3]) && IsHexDigit(s[4]) && IsHexDigit(s[5]) && IsHexDigit(s[6])
  {
    assert s[1..][0] == s[1] && s[1..][1] == s[2] && s[1..][2] == s[3];
    assert s[1..][3] == s[4] && s[1..][4] == s[5] && s[1..][5] == s[6];
  }

  /** `rgb_to_hex` writes `#` followed by the three channels' digit pairs. */
  lemma HexOfPairs(rgb: seq<int>, c1: char, c2: char, c3: char, c4: char, c5: char, c6: char)
    requires |rgb| == 3 && Hex02(rgb[0]) == [c1, c2] && Hex02(rgb[1]) == [c3, c4] && Hex02(rgb[2]) == [c5, c6]
    ensures RgbToHex(rgb) == ['#', c1, c2, c3, c4, c5, c6]
  {
  }

  /** Three channels are the display of their elements. */
  lemma Channels(rgb: seq<int>)
    requires |rgb| == 3
    ensures rgb == [rgb[0], rgb[1], rgb[2]]
  {
  }

  /** The two digits written for a channel value from 0 to 255 spell it. */
  lemma ChannelDigits(x: int)
    requires 0 <= x <= 255
    ensures Hex02(x) == [Digit(x / 16), Digit(x % 16)]
    ensures AllHex([Digit(x / 16), Digit(x % 16)]) && HexNumber([Digit(x / 16), Digit(x % 16)]) == x
    ensures Lower(Digit(x / 16)) == Digit(x / 16) && Lower(Digit(x % 16)) == Digit(x % 16)
  {
    Hex02Channel(x);
    DigitRoundTrip(x / 16, '0');
    DigitRoundTrip(x % 16, '0');
    HexPair(Digit(x / 16), Digit(x % 16));
  }

  /** Six lower-case hex digits after `#` form a colour string already in lower case. */
  lemma LowerDigits(c1: char, c2: char, c3: char, c4: char, c5: char, c6: char)
    requires IsHexDigit(c1) && IsHexDigit(c2) && IsHexDigit(c3) && IsHexDigit(c4) && IsHexDigit(c5) && IsHexDigit(c6)
    requires Lower(c1) == c1 && Lower(c2) == c2 && Lower(c3) == c3 && Lower(c4) == c4 && Lower(c5) == c5 && Lower(c6) == c6
    ensures IsColor(['#', c1, c2, c3, c4, c5, c6])
    ensures LowerColor(['#', c1, c2, c3, c4, c5, c6]) == ['#', c1, c2, c3, c4, c5, c6]
  {
    assert ['#', c1, c2, c3, c4, c5, c6][1..] == [c1, c2, c3, c4, c5, c6];
  }

  /** Channels from 0 to 255 are written as a lower-case colour string that `hex_to_rgb` reads back as them. */
  lemma RgbRoundTrip(rgb: seq<int>)
    requires |rgb| == 3 && forall j | 0 <= j < 3 :: 0 <= rgb[j] <= 255
    ensures IsColor(RgbToHex(rgb)) && LowerColor(RgbToHex(rgb)) == RgbToHex(rgb)
    ensures HexToRgb(RgbToHex(rgb)) == Ok(rgb)
  {
    var r, g, b := rgb[0], rgb[1], rgb[2];
    ChannelDigits(r);
    ChannelDigits(g);
    ChannelDigits(b);
    HexOfPairs(rgb, Digit(r / 16), Digit(r % 16), Digit(g / 16), Digit(g % 16), Digit(b / 16), Digit(b % 16));
    LowerDigits(Digit(r / 16), Digit(r % 16), Digit(g / 16), Digit(g % 16), Digit(b / 16), Digit(b % 16));
    ReadColor(Digit(r / 16), Digit(r % 16), Digit(g / 16), Digit(g % 16), Digit(b / 16), Digit(b % 16));
    Channels(rgb);
  }

  /** A colour string read by `hex_to_rgb` and written by `rgb_to_hex` comes back in lower case. */
  lemma ColorRoundTrip(s: string)
    requires IsColor(s)
    ensures HexToRgb(s).Ok?
    ensures RgbToHex(HexToRgb(s).value) == LowerColor(s)
  {
    ColorChars(s);
    ReadColor(s[1], s[2], s[3], s[4], s[5], s[6]);
    Hex02Digits(s[1], s[2]);
    Hex02Digits(s[3], s[4]);
    Hex02Digits(s[5], s[6]);
    var rgb := HexToRgb(s).value;
    HexOfPairs(rgb, Lower(s[1]), Lower(s[2]), Lower(s[3]), Lower(s[4]), Lower(s[5]), Lower(s[6]));
  }

  // ---------------------------------------------------------------------------------
  // hex_color_gradient
  // ---------------------------------------------------------------------------------

  /**
   * Channel value `i` of `steps` between `s` and `e`. The source computes
   * `int(s + (e - s) * i / (steps - 1))` in floating point; for channels from 0 to 255 and
   * `0 <= i < steps` that value is never negative, so truncating it is rounding down, which
   * is what `/` on integers with a positive divisor does.
   */
  function Channel(s: int, e: int, i: int, steps: int): int
    requires steps > 1
  {
    s + (e - s) * i / (steps - 1)
  }

  /** The three channels of colour `i` of `steps`. */
  function Blend(start: seq<int>, end: seq<int>, i: int, steps: int): (r: seq<int>)
    requires |start| == 3 && |end| == 3 && steps > 1
    ensures |r| == 3
  {
    seq(3, j requires 0 <= j < 3 => Channel(start[j], end[j], i, steps))
  }

  /** The first channel value is the start, the last is the end, and every one lies between them. */
  lemma ChannelBetween(s: int, e: int, i: int, steps: int)
    requires steps > 1 && 0 <= i < steps
    ensures i == 0 ==> Channel(s, e, i, steps) == s
    ensures i == steps - 1 ==> Channel(s, e, i, steps) == e
    ensures s <= e ==> s <= Channel(s, e, i, steps) <= e
    ensures e <= s ==> e <= Channel(s, e, i, steps) <= s
  {
    var d := steps - 1;
    if s <= e {
      MulMonotone(e - s, 0, i);
      MulMonotone(e - s, i, d);
      DivBounds((e - s) * i, d, e - s);
    } else {
      MulMonotone(s - e, 0, i);
      MulMonotone(s - e, i, d);
      assert (e - s) * i == -((s - e) * i);
      DivBoundsNegative((e - s) * i, d, s - e);
    }
    if i == d {
      MulDiv(e - s, d);
    }
  }

  /** `c * d / d == c` for positive `d`. */
  lemma MulDiv(c: int, d: int)
    requires d > 0
    ensures c * d / d == c
  {
    var q := c * d / d;
    assert c * d == d * q + c * d % d && 0 <= c * d % d < d;
    if q < c {
      MulMonotone(d, q + 1, c);
    } else if q > c {
      MulMonotone(d, c + 1, q);
    }
  }

  /** Multiplying by a non-negative number keeps an order. */
  lemma MulMonotone(d: int, a: int, b: int)
    requires d >= 0 && a <= b
    ensures d * a <= d * b
  {
    assert d * b - d * a == d * (b - a);
  }

  /** `0 <= x <= c * d` gives `0 <= x / d <= c`. */
  lemma DivBounds(x: int, d: int, c: int)
    requires d > 0 && c >= 0 && 0 <= x <= c * d
    ensures 0 <= x / d <= c
  {
    var q := x / d;
    assert x == d * q + x % d && 0 <= x % d < d;
    if q < 0 {
      MulMonotone(d, q, -1);
    }
    if q > c {
      MulMonotone(d, c + 1, q);
    }
  }

  /** `-(c * d) <= x <= 0` gives `-c <= x / d <= 0`. */
  lemma DivBoundsNegative(x: int, d: int, c: int)
    requires d > 0 && c >= 0 && -(c * d) <= x <= 0
    ensures -c <= x / d <= 0
  {
    var q := x / d;
    assert x == d * q + x % d && 0 <= x % d < d;
    if q > 0 {
      MulMonotone(d, 1, q);
    }
    if q < -c {
      MulMonotone(d, q, -c - 1);
    }
  }

  /**
   * `hex_color_gradient`: both colours are read first (ValueError if either does not
   * read), then colour `i` for each `i` in `range(steps)`; a single step divides by zero
   * and no step at all gives the empty list.
   */
  method HexColorGradient(start: string, end: string, steps: int) returns (r: Result<seq<string>, Failure>)
    ensures r.Err? <==> HexToRgb(start).Err? || HexToRgb(end).Err? || steps == 1
    ensures r.Err? ==> r.error == if HexToRgb(start).Err? || HexToRgb(end).Err? then ValueError else ZeroDivisionError
    ensures r.Ok? ==> |r.value| == if steps > 0 then steps else 0
    ensures r.Ok? ==> forall i | 0 <= i < |r.value| ::
                        r.value[i] == RgbToHex(Blend(HexToRgb(start).value, HexToRgb(end).value, i, steps))
  {
    var startRgb := HexToRgb(start);
    if startRgb.Err? {
      return Err(ValueError);
    }
    var endRgb := HexToRgb(end);
    if endRgb.Err? {
      return Err(ValueError);
    }
    var gradient: seq<string> := [];
    var n := if steps > 0 then steps else 0;
    for i := 0 to n
      invariant |gradient| == i
      invariant i > 0 ==> steps > 1
      invariant forall k | 0 <= k < i :: gradient[k] == RgbToHex(Blend(startRgb.value, endRgb.value, k, steps))
    {
      if steps - 1 == 0 {
        return Err(ZeroDivisionError);
      }
      var interpolated := Blend(startRgb.value, endRgb.value, i, steps);
      GradientStep(gradient, RgbToHex(interpolated), startRgb.value, endRgb.value, i, steps);
      gradient := gradient + [RgbToHex(interpolated)];
    }
    r := Ok(gradient);
  }

  /** Appending colour `i` to the first `i` colours gives the first `i + 1`. */
  lemma GradientStep(gradient: seq<string>, c: string, start: seq<int>, end: seq<int>, i: nat, steps: int)
    requires |start| == 3 && |end| == 3 && steps > 1 && |gradient| == i
    requires forall k | 0 <= k < i :: gradient[k] == RgbToHex(Blend(start, end, k, steps))
    requires c == RgbToHex(Blend(start, end, i, steps))
    ensures forall k | 0 <= k < i + 1 :: (gradient + [c])[k] == RgbToHex(Blend(start, end, k, steps))
  {
  }

  /**
   * The ends of a gradient of at least two steps: colour 0 is the start colour and colour
   * `steps - 1` the end colour, as `rgb_to_hex` writes them (lower case), and every channel
   * of every colour lies between the start's and the end's.
   */
  lemma GradientEnds(start: seq<int>, end: seq<int>, steps: int)
    requires |start| == 3 && |end| == 3 && steps > 1
    ensures Blend(start, end, 0, steps) == start
    ensures Blend(start, end, steps - 1, steps) == end
    ensures forall i, j | 0 <= i < steps && 0 <= j < 3 ::
              (start[j] <= end[j] ==> start[j] <= Blend(start, end, i, steps)[j] <= end[j]) &&
              (end[j] <= start[j] ==> end[j] <= Blend(start, end, i, steps)[j] <= start[j])
  {
    forall j | 0 <= j < 3
      ensures Blend(start, end, 0, steps)[j] == start[j] && Blend(start, end, steps - 1, steps)[j] == end[j]
    {
      ChannelBetween(start[j], end[j], 0, steps);
      ChannelBetween(start[j], end[j], steps - 1, steps);
    }
    forall i, j | 0 <= i < steps && 0 <= j < 3
      ensures start[j] <= end[j] ==> start[j] <= Blend(start, end, i, steps)[j] <= end[j]
      ensures end[j] <= start[j] ==> end[j] <= Blend(start, end, i, steps)[j] <= start[j]
    {
      ChannelBetween(start[j], end[j], i, steps);
    }
  }

  /** The colours `bfs` and `dfs` blend between, `#1a1a80` and `#aaccff`, read as (26, 26, 128) and (170, 204, 255). */
  lemma TraversalColors()
    ensures HexToRgb("#1a1a80") == Ok([26, 26, 128])
    ensures HexToRgb("#aaccff") == Ok([170, 204, 255])
  {
    assert "#1a1a80" == ['#', '1', 'a', '1', 'a', '8', '0'];
    ReadColor('1', 'a', '1', 'a', '8', '0');
    HexPair('1', 'a');
    HexPair('8', '0');
    assert "#aaccff" == ['#', 'a', 'a', 'c', 'c', 'f', 'f'];
    ReadColor('a', 'a', 'c', 'c', 'f', 'f');
    HexPair('a', 'a');
    HexPair('c', 'c');
    HexPair('f', 'f');
  }
}
