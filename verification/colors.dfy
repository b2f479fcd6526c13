/** The `Color` class: an RGB triple read from and printed as `#rrggbb`
    text, and its channel-wise inversion. Channels are JavaScript numbers;
    the model keeps them as unbounded integers and states its round trips
    for channels in 0..255. */
module Colors {

  datatype Color = Color(r: int, g: int, b: int)

  predicate IsChannel(c: int) {
    0 <= c <= 255
  }

  predicate InRange(c: Color) {
    IsChannel(c.r) && IsChannel(c.g) && IsChannel(c.b)
  }

  /** A digit `parseInt(_, 16)` accepts. */
  predicate IsHexDigit(ch: char) {
    '0' <= ch <= '9' || 'a' <= ch <= 'f' || 'A' <= ch <= 'F'
  }

  /** A digit `toString(16)` prints. */
  predicate IsLowerHexDigit(ch: char) {
    '0' <= ch <= '9' || 'a' <= ch <= 'f'
  }

  function DigitValue(ch: char): (d: nat)
    requires IsHexDigit(ch)
    ensures d < 16
  {
    if '0' <= ch <= '9' then ch as int - '0' as int
    else if 'a' <= ch <= 'f' then ch as int - 'a' as int + 10
    else ch as int - 'A' as int + 10
  }

  function HexDigit(d: nat): (ch: char)
    requires d < 16
    ensures IsLowerHexDigit(ch) && IsHexDigit(ch)
  {
    if d < 10 then ('0' as int + d) as char else ('a' as int + d - 10) as char
  }

  /** The lower-case form of a hex digit. */
  function Lower(ch: char): char {
    if 'A' <= ch <= 'F' then (ch as int - 'A' as int + 'a' as int) as char else ch
  }

  /** `n.toString(16)` for a natural number: its digits in base 16, most
      significant first, with no leading zero. */
  function NatToHex(n: nat): (s: string)
    ensures 1 <= |s|
    ensures forall i :: 0 <= i < |s| ==> IsLowerHexDigit(s[i]) && IsHexDigit(s[i])
    // the digits read back in base 16 give the number
    ensures ParseHex(s) == n
    // no leading zero, as `toString(16)` prints
    ensures |s| > 1 ==> s[0] != '0'
    decreases n
  {
    if n < 16 then
      var s := [HexDigit(n)];
      DigitOfHex(n);
      assert s[..0] == [];
      s
    else
      var front := NatToHex(n / 16);
      var s := front + [HexDigit(n % 16)];
      DigitOfHex(n % 16);
      assert s[..|s| - 1] == front;
      s
  }

  /** `n.toString(16)` for any integer: a minus sign before the digits of
      a negative number. */
  function IntToHex(n: int): string {
    if n < 0 then "-" + NatToHex(-n) else NatToHex(n)
  }

  /** The text of `n.toString(16)` reads back as `n`: digits with no
      leading zero, after a minus sign when `n` is negative. */
  lemma IntToHexReads(n: int)
    ensures var s := IntToHex(n);
      n >= 0 ==> 1 <= |s| && (forall i :: 0 <= i < |s| ==> IsHexDigit(s[i])) && ParseHex(s) == n && (|s| > 1 ==> s[0] != '0')
    ensures var s := IntToHex(n);
      n < 0 ==> 2 <= |s| && s[0] == '-' && (forall i :: 1 <= i < |s| ==> IsHexDigit(s[i])) && ParseHex(s[1..]) == -n
  {
    if n < 0 {
      assert IntToHex(n)[1..] == NatToHex(-n);
    }
  }

  /** `s.padStart(len, fill)`. */
  function PadStart(s: string, len: nat, fill: char): (r: string)
    ensures |r| == if |s| >= len then |s| else len
    ensures r[|r| - |s|..] == s
    ensures forall i :: 0 <= i < |r| - |s| ==> r[i] == fill
  {
    if |s| >= len then s else seq(len - |s|, _ => fill) + s
  }

  /** `parseInt(s, 16)` on a string made only of hex digits. */
  function ParseHex(s: string): (n: nat)
    requires forall i :: 0 <= i < |s| ==> IsHexDigit(s[i])
  {
    if s == [] then 0 else 16 * ParseHex(s[..|s| - 1]) + DigitValue(s[|s| - 1])
  }

  /** `16^k`. */
  function Power16(k: nat): (p: nat)
    ensures p >= 1
  {
    if k == 0 then 1 else 16 * Power16(k - 1)
  }

  /** Two-digit channel text, as `toHex` prints it. */
  function Channel(c: int): (s: string)
    // a channel in 0..255 prints as two digits that read back as the channel
    ensures IsChannel(c) ==> |s| == 2 && (forall i :: 0 <= i < 2 ==> IsHexDigit(s[i])) && ParseHex(s) == c
    // a larger channel needs more than two digits, so the padding does nothing
    ensures c > 255 ==> |s| > 2 && s == IntToHex(c)
  {
    ChannelText(c);
    PadStart(IntToHex(c), 2, '0')
  }

  /** A channel in 0..255 prints as exactly its two base-16 digits. */
  lemma ChannelText(c: int)
    ensures IsChannel(c) ==> c / 16 < 16 && PadStart(IntToHex(c), 2, '0') == [HexDigit(c / 16), HexDigit(c % 16)]
    ensures var s := PadStart(IntToHex(c), 2, '0');
      IsChannel(c) ==> |s| == 2 && (forall i :: 0 <= i < 2 ==> IsHexDigit(s[i])) && ParseHex(s) == c
    ensures c > 255 ==> |IntToHex(c)| > 2
  {
    if IsChannel(c) {
      var s := PadStart(IntToHex(c), 2, '0');
      if c < 16 {
        assert IntToHex(c) == [HexDigit(c)];
        assert s == ['0', HexDigit(c)];
      } else {
        assert NatToHex(c / 16) == [HexDigit(c / 16)];
        assert s == [HexDigit(c / 16), HexDigit(c % 16)];
      }
      DigitOfHex(c / 16);
      DigitOfHex(c % 16);
      TwoDigits(s);
    } else if c > 255 && |IntToHex(c)| <= 2 {
      IntToHexReads(c);
      ParseHexBound(IntToHex(c));
      Power16Mono(|IntToHex(c)|, 2);
    }
  }

  /** `k` digits hold less than `16^k`. */
  lemma {:induction false} ParseHexBound(s: string)
    requires forall i :: 0 <= i < |s| ==> IsHexDigit(s[i])
    ensures ParseHex(s) < Power16(|s|)
  {
    if s != [] {
      ParseHexBound(s[..|s| - 1]);
    }
  }

  lemma Power16Mono(i: nat, j: nat)
    requires i <= j
    ensures Power16(i) <= Power16(j)
    decreases j
  {
    if i < j {
      Power16Mono(i, j - 1);
    }
  }

  /** The seven characters of a colour with channels in 0..255: `#`, then
      the high and low base-16 digit of red, green and blue. */
  function Printed(c: Color): (s: string)
    requires InRange(c)
    ensures |s| == 7 && s[0] == '#' && forall i :: 1 <= i < 7 ==> IsLowerHexDigit(s[i])
  {
    ['#', HexDigit(c.r / 16), HexDigit(c.r % 16), HexDigit(c.g / 16), HexDigit(c.g % 16),
     HexDigit(c.b / 16), HexDigit(c.b % 16)]
  }

  /** `toHex`: `#` and each channel in base 16, padded to two digits; for
      channels in 0..255, exactly two lower-case digits each. */
  function ToHex(c: Color): (s: string)
    ensures InRange(c) ==> s == Printed(c)
  {
    var s := "#" + Channel(c.r) + Channel(c.g) + Channel(c.b);
    PrintedChannels(c);
    s
  }

  lemma PrintedChannels(c: Color)
    ensures InRange(c) ==> "#" + Channel(c.r) + Channel(c.g) + Channel(c.b) == Printed(c)
  {
    if InRange(c) {
      ChannelText(c.r);
      ChannelText(c.g);
      ChannelText(c.b);
      var r, g, b := Channel(c.r), Channel(c.g), Channel(c.b);
      Concat7(['#'], r, g, b);
    }
  }

  lemma Concat7(h: string, r: string, g: string, b: string)
    requires |h| == 1 && |r| == 2 && |g| == 2 && |b| == 2
    ensures h + r + g + b == [h[0], r[0], r[1], g[0], g[1], b[0], b[1]]
  {
  }

  /** `fromHex` drops one leading `#`, if present. */
  function Strip(hex: string): (r: string)
    // the text is kept as a suffix and at most one `#` is dropped
    ensures |hex| - 1 <= |r| <= |hex| && hex[|hex| - |r|..] == r
    ensures |r| < |hex| <==> |hex| > 0 && hex[0] == '#'
  {
    if |hex| > 0 && hex[0] == '#' then hex[1..] else hex
  }

  /** Text `fromHex` reads as three channels: after dropping one leading
      `#`, at least six characters, the first six of them hex digits. */
  predicate ValidHex(hex: string) {
    var body := Strip(hex);
    |body| >= 6 && forall i :: 0 <= i < 6 ==> IsHexDigit(body[i])
  }

  /** `parseInt(body.slice(j, j + 2), 16)` on a field of two hex digits. */
  function Field(body: string, j: nat): (n: nat)
    requires j + 2 <= |body| && IsHexDigit(body[j]) && IsHexDigit(body[j + 1])
    ensures n == 16 * DigitValue(body[j]) + DigitValue(body[j + 1])
  {
    TwoDigits(body[j..j + 2]);
    ParseHex(body[j..j + 2])
  }

  /** `fromHex`: the two-digit fields at offsets 0, 2 and 4 after the
      optional `#`, each read in base 16. */
  function FromHex(hex: string): (c: Color)
    requires ValidHex(hex)
    ensures InRange(c)
    ensures var b := Strip(hex);
            c.r == 16 * DigitValue(b[0]) + DigitValue(b[1])
            && c.g == 16 * DigitValue(b[2]) + DigitValue(b[3])
            && c.b == 16 * DigitValue(b[4]) + DigitValue(b[5])
  {
    var body := Strip(hex);
    Color(Field(body, 0), Field(body, 2), Field(body, 4))
  }

  /** Two hex digits read as the number `16 * first + second`. */
  lemma TwoDigits(s: string)
    requires |s| == 2 && IsHexDigit(s[0]) && IsHexDigit(s[1])
    ensures ParseHex(s) == 16 * DigitValue(s[0]) + DigitValue(s[1])
    ensures ParseHex(s) <= 255
  {
    var head := s[..1];
    assert head[..0] == [];
    assert ParseHex(head) == DigitValue(s[0]);
    assert s[..|s| - 1] == head;
  }

  /** `inverted`: every channel `c` becomes `255 - c`. */
  function Inverted(c: Color): (i: Color)
    ensures InRange(c) ==> InRange(i)
    ensures i.r + c.r == 255 && i.g + c.g == 255 && i.b + c.b == 255
  {
    Color(255 - c.r, 255 - c.g, 255 - c.b)
  }

  /** `invertedHex`: parse, invert, print. */
  function InvertedHex(hex: string): (s: string)
    requires ValidHex(hex)
    ensures ValidHex(s) && |s| == 7 && s[0] == '#'
    // the text reads back as the inverted colour
    ensures FromHex(s) == Inverted(FromHex(hex))
  {
    PrintedValid(Inverted(FromHex(hex)));
    FromHexToHex(Inverted(FromHex(hex)));
    ToHex(Inverted(FromHex(hex)))
  }

  /** The text of a colour with channels in 0..255 is valid input for
      `fromHex`. */
  lemma PrintedValid(c: Color)
    requires InRange(c)
    ensures ValidHex(Printed(c))
  {
    var p := Printed(c);
    assert Strip(p) == p[1..];
  }

  lemma InvertedInvolution(c: Color)
    ensures Inverted(Inverted(c)) == c
  {
  }

  /** Printing a colour with channels in 0..255 and reading it back gives
      the same channels. */
  lemma {:induction false} FromHexToHex(c: Color)
    requires InRange(c)
    ensures ValidHex(ToHex(c)) && FromHex(ToHex(c)) == c
  {
    assert ToHex(c) == Printed(c);
    FromPrinted(c);
  }

  lemma FromPrinted(c: Color)
    requires InRange(c)
    ensures ValidHex(Printed(c)) && FromHex(Printed(c)) == c
  {
    var body := Strip(Printed(c));
    assert body == Printed(c)[1..];
    ChannelRoundTrip(c.r);
    ChannelRoundTrip(c.g);
    ChannelRoundTrip(c.b);
  }

  /** The two digits a channel prints as read back as the channel. */
  lemma ChannelRoundTrip(c: int)
    requires IsChannel(c)
    ensures 16 * DigitValue(HexDigit(c / 16)) + DigitValue(HexDigit(c % 16)) == c
  {
    DigitOfHex(c / 16);
    DigitOfHex(c % 16);
  }

  lemma DigitOfHex(d: nat)
    requires d < 16
    ensures DigitValue(HexDigit(d)) == d
  {
  }

  lemma HexOfDigit(ch: char)
    requires IsHexDigit(ch)
    ensures HexDigit(DigitValue(ch)) == Lower(ch)
  {
  }

  /** Reading valid hex text and printing it back gives `#` and the six
      digits read, in lower case. */
  lemma {:induction false} ToHexFromHex(hex: string)
    requires ValidHex(hex)
    ensures var b := Strip(hex);
            ToHex(FromHex(hex)) == ['#', Lower(b[0]), Lower(b[1]), Lower(b[2]), Lower(b[3]), Lower(b[4]), Lower(b[5])]
  {
    assert ToHex(FromHex(hex)) == Printed(FromHex(hex));
    PrintedParsed(hex);
  }

  lemma PrintedParsed(hex: string)
    requires ValidHex(hex)
    ensures var b := Strip(hex);
            Printed(FromHex(hex)) == ['#', Lower(b[0]), Lower(b[1]), Lower(b[2]), Lower(b[3]), Lower(b[4]), Lower(b[5])]
  {
    var body := Strip(hex);
    var c := FromHex(hex);
    FieldRoundTrip(c.r, body[0], body[1]);
    FieldRoundTrip(c.g, body[2], body[3]);
    FieldRoundTrip(c.b, body[4], body[5]);
  }

  /** A channel read from a two-digit field prints as the field in lower
      case. */
  lemma FieldRoundTrip(v: int, hi: char, lo: char)
    requires IsHexDigit(hi) && IsHexDigit(lo) && v == 16 * DigitValue(hi) + DigitValue(lo)
    ensures 0 <= v / 16 < 16 && 0 <= v % 16
    ensures HexDigit(v / 16) == Lower(hi) && HexDigit(v % 16) == Lower(lo)
  {
    HexOfDigit(hi);
    HexOfDigit(lo);
    SplitDigits(DigitValue(hi), DigitValue(lo));
  }

  /** Base-16 digits are recovered from the number they form. */
  lemma SplitDigits(hi: nat, lo: nat)
    requires hi < 16 && lo < 16
    ensures (16 * hi + lo) / 16 == hi && (16 * hi + lo) % 16 == lo
  {
  }

  /** Inverting twice through text gives the text `fromHex` then `toHex`
      produce: the original colour, printed. */
  lemma InvertedHexTwice(hex: string)
    requires ValidHex(hex)
    ensures InvertedHex(InvertedHex(hex)) == ToHex(FromHex(hex))
  {
    var c := FromHex(hex);
    FromHexToHex(Inverted(c));
    InvertedInvolution(c);
  }
}
