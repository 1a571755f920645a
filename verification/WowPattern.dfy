/**
 * Wake-on-wireless packet patterns: from the text a user types, through the packed bit mask of
 * the nl80211 attributes, to the byte mask the firmware applies.
 */
module WowPattern {
  import opened Words
  import opened Bits

  /** What a pattern asks of one packet byte. */
  datatype Slot = Any | Exact(value: byte)

  const WOW_MASK_SIZE := 64

  // ----- text -----

  /** Where the next colon is, from position i on; the end if there is none. */
  function NextColon(s: string, i: nat): (j: nat)
    requires i <= |s|
    ensures i <= j <= |s| && forall k | i <= k < j :: s[k] != ':'
    ensures j < |s| ==> s[j] == ':'
    decreases |s| - i
  {
    if i == |s| || s[i] == ':' then i else NextColon(s, i + 1)
  }

  /** The pieces between colons of a text from position i on. */
  function TokensFrom(s: string, i: nat): (tokens: seq<string>)
    requires i <= |s|
    ensures |tokens| > 0
    decreases |s| - i
  {
    var j := NextColon(s, i);
    if j == |s| then [s[i..j]] else [s[i..j]] + TokensFrom(s, j + 1)
  }

  function Tokens(s: string): (tokens: seq<string>)
    ensures |tokens| > 0
  {
    TokensFrom(s, 0)
  }

  predicate IsHex(c: char)
  {
    '0' <= c <= '9' || 'a' <= c <= 'f' || 'A' <= c <= 'F'
  }

  function HexDigit(c: char): (d: nat)
    requires IsHex(c)
    ensures d < 16
  {
    if c <= '9' then c as int - '0' as int
    else if 'a' <= c then c as int - 'a' as int + 10
    else c as int - 'A' as int + 10
  }

  function HexValue(s: string): nat
    requires forall c | c in s :: IsHex(c)
  {
    if s == [] then 0 else 16 * HexValue(s[..|s| - 1]) + HexDigit(s[|s| - 1])
  }

  function HexRunEnd(s: string, i: nat): (j: nat)
    requires i <= |s|
    ensures i <= j <= |s| && forall k | i <= k < j :: IsHex(s[k])
    decreases |s| - i
  {
    if i < |s| && IsHex(s[i]) then HexRunEnd(s, i + 1) else i
  }

  function SpaceEnd(s: string, i: nat): (j: nat)
    requires i <= |s|
    ensures i <= j <= |s|
    decreases |s| - i
  {
    if i < |s| && (s[i] == ' ' || '\t' <= s[i] <= '\r') then SpaceEnd(s, i + 1) else i
  }

  /** Where the digits of a number may begin: after space, a sign, and a prefix that a digit follows. */
  function DigitsStart(s: string): (i: nat)
    ensures i <= |s|
  {
    var sign := SpaceEnd(s, 0);
    var prefix := if sign < |s| && s[sign] in "+-" then sign + 1 else sign;
    if prefix + 2 < |s| && s[prefix] == '0' && s[prefix + 1] in "xX" && IsHex(s[prefix + 2]) then prefix + 2 else prefix
  }

  predicate Negative(s: string)
  {
    SpaceEnd(s, 0) < |s| && s[SpaceEnd(s, 0)] == '-'
  }

  /** Out-of-range values are the largest; a minus sign counts down from 2^64. */
  function Converted(value: nat, negative: bool): nat
  {
    var limit := 0x1_0000_0000_0000_0000;
    if value >= limit then limit - 1 else if negative && value > 0 then limit - value else value
  }

  /** strtoul in base 16 with a 64-bit result: the value, and where parsing stopped. */
  function Strtoul16(s: string): (r: (nat, nat))
  {
    var digits := DigitsStart(s);
    var end := HexRunEnd(s, digits);
    if end == digits then (0, 0) else (Converted(HexValue(s[digits..end]), Negative(s)), end)
  }

  /** Conversion to a 32-bit int keeps the low half. */
  function ToInt(value: nat): int
  {
    var low := value % 0x1_0000_0000;
    if low < 0x8000_0000 then low else low - 0x1_0000_0000
  }

  predicate IsWildcard(token: string)
  {
    token == "-" || token == "xx" || token == "--"
  }

  /** What a converted token of n characters stands for: all of it must convert, to a byte. */
  function ByteSlot(value: nat, end: nat, n: nat): Option<Slot>
  {
    if end != n || !(0 <= ToInt(value) <= 255) then None else Some(Exact(ToInt(value)))
  }

  function ParseToken(token: string): Option<Slot>
  {
    if IsWildcard(token) then Some(Any) else
    var (value, end) := Strtoul16(token);
    ByteSlot(value, end, |token|)
  }

  function ParseTokens(tokens: seq<string>): (r: Option<seq<Slot>>)
    ensures r.Some? ==> |r.value| == |tokens|
  {
    if tokens == [] then Some([]) else
    match ParseToken(tokens[0])
    case None => None
    case Some(slot) =>
      match ParseTokens(tokens[1..])
      case None => None
      case Some(rest) => Some([slot] + rest)
  }

  /** One token more, parsed after the others. */
  lemma {:induction false} ParseTokensSnoc(tokens: seq<string>, token: string)
    requires ParseTokens(tokens).Some? && ParseToken(token).Some?
    ensures ParseTokens(tokens + [token]) == Some(ParseTokens(tokens).value + [ParseToken(token).value])
  {
    if tokens == [] {
      assert tokens + [token] == [token] && [token][1..] == [];
      assert [ParseToken(token).value] + [] == [] + [ParseToken(token).value];
    } else {
      assert (tokens + [token])[1..] == tokens[1..] + [token];
      ParseTokensSnoc(tokens[1..], token);
      var first := [ParseToken(tokens[0]).value];
      var rest := ParseTokens(tokens[1..]).value;
      assert first + rest + [ParseToken(token).value] == first + (rest + [ParseToken(token).value]);
    }
  }

  /** A token that fails makes the whole text fail. */
  lemma {:induction false} ParseTokensFails(tokens: seq<string>, i: nat)
    requires i < |tokens| && ParseToken(tokens[i]).None?
    ensures ParseTokens(tokens).None?
  {
    if i > 0 {
      ParseTokensFails(tokens[1..], i - 1);
    }
  }

  // ----- what a text, a bit mask and a byte mask accept -----

  /** Tokens of one or two hexadecimal digits, and wildcards. */
  predicate PlainToken(token: string)
  {
    IsWildcard(token) || (1 <= |token| <= 2 && forall c | c in token :: IsHex(c))
  }

  predicate TokenAccepts(token: string, b: byte)
    requires PlainToken(token)
  {
    IsWildcard(token) || b == HexValue(token)
  }

  /** The packets a text describes: each token has a byte, and accepts it. */
  predicate TextAccepts(tokens: seq<string>, packet: seq<byte>)
    requires forall t | t in tokens :: PlainToken(t)
  {
    |tokens| <= |packet| && forall i | 0 <= i < |tokens| :: TokenAccepts(tokens[i], packet[i])
  }

  predicate SlotsAccept(slots: seq<Slot>, packet: seq<byte>)
  {
    |slots| <= |packet| && forall i | 0 <= i < |slots| :: slots[i].Exact? ==> packet[i] == slots[i].value
  }

  /** nl80211: bytes whose mask bit is clear are ignored; bit i%8 of mask byte i/8 is for byte i. */
  predicate BitMaskAccepts(pattern: seq<byte>, mask: seq<byte>, packet: seq<byte>)
    requires |pattern| <= 8 * |mask|
  {
    |pattern| <= |packet| &&
    forall i | 0 <= i < |pattern| :: Bit(mask[i / 8], i % 8) ==> packet[i] == pattern[i]
  }

  /** Firmware: packet and pattern agree under the byte mask, from the first byte on. */
  predicate ByteMaskAccepts(pattern: seq<byte>, mask: seq<byte>, packet: seq<byte>)
    requires |pattern| <= |mask|
  {
    |pattern| <= |packet| &&
    forall i | 0 <= i < |pattern| :: And(packet[i], mask[i]) == And(pattern[i], mask[i])
  }

  /** The bytes and mask bits that stand for a list of slots. */
  predicate Encodes(slots: seq<Slot>, val: seq<byte>, mask: seq<byte>)
    requires |slots| <= |val| && |slots| <= 8 * |mask|
  {
    && (forall i | 0 <= i < |slots| :: val[i] == (if slots[i].Exact? then slots[i].value else 0))
    && (forall i | |slots| <= i < |val| :: val[i] == 0)
    && (forall i | 0 <= i < 8 * |mask| :: Bit(mask[i / 8], i % 8) <==> i < |slots| && slots[i].Exact?)
  }

  /**
   * The mask of 00:xx:00:00:xx:00:00:00:00:xx:xx:xx is 0xed, 0x01; with 0x07 as its second byte the
   * tenth and eleventh bytes would be compared too.
   */
  lemma HeaderExample()
    ensures var z := Exact(0);
      var slots := [z, Any, z, z, Any, z, z, z, z, Any, Any, Any];
      var val := seq<byte>(12, _ => 0);
      Encodes(slots, val, [0xed, 0x01]) && !Encodes(slots, val, [0xed, 0x07])
  {
    assert Bit(0xed, 0) && !Bit(0xed, 1) && Bit(0xed, 2) && Bit(0xed, 3);
    assert !Bit(0xed, 4) && Bit(0xed, 5) && Bit(0xed, 6) && Bit(0xed, 7);
    assert Bit(0x01, 0) && !Bit(0x01, 1) && !Bit(0x01, 2) && !Bit(0x01, 3);
    assert !Bit(0x01, 4) && !Bit(0x01, 5) && !Bit(0x01, 6) && !Bit(0x01, 7);
    assert Bit(0x07, 1) && Bit([0xed, 0x07][9 / 8], 9 % 8);
  }

  /** A bit mask written out as one byte per pattern byte. */
  ghost predicate Expands(mask: seq<byte>, len: nat, bytes: seq<byte>)
    requires len <= 8 * |mask| && len <= |bytes|
  {
    forall i | 0 <= i < |bytes| :: bytes[i] == if i < len && Bit(mask[i / 8], i % 8) then 0xff else 0
  }

  lemma MaskByte(b: byte)
    ensures And(b, 0xff) == b && And(b, 0) == 0
  {
    Pow2Of16();
    AndOnes(b, 8);
    AndZero(b);
  }

  /** The two masks accept the same packets. */
  lemma ExpandedAcceptsSame(pattern: seq<byte>, mask: seq<byte>, bytes: seq<byte>, packet: seq<byte>)
    requires |pattern| <= 8 * |mask| && |pattern| <= |bytes| && Expands(mask, |pattern|, bytes)
    ensures ByteMaskAccepts(pattern, bytes, packet) <==> BitMaskAccepts(pattern, mask, packet)
  {
    if |pattern| <= |packet| {
      forall i | 0 <= i < |pattern|
        ensures And(packet[i], bytes[i]) == And(pattern[i], bytes[i])
                <==> (Bit(mask[i / 8], i % 8) ==> packet[i] == pattern[i])
      {
        MaskByte(packet[i]);
        MaskByte(pattern[i]);
      }
    }
  }

  /** Encoded slots, cut to the two attributes, accept what the slots accept. */
  lemma EncodedAcceptsSame(slots: seq<Slot>, val: seq<byte>, mask: seq<byte>, packet: seq<byte>)
    requires |slots| <= |val| && |slots| <= 8 * |mask| && Encodes(slots, val, mask)
    ensures BitMaskAccepts(val[..|slots|], mask, packet) <==> SlotsAccept(slots, packet)
  {
  }

  lemma HexValueShort(token: string)
    requires 1 <= |token| <= 2 && forall c | c in token :: IsHex(c)
    ensures HexValue(token) < 256
    ensures |token| == 1 ==> HexValue(token) == HexDigit(token[0])
    ensures |token| == 2 ==> HexValue(token) == 16 * HexDigit(token[0]) + HexDigit(token[1])
  {
    assert HexValue([]) == 0;
    assert |token| == 2 ==> HexValue(token[..1]) == HexDigit(token[0]) by {
      if |token| == 2 {
        assert token[..1][..0] == [];
      }
    }
  }

  lemma {:induction false} HexRunAll(s: string, i: nat)
    requires i <= |s| && forall c | c in s :: IsHex(c)
    ensures HexRunEnd(s, i) == |s|
    decreases |s| - i
  {
    if i < |s| {
      HexRunAll(s, i + 1);
    }
  }

  lemma NoSpace(s: string, i: nat)
    requires i < |s| && IsHex(s[i])
    ensures SpaceEnd(s, i) == i
  {
  }

  /** strtoul reads one or two hexadecimal digits as their value, to the end. */
  lemma StrtoulPlain(token: string)
    requires 1 <= |token| <= 2 && forall c | c in token :: IsHex(c)
    ensures HexValue(token) < 256 && Strtoul16(token) == (HexValue(token), |token|)
  {
    HexValueShort(token);
    HexRunAll(token, 0);
    assert IsHex(token[0]);
    NoSpace(token, 0);
    assert token[0..|token|] == token;
    StrtoulDigits(token, 0, token);
  }

  lemma WholeByte(b: byte, n: nat)
    ensures ByteSlot(b, n, n) == Some(Exact(b))
  {
  }

  /** A token of one or two hexadecimal digits parses as its value. */
  lemma PlainTokenParses(token: string)
    requires PlainToken(token)
    ensures IsWildcard(token) ==> ParseToken(token) == Some(Any)
    ensures !IsWildcard(token) ==> HexValue(token) < 256 && ParseToken(token) == Some(Exact(HexValue(token)))
  {
    if !IsWildcard(token) {
      StrtoulPlain(token);
      WholeByte(HexValue(token), |token|);
    }
  }

  // ----- every token -----

  /** A digit in either case. */
  function Digit(d: nat, upper: bool): char
    requires d < 16
  {
    if upper then "0123456789ABCDEF"[d] else "0123456789abcdef"[d]
  }

  lemma DigitCases(d: nat, upper: bool)
    requires d < 16
    ensures IsHex(Digit(d, upper)) && HexDigit(Digit(d, upper)) == d
  {
  }

  /** Every byte written with two digits, each in either case, parses as that byte; so does one digit. */
  lemma EveryByteParses(v: byte, upperHigh: bool, upperLow: bool)
    ensures ParseToken([Digit(v / 16, upperHigh), Digit(v % 16, upperLow)]) == Some(Exact(v))
    ensures ParseToken([Digit(v % 16, upperLow)]) == Some(Exact(v % 16))
  {
    DigitCases(v / 16, upperHigh);
    DigitCases(v % 16, upperLow);
    DigitsParse(Digit(v / 16, upperHigh), Digit(v % 16, upperLow));
  }

  lemma DigitsParse(high: char, low: char)
    requires IsHex(high) && IsHex(low)
    ensures ParseToken([high, low]) == Some(Exact(16 * HexDigit(high) + HexDigit(low)))
    ensures ParseToken([low]) == Some(Exact(HexDigit(low)))
  {
    assert [high, low][0] == high && [low][0] == low;
    HexValueShort([high, low]);
    HexValueShort([low]);
    PlainTokenParses([high, low]);
    PlainTokenParses([low]);
  }

  /** No condition: these three tokens and no others. */
  lemma WildcardsParse(token: string)
    ensures ParseToken(token) == Some(Any) <==> token == "-" || token == "xx" || token == "--"
  {
  }

  lemma {:induction false} SpaceRun(s: string, i: nat, n: nat)
    requires i <= n <= |s| && (forall k | i <= k < n :: s[k] == ' ' || '\t' <= s[k] <= '\r')
    requires n < |s| ==> !(s[n] == ' ' || '\t' <= s[n] <= '\r')
    ensures SpaceEnd(s, i) == n
    decreases n - i
  {
    if i < n {
      SpaceRun(s, i + 1, n);
    }
  }

  lemma {:induction false} HexRunToEnd(s: string, i: nat)
    requires i <= |s| && forall k | i <= k < |s| :: IsHex(s[k])
    ensures HexRunEnd(s, i) == |s|
    decreases |s| - i
  {
    if i < |s| {
      HexRunToEnd(s, i + 1);
    }
  }

  /** What a converted value stands for: its low 32 bits, if they are a byte. */
  function LowByte(value: nat): Option<Slot>
  {
    if value % 0x1_0000_0000 <= 255 then Some(Exact(value % 0x1_0000_0000)) else None
  }

  /** Space up to a, a sign up to b, a prefix up to start. */
  lemma DigitsStartAt(s: string, a: nat, b: nat, start: nat)
    requires a <= b <= start < |s| && forall k | 0 <= k < a :: s[k] == ' ' || '\t' <= s[k] <= '\r'
    requires if b == a then IsHex(s[a]) else b == a + 1 && s[a] in "+-"
    requires if start == b then IsHex(s[b]) && (b + 1 < |s| ==> IsHex(s[b + 1]))
             else start == b + 2 && s[b] == '0' && s[b + 1] in "xX" && IsHex(s[start])
    ensures DigitsStart(s) == start && (Negative(s) <==> s[a] == '-')
  {
    SpaceRun(s, 0, a);
  }

  /** The parts of a number: where its digits begin. */
  lemma NumberParts(spaces: string, sign: string, prefix: string, digits: string)
    requires forall k | 0 <= k < |spaces| :: spaces[k] == ' ' || '\t' <= spaces[k] <= '\r'
    requires sign in {"", "+", "-"} && prefix in {"", "0x", "0X"}
    requires digits != "" && forall k | 0 <= k < |digits| :: IsHex(digits[k])
    ensures var s := spaces + sign + prefix + digits;
            && DigitsStart(s) == |s| - |digits| && (Negative(s) <==> sign == "-")
            && HexRunEnd(s, |s| - |digits|) == |s| && s[|s| - |digits|..|s|] == digits
  {
    var s := spaces + sign + prefix + digits;
    var start := |s| - |digits|;
    var a, b := |spaces|, |spaces| + |sign|;
    assert s[start] == digits[0] && (|digits| > 1 ==> s[start + 1] == digits[1]);
    assert prefix != "" ==> s[b] == '0' && s[b + 1] == prefix[1];
    assert sign != "" ==> s[a] == sign[0];
    assert forall k | 0 <= k < a :: s[k] == spaces[k];
    DigitsStartAt(s, a, b, start);
    assert forall k | start <= k < |s| :: s[k] == digits[k - start];
    HexRunToEnd(s, start);
  }

  lemma StrtoulDigits(s: string, start: nat, digits: string)
    requires start < |s| && DigitsStart(s) == start && HexRunEnd(s, start) == |s| && s[start..|s|] == digits
    ensures (forall c | c in digits :: IsHex(c)) && Strtoul16(s) == (Converted(HexValue(digits), Negative(s)), |s|)
  {
  }

  lemma NumberToken(s: string, start: nat, digits: string, negative: bool)
    requires start < |s| && DigitsStart(s) == start && HexRunEnd(s, start) == |s| && s[start..|s|] == digits
    requires Negative(s) == negative
    ensures (forall c | c in digits :: IsHex(c)) && ParseToken(s) == LowByte(Converted(HexValue(digits), negative))
  {
    StrtoulDigits(s, start, digits);
    assert IsHex(s[|s| - 1]);
    WholeNumber(Converted(HexValue(digits), negative), |s|);
  }

  lemma WholeNumber(value: nat, n: nat)
    ensures ByteSlot(value, n, n) == LowByte(value)
  {
  }

  /**
   * Every number strtoul knows in base 16, with leading space, sign and prefix: it parses, to the low
   * 32 bits of its value, exactly when those are a byte. A negative number counts down from 2^64, and
   * one out of range never parses.
   */
  lemma NumberParses(s: string, spaces: string, sign: string, prefix: string, digits: string)
    requires s == spaces + sign + prefix + digits
    requires forall k | 0 <= k < |spaces| :: spaces[k] == ' ' || '\t' <= spaces[k] <= '\r'
    requires sign in {"", "+", "-"} && prefix in {"", "0x", "0X"}
    requires digits != "" && forall c | c in digits :: IsHex(c)
    ensures var v := HexValue(digits);
      && (v < 0x1_0000_0000_0000_0000 && (sign != "-" || v == 0) ==> ParseToken(s) == LowByte(v))
      && (0 < v < 0x1_0000_0000_0000_0000 && sign == "-" ==> ParseToken(s) == LowByte(0x1_0000_0000_0000_0000 - v))
      && (v >= 0x1_0000_0000_0000_0000 ==> ParseToken(s) == None)
  {
    NumberParts(spaces, sign, prefix, digits);
    NumberToken(s, |s| - |digits|, digits, sign == "-");
    ConvertedMeans(HexValue(digits), sign == "-");
  }

  lemma ConvertedMeans(v: nat, negative: bool)
    ensures v < 0x1_0000_0000_0000_0000 && (!negative || v == 0) ==> LowByte(Converted(v, negative)) == LowByte(v)
    ensures 0 < v < 0x1_0000_0000_0000_0000 && negative ==>
      LowByte(Converted(v, negative)) == LowByte(0x1_0000_0000_0000_0000 - v)
    ensures v >= 0x1_0000_0000_0000_0000 ==> LowByte(Converted(v, negative)) == None
  {
  }

  /** A character that no number contains makes a token fail, unless it is a wildcard. */
  lemma JunkRejected(token: string, i: nat)
    requires i < |token| && !IsWildcard(token) && !IsHex(token[i])
    requires token[i] !in " +-xX" && !('\t' <= token[i] <= '\r')
    ensures ParseToken(token).None?
  {
    SpacesOnly(token, 0);
    if i < DigitsStart(token) {
      BeforeDigits(token, i);
    }
    assert Strtoul16(token).1 != |token|;
  }

  /** Only space, a sign and a prefix come before the digits. */
  lemma BeforeDigits(s: string, k: nat)
    requires k < DigitsStart(s)
    requires forall j | 0 <= j < SpaceEnd(s, 0) :: s[j] == ' ' || '\t' <= s[j] <= '\r'
    ensures s[k] == ' ' || '\t' <= s[k] <= '\r' || s[k] in "+-0xX"
  {
  }

  lemma {:induction false} SpacesOnly(s: string, i: nat)
    requires i <= |s|
    ensures forall k | i <= k < SpaceEnd(s, i) :: s[k] == ' ' || '\t' <= s[k] <= '\r'
    decreases |s| - i
  {
    if i < |s| && (s[i] == ' ' || '\t' <= s[i] <= '\r') {
      SpacesOnly(s, i + 1);
    }
  }

  /** Plain text always parses, and its slots accept exactly the packets it describes. */
  lemma {:induction false} PlainTextParses(tokens: seq<string>, packet: seq<byte>)
    requires forall t | t in tokens :: PlainToken(t)
    ensures ParseTokens(tokens).Some?
    ensures SlotsAccept(ParseTokens(tokens).value, packet) <==> TextAccepts(tokens, packet)
  {
    if tokens != [] {
      PlainTokenParses(tokens[0]);
      var rest := ParseTokens(tokens[1..]);
      if packet == [] {
        PlainTextParses(tokens[1..], packet);
      } else {
        PlainTextParses(tokens[1..], packet[1..]);
        var slots := ParseTokens(tokens).value;
        assert slots[1..] == rest.value;
        assert SlotsAccept(slots, packet) <==> (slots[0].Exact? ==> packet[0] == slots[0].value) && SlotsAccept(slots[1..], packet[1..]) by {
          assert forall i | 1 <= i < |slots| :: slots[i] == slots[1..][i - 1];
          if SlotsAccept(slots[1..], packet[1..]) {
            forall i | 1 <= i < |slots|
              ensures slots[i].Exact? ==> packet[i] == slots[i].value
            {
              assert slots[1..][i - 1].Exact? ==> packet[1..][i - 1] == slots[1..][i - 1].value;
            }
          }
        }
        assert TextAccepts(tokens, packet) <==> TokenAccepts(tokens[0], packet[0]) && TextAccepts(tokens[1..], packet[1..]) by {
          if TextAccepts(tokens[1..], packet[1..]) {
            forall i | 1 <= i < |tokens|
              ensures TokenAccepts(tokens[i], packet[i])
            {
              assert TokenAccepts(tokens[1..][i - 1], packet[1..][i - 1]);
            }
          }
        }
      }
    }
  }

  // ----- parsing in place -----

  /** The encoding of one slot more. */
  lemma EncodesNext(slots: seq<Slot>, slot: Slot, val: seq<byte>, mask: seq<byte>, val': seq<byte>, mask': seq<byte>)
    requires |slots| < |val| && |slots| < 8 * |mask| && Encodes(slots, val, mask)
    requires |val'| == |val| && |mask'| == |mask|
    requires match slot
             case Any => val' == val && mask' == mask
             case Exact(v) =>
               var pos := |slots|;
               val' == val[pos := v] &&
               forall j | 0 <= j < |mask| :: mask'[j] == if j == pos / 8 then SetBit(mask[j], pos % 8) else mask[j]
    ensures Encodes(slots + [slot], val', mask')
  {
    if slot.Exact? {
      var pos := |slots|;
      forall i | 0 <= i < 8 * |mask|
        ensures Bit(mask'[i / 8], i % 8) <==> i < pos + 1 && (slots + [slot])[i].Exact?
      {
        SetBitBits(mask[i / 8], pos % 8, i % 8);
        assert Bit(mask[i / 8], i % 8) <==> i < |slots| && slots[i].Exact?;
      }
    }
  }

  lemma {:induction false} NothingEncoded(n: nat, m: nat)
    ensures Encodes([], seq<byte>(n, _ => 0), seq<byte>(m, _ => 0))
  {
    forall i | 0 <= i < 8 * m
      ensures !Bit(0, i % 8)
    {
      ZeroBits(i % 8);
    }
  }

  predicate NoneEmpty(tokens: seq<string>)
  {
    forall k | 0 <= k < |tokens| :: tokens[k] != []
  }

  lemma NoneEmptyRest(token: string, tokens: seq<string>)
    requires NoneEmpty([token] + tokens)
    ensures token != [] && NoneEmpty(tokens)
  {
    assert ([token] + tokens)[0] == token;
    assert forall k | 0 <= k < |tokens| :: tokens[k] == ([token] + tokens)[k + 1];
  }

  /** Non-empty tokens always leave room in the buffers the parser sizes from the text. */
  lemma TokensFit(text: string)
    requires NoneEmpty(Tokens(text))
    ensures |Tokens(text)| <= |text| / 2 + 1
  {
    TokensFromFit(text, 0);
  }

  lemma {:induction false} TokensFromFit(text: string, i: nat)
    requires i <= |text| && NoneEmpty(TokensFrom(text, i))
    ensures 2 * |TokensFrom(text, i)| <= |text| - i + 1
    decreases |text| - i
  {
    var j := NextColon(text, i);
    if j == |text| {
      assert TokensFrom(text, i)[0] == text[i..j];
    } else {
      NoneEmptyRest(text[i..j], TokensFrom(text, j + 1));
      TokensFromFit(text, j + 1);
    }
  }

  /** Store a parsed byte and its mask bit. */
  method StoreSlot(val: array<byte>, mask: array<byte>, pos: nat, v: byte, ghost slots: seq<Slot>)
    requires val != mask && pos < val.Length && pos < 8 * mask.Length && pos == |slots|
    requires Encodes(slots, val[..], mask[..])
    modifies val, mask
    ensures Encodes(slots + [Exact(v)], val[..], mask[..])
  {
    ghost var val0, mask0 := val[..], mask[..];
    val[pos] := v;
    SetBitByte(mask[pos / 8], pos % 8);
    mask[pos / 8] := SetBit(mask[pos / 8], pos % 8);
    EncodesNext(slots, Exact(v), val0, mask0, val[..], mask[..]);
  }

  /** Separators before start have been overwritten, the rest of the text is as it was. */
  ghost predicate CutUpTo(text: seq<char>, source: seq<char>, n: nat, start: nat)
    requires |text| == |source| && start <= n <= |text|
  {
    && (forall k | 0 <= k < start :: text[k] == if source[k] == ':' then '\0' else source[k])
    && (forall k | start <= k < |text| :: text[k] == source[k])
  }

  lemma CutNext(text: seq<char>, source: seq<char>, n: nat, start: nat, cp: nat)
    requires |text| == |source| && start <= cp <= n <= |text| && CutUpTo(text, source, n, start)
    requires forall k | start <= k < cp :: source[k] != ':'
    requires cp < n ==> source[cp] == ':'
    ensures cp < n ==> CutUpTo(text[cp := '\0'], source, n, cp + 1)
    ensures cp == n ==> CutUpTo(text, source, n, n)
  {
  }

  /** Cut the next token out of the text, ending it with a NUL where its separator was. */
  method NextToken(text: array<char>, start: nat, n: nat, ghost whole: string) returns (token: string, cp: nat)
    requires text.Length == |whole| && start <= n < text.Length && CutUpTo(text[..], whole, n, start)
    modifies text
    ensures cp == NextColon(whole[..n], start) && token == whole[..n][start..cp]
    ensures CutUpTo(text[..], whole, n, if cp < n then cp + 1 else n)
  {
    ghost var before := text[..];
    cp := start;
    while cp < n && text[cp] != ':'
      invariant start <= cp <= n && NextColon(whole[..n], start) == NextColon(whole[..n], cp)
      invariant forall k | start <= k < cp :: whole[k] != ':'
    {
      assert whole[..n][cp] == text[cp];
      cp := cp + 1;
    }
    token := text[start..cp];
    CutNext(before, whole, n, start, cp);
    if cp < n {
      assert whole[..n][cp] == text[cp];
      text[cp] := '\0';
    }
  }

  /** Parse one token and record it. */
  method ParseSlot(token: string, val: array<byte>, mask: array<byte>, pos: nat, ghost slots: seq<Slot>) returns (ok: bool)
    requires val != mask && pos < val.Length && pos < 8 * mask.Length && pos == |slots|
    requires Encodes(slots, val[..], mask[..])
    modifies val, mask
    ensures ok <==> ParseToken(token).Some?
    ensures ok ==> Encodes(slots + [ParseToken(token).value], val[..], mask[..])
  {
    if IsWildcard(token) {
      EncodesNext(slots, Any, val[..], mask[..], val[..], mask[..]);
      return true;
    }
    var (value, end) := Strtoul16(token);
    var slot := ByteSlot(value, end, |token|);
    if slot.None? {
      return false;
    }
    StoreSlot(val, mask, pos, slot.value.value, slots);
    return true;
  }

  /** What the parser has done when it stands at start. */
  ghost predicate Parsed(source: string, start: nat, slots: seq<Slot>)
  {
    && start <= |source| && |slots| <= |Tokens(source)|
    && Tokens(source)[|slots|..] == TokensFrom(source, start)
    && ParseTokens(Tokens(source)[..|slots|]) == Some(slots)
  }

  lemma DropHead<T>(s: seq<T>, p: nat, head: T, rest: seq<T>)
    requires p <= |s| && s[p..] == [head] + rest
    ensures p < |s| && s[p] == head && s[p + 1..] == rest
  {
    assert s[p] == s[p..][0];
    assert s[p + 1..] == s[p..][1..];
  }

  /** A list of tokens parsed one further. */
  lemma ParsedPrefix(tokens: seq<string>, p: nat, slots: seq<Slot>)
    requires p < |tokens| && ParseTokens(tokens[..p]) == Some(slots) && ParseToken(tokens[p]).Some?
    ensures ParseTokens(tokens[..p + 1]) == Some(slots + [ParseToken(tokens[p]).value])
  {
    ParseTokensSnoc(tokens[..p], tokens[p]);
    assert tokens[..p + 1] == tokens[..p] + [tokens[p]];
  }

  /** One token further: how it parses, and whether it was the last. */
  lemma ParsedStep(source: string, start: nat, slots: seq<Slot>, cp: nat)
    requires Parsed(source, start, slots) && cp == NextColon(source, start)
    ensures |slots| < |Tokens(source)|
    ensures ParseToken(source[start..cp]).None? ==> ParseTokens(Tokens(source)).None?
    ensures ParseToken(source[start..cp]).Some? ==>
      var slots' := slots + [ParseToken(source[start..cp]).value];
      if cp < |source| then Parsed(source, cp + 1, slots') else ParseTokens(Tokens(source)) == Some(slots')
  {
    var all, p := Tokens(source), |slots|;
    assert [source[start..cp]] + [] == [source[start..cp]];
    DropHead(all, p, source[start..cp], if cp == |source| then [] else TokensFrom(source, cp + 1));
    if ParseToken(all[p]).None? {
      ParseTokensFails(all, p);
    } else {
      ParsedPrefix(all, p, slots);
      assert cp == |source| ==> all[..p + 1] == all;
    }
  }

  /**
   * Parse a colon-separated pattern. The separators in the text are overwritten with NULs; the
   * results are a byte per token, a mask bit per token, and the number of tokens.
   */
  method ParseHexMask(text: array<char>, n: nat) returns (ok: bool, val: array<byte>, mask: array<byte>, len: nat)
    requires n < text.Length && text[n] == '\0' && '\0' !in text[..n]
    requires |Tokens(text[..n])| <= n / 2 + 2
    modifies text
    ensures fresh(val) && fresh(mask) && val != mask
    ensures ok <==> ParseTokens(Tokens(old(text[..n]))).Some?
    ensures ok ==>
      var slots := ParseTokens(Tokens(old(text[..n]))).value;
      len == |slots| && len <= val.Length && len <= 8 * mask.Length && Encodes(slots, val[..], mask[..])
    ensures ok ==> CutUpTo(text[..], old(text[..]), n, n)
  {
    var half := n / 2;
    val := new byte[half + 2](_ => 0);
    mask := new byte[(half + 7) / 8 + 2](_ => 0);
    assert val[..] == seq<byte>(half + 2, _ => 0) && mask[..] == seq<byte>((half + 7) / 8 + 2, _ => 0);
    NothingEncoded(half + 2, (half + 7) / 8 + 2);
    ghost var whole, source := text[..], text[..n];
    ghost var slots: seq<Slot> := [];
    assert whole[..n] == source;
    var start, pos, last := 0, 0, false;
    len := 0;
    while true
      invariant start <= n && pos == len == |slots|
      invariant CutUpTo(text[..], whole, n, start) && Parsed(source, start, slots)
      invariant Encodes(slots, val[..], mask[..])
      decreases n - start
    {
      ok, start, last, slots := ParsePass(text, val, mask, start, n, pos, whole, source, slots);
      if !ok {
        return;
      }
      len := len + 1;
      pos := pos + 1;
      if last {
        return;
      }
    }
  }

  /** One pass of the parsing loop: cut the next token, parse it, and move past its separator. */
  method ParsePass(text: array<char>, val: array<byte>, mask: array<byte>, start: nat, n: nat, pos: nat,
                   ghost whole: string, ghost source: string, ghost slots: seq<Slot>)
    returns (ok: bool, next: nat, last: bool, ghost slots': seq<Slot>)
    requires val != mask && text.Length == |whole| && start <= n < text.Length && pos == |slots|
    requires source == whole[..n] && |Tokens(source)| <= val.Length && |Tokens(source)| <= 8 * mask.Length
    requires CutUpTo(text[..], whole, n, start) && Parsed(source, start, slots)
    requires Encodes(slots, val[..], mask[..])
    modifies text, val, mask
    ensures !ok ==> ParseTokens(Tokens(source)).None?
    ensures ok ==> |slots'| == pos + 1 <= |Tokens(source)| && Encodes(slots', val[..], mask[..])
    ensures ok && !last ==> start < next <= n && CutUpTo(text[..], whole, n, next) && Parsed(source, next, slots')
    ensures ok && last ==> CutUpTo(text[..], whole, n, n) && ParseTokens(Tokens(source)) == Some(slots')
  {
    ghost var val0, mask0 := val[..], mask[..];
    var token, cp := NextToken(text, start, n, whole);
    assert val[..] == val0 && mask[..] == mask0;
    ParsedStep(source, start, slots, cp);
    ok := ParseSlot(token, val, mask, pos, slots);
    slots' := if ok then slots + [ParseToken(token).value] else slots;
    next, last := cp + 1, cp == n;
  }

  /** The driver's expansion of the packed mask into the firmware's byte mask. */
  method ExpandMask(mask: seq<byte>, patternLen: nat) returns (bytes: array<byte>)
    requires patternLen <= WOW_MASK_SIZE && patternLen <= 8 * |mask|
    ensures fresh(bytes) && bytes.Length == WOW_MASK_SIZE && Expands(mask, patternLen, bytes[..])
  {
    bytes := new byte[WOW_MASK_SIZE](_ => 0);
    for pos := 0 to patternLen
      invariant Expands(mask, pos, bytes[..])
    {
      if Bit(mask[pos / 8], pos % 8) {
        bytes[pos] := 0xff;
      }
    }
  }

  /**
   * The whole translation of one typed pattern: parse it, cut the results to the two attributes,
   * and expand the mask. It succeeds exactly when every token parses, and then the firmware
   * accepts exactly the packets the slots accept; for plain text, those the text describes.
   */
  method ConfigurePattern(text: array<char>, n: nat) returns (ok: bool, pattern: seq<byte>, byteMask: seq<byte>)
    requires n < text.Length && text[n] == '\0' && '\0' !in text[..n]
    requires |Tokens(text[..n])| <= n / 2 + 2 && |Tokens(text[..n])| <= WOW_MASK_SIZE
    modifies text
    ensures ok <==> ParseTokens(Tokens(old(text[..n]))).Some?
    ensures ok ==> |pattern| == |Tokens(old(text[..n]))| <= |byteMask|
    ensures ok ==> forall packet ::
      ByteMaskAccepts(pattern, byteMask, packet) <==> SlotsAccept(ParseTokens(Tokens(old(text[..n]))).value, packet)
    ensures (forall t | t in Tokens(old(text[..n])) :: PlainToken(t)) ==>
      ok && forall packet :: ByteMaskAccepts(pattern, byteMask, packet) <==> TextAccepts(Tokens(old(text[..n])), packet)
  {
    ghost var tokens := Tokens(text[..n]);
    var val, mask, len;
    ok, val, mask, len := ParseHexMask(text, n);
    pattern, byteMask := [], [];
    if ok {
      pattern := val[..len];
      var packed := mask[..(len + 7) / 8];
      var bytes := ExpandMask(packed, len);
      byteMask := bytes[..];
      forall packet
        ensures ByteMaskAccepts(pattern, byteMask, packet) <==> SlotsAccept(ParseTokens(tokens).value, packet)
      {
        ExpandedAcceptsSame(pattern, packed, byteMask, packet);
        EncodedAcceptsSame(ParseTokens(tokens).value, val[..], mask[..], packet);
      }
    }
    if forall t | t in tokens :: PlainToken(t) {
      PlainTextParses(tokens, []);
      forall packet
        ensures ByteMaskAccepts(pattern, byteMask, packet) <==> TextAccepts(tokens, packet)
      {
        PlainTextParses(tokens, packet);
      }
    }
  }

  // ----- printing -----

  const DIGITS := "0123456789abcdef"

  /** One byte as %.2x, or the wildcard. */
  function PrintSlot(slot: Slot): string
  {
    match slot
    case Any => "--"
    case Exact(v) => [DIGITS[v / 16], DIGITS[v % 16]]
  }

  function Print(slots: seq<Slot>): string
  {
    if slots == [] then ""
    else if |slots| == 1 then PrintSlot(slots[0])
    else PrintSlot(slots[0]) + ":" + Print(slots[1..])
  }

  /** The slots a stored pattern and bit mask stand for. */
  function SlotsOf(pattern: seq<byte>, mask: seq<byte>): (slots: seq<Slot>)
    requires |pattern| <= 8 * |mask|
    ensures |slots| == |pattern|
  {
    seq(|pattern|, i requires 0 <= i < |pattern| => if Bit(mask[i / 8], i % 8) then Exact(pattern[i]) else Any)
  }

  lemma {:induction false} PrintSnoc(slots: seq<Slot>, slot: Slot)
    requires slots != []
    ensures Print(slots + [slot]) == Print(slots) + ":" + PrintSlot(slot)
  {
    assert (slots + [slot])[1..] == slots[1..] + [slot];
    if |slots| > 1 {
      PrintSnoc(slots[1..], slot);
    }
  }

  /** What is printed before slot i: the slots below it, and the colon between. */
  function PrintedTo(slots: seq<Slot>, i: nat): string
    requires i <= |slots|
  {
    Print(slots[..i]) + if 0 < i < |slots| then ":" else ""
  }

  lemma PrintedToNext(slots: seq<Slot>, i: nat)
    requires i < |slots|
    ensures PrintedTo(slots, i + 1) == PrintedTo(slots, i) + PrintSlot(slots[i]) + (if i + 1 < |slots| then ":" else "")
  {
    assert slots[..i + 1] == slots[..i] + [slots[i]];
    if i > 0 {
      PrintSnoc(slots[..i], slots[i]);
    } else {
      assert "" + "" + PrintSlot(slots[0]) == PrintSlot(slots[0]);
    }
  }

  /** The pattern printer, refusing a mask whose length does not match. */
  method PrintPattern(pattern: seq<byte>, mask: seq<byte>) returns (ok: bool, out: string)
    ensures ok <==> |mask| == (|pattern| + 7) / 8
    ensures ok ==> out == Print(SlotsOf(pattern, mask))
  {
    out := "";
    ok := (|pattern| + 7) / 8 == |mask|;
    if !ok {
      return;
    }
    ghost var slots := SlotsOf(pattern, mask);
    for i := 0 to |pattern|
      invariant out == PrintedTo(slots, i)
    {
      PrintedToNext(slots, i);
      var piece := "--";
      if Bit(mask[i / 8], i % 8) {
        piece := [DIGITS[pattern[i] / 16], DIGITS[pattern[i] % 16]];
      }
      assert piece == PrintSlot(slots[i]);
      out := out + piece;
      out := out + if i != |pattern| - 1 then ":" else "";
    }
    assert slots[..|pattern|] == slots;
  }

  /** Bytes are printed with two lower-case digits, positions without a condition as two dashes. */
  lemma SlotText(v: byte)
    ensures PrintSlot(Exact(v)) == ["0123456789abcdef"[v / 16], "0123456789abcdef"[v % 16]] && PrintSlot(Any) == "--"
  {
  }

  lemma DigitValue(d: nat)
    requires d < 16
    ensures IsHex(DIGITS[d]) && HexDigit(DIGITS[d]) == d
  {
  }

  /** A printed slot is a plain token without a colon, and reads back as the slot. */
  lemma PrintedSlotParses(slot: Slot)
    ensures var s := PrintSlot(slot);
            PlainToken(s) && ':' !in s && |s| == 2 && ParseToken(s) == Some(slot)
  {
    var s := PrintSlot(slot);
    if slot.Exact? {
      DigitValue(slot.value / 16);
      DigitValue(slot.value % 16);
      HexValueShort(s);
      PlainTokenParses(s);
    }
  }

  /** A piece without colons ends where it ends. */
  lemma {:induction false} ColonAfter(s: string, i: nat, n: nat)
    requires i <= n <= |s| && (n < |s| ==> s[n] == ':') && forall k | i <= k < n :: s[k] != ':'
    ensures NextColon(s, i) == n
    decreases n - i
  {
    if i < n {
      ColonAfter(s, i + 1, n);
    }
  }

  lemma {:induction false} ColonShifts(before: string, rest: string, i: nat)
    requires i <= |rest|
    ensures NextColon(before + rest, |before| + i) == |before| + NextColon(rest, i)
    decreases |rest| - i
  {
    if i < |rest| && rest[i] != ':' {
      ColonShifts(before, rest, i + 1);
    }
  }

  lemma {:induction false} TokensShift(before: string, rest: string, i: nat)
    requires i <= |rest|
    ensures TokensFrom(before + rest, |before| + i) == TokensFrom(rest, i)
    decreases |rest| - i
  {
    var j := NextColon(rest, i);
    ColonShifts(before, rest, i);
    SliceShifts(before, rest, i, j);
    if j < |rest| {
      TokensShift(before, rest, j + 1);
    }
  }

  lemma SliceShifts(before: string, rest: string, i: nat, j: nat)
    requires i <= j <= |rest|
    ensures (before + rest)[|before| + i..|before| + j] == rest[i..j]
  {
  }

  /**
   * Printing a pattern and parsing the text gives the pattern back, exactly when it has at least
   * one byte: the empty pattern prints as the empty text, which parses as a single zero byte.
   */
  lemma {:induction false} PrintParse(slots: seq<Slot>)
    ensures ParseTokens(Tokens(Print(slots))) == Some(slots) <==> slots != []
  {
    if slots == [] {
      assert ParseToken("") == Some(Exact(0));
      assert |ParseTokens([""]).value| == 1;
    } else {
      PrintedParses(slots);
    }
  }

  lemma {:induction false} PrintedParses(slots: seq<Slot>)
    requires slots != []
    ensures ParseTokens(Tokens(Print(slots))) == Some(slots)
    ensures |Print(slots)| == 3 * |slots| - 1
  {
    var first := PrintSlot(slots[0]);
    PrintedSlotParses(slots[0]);
    if |slots| == 1 {
      ColonAfter(first, 0, |first|);
      assert first[0..|first|] == first;
      var one: seq<string> := [first];
      assert Tokens(first) == one && one[1..] == [];
      assert ParseTokens([]) == Some([]);
      assert slots == [slots[0]] + [];
    } else {
      var rest := Print(slots[1..]);
      PrintedParses(slots[1..]);
      TokensOfJoined(first, rest);
      assert ([first] + Tokens(rest))[1..] == Tokens(rest);
      assert slots == [slots[0]] + slots[1..];
    }
  }

  /** The printed text is one the parser takes: no NUL, and its tokens fit the buffers. */
  lemma {:induction false} PrintedFits(slots: seq<Slot>)
    requires slots != []
    ensures '\0' !in Print(slots) && |Tokens(Print(slots))| == |slots| <= |Print(slots)| / 2 + 2
  {
    PrintedParses(slots);
    NoNul(slots);
  }

  lemma {:induction false} NoNul(slots: seq<Slot>)
    ensures '\0' !in Print(slots)
  {
    if slots != [] {
      NoNul(slots[1..]);
      SlotNoNul(slots[0]);
    }
  }

  lemma SlotNoNul(slot: Slot)
    ensures '\0' !in PrintSlot(slot)
  {
    if slot.Exact? {
      DigitValue(slot.value / 16);
      DigitValue(slot.value % 16);
    }
  }

  /**
   * Printing a stored pattern and parsing the text, byte by byte: whatever buffers hold the parser's
   * result, they have the same length, the same mask bits below it and none above, and the same
   * bytes where the mask is set, zero elsewhere.
   */
  lemma PrintParseBytes(pattern: seq<byte>, mask: seq<byte>, val: seq<byte>, mask': seq<byte>)
    requires 0 < |pattern| <= 8 * |mask|
    requires |pattern| <= |val| && |pattern| <= 8 * |mask'|
    ensures var parsed := ParseTokens(Tokens(Print(SlotsOf(pattern, mask))));
      && parsed.Some? && |parsed.value| == |pattern|
      && (Encodes(parsed.value, val, mask') <==>
            && (forall i | 0 <= i < 8 * |mask'| :: Bit(mask'[i / 8], i % 8) <==> i < |pattern| && Bit(mask[i / 8], i % 8))
            && (forall i | 0 <= i < |val| :: val[i] == if i < |pattern| && Bit(mask[i / 8], i % 8) then pattern[i] else 0))
  {
    var slots := SlotsOf(pattern, mask);
    PrintedParses(slots);
    forall i | 0 <= i < |pattern|
      ensures slots[i].Exact? <==> Bit(mask[i / 8], i % 8)
      ensures slots[i].Exact? ==> slots[i].value == pattern[i]
    {
    }
    SlotsEncoded(pattern, mask, slots, val, mask');
  }

  lemma SlotsEncoded(pattern: seq<byte>, mask: seq<byte>, slots: seq<Slot>, val: seq<byte>, mask': seq<byte>)
    requires |slots| == |pattern| <= 8 * |mask| && |pattern| <= |val| && |pattern| <= 8 * |mask'|
    requires forall i | 0 <= i < |pattern| :: slots[i] == if Bit(mask[i / 8], i % 8) then Exact(pattern[i]) else Any
    ensures Encodes(slots, val, mask') <==>
            && (forall i | 0 <= i < 8 * |mask'| :: Bit(mask'[i / 8], i % 8) <==> i < |pattern| && Bit(mask[i / 8], i % 8))
            && (forall i | 0 <= i < |val| :: val[i] == if i < |pattern| && Bit(mask[i / 8], i % 8) then pattern[i] else 0)
  {
  }

  lemma TokensOfJoined(first: string, rest: string)
    requires ':' !in first
    ensures Tokens(first + ":" + rest) == [first] + Tokens(rest)
  {
    var before := first + ":";
    assert first + ":" + rest == before + rest;
    ColonAfter(before + rest, 0, |first|);
    TokensShift(before, rest, 0);
    assert (before + rest)[0..|first|] == first;
  }
}
