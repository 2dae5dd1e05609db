/** The Manager's hand-written base64url decoder (section 5 of RFC 4648, unpadded), with its 32-bit accumulator, and
    the matching encoder.  Both are compared through the number a digit string denotes. */
module Base64Url {
  import opened Common

  type Byte = x: int | 0 <= x < 256
  type Sextet = x: int | 0 <= x < 64

  // ----- the alphabet

  function Digit(c: char): Option<Sextet> {
    if 'A' <= c <= 'Z' then Some(c as int - 'A' as int)
    else if 'a' <= c <= 'z' then Some(c as int - 'a' as int + 26)
    else if '0' <= c <= '9' then Some(c as int - '0' as int + 52)
    else if c == '-' then Some(62)
    else if c == '_' then Some(63)
    else None
  }

  function Letter(x: Sextet): char {
    if x < 26 then 'A' + x as char
    else if x < 52 then 'a' + (x - 26) as char
    else if x < 62 then '0' + (x - 52) as char
    else if x == 62 then '-'
    else '_'
  }

  lemma LetterDigit(x: Sextet, c: char)
    ensures Digit(Letter(x)) == Some(x) && Letter(x) != '='
    ensures Digit(c).Some? ==> Letter(Digit(c).value) == c
  {
  }

  /** The digits in the order of table 2 in section 5 of RFC 4648: four runs, with these ends. */
  lemma LettersRun(x: Sextet)
    ensures Letter(0) == 'A' && Letter(25) == 'Z' && Letter(26) == 'a' && Letter(51) == 'z'
    ensures Letter(52) == '0' && Letter(61) == '9' && Letter(62) == '-' && Letter(63) == '_'
    ensures x < 61 && x != 25 && x != 51 ==> Letter(x + 1) as int == Letter(x) as int + 1
  {
  }

  // ----- the number a digit string denotes

  function BytesValue(b: seq<Byte>): nat {
    if b == [] then 0 else 256 * BytesValue(b[..|b| - 1]) + b[|b| - 1]
  }

  ghost predicate AllDigits(s: string) {
    forall i :: 0 <= i < |s| ==> Digit(s[i]).Some?
  }

  function TextValue(s: string): nat
    requires AllDigits(s)
  {
    if s == "" then 0 else 64 * TextValue(s[..|s| - 1]) + Digit(s[|s| - 1]).value
  }

  lemma {:induction false} BytesUnique(a: seq<Byte>, b: seq<Byte>)
    requires |a| == |b| && BytesValue(a) == BytesValue(b)
    ensures a == b
  {
    if a != [] {
      var n := |a| - 1;
      BytesUnique(a[..n], b[..n]);
      assert a == a[..n] + [a[n]] && b == b[..n] + [b[n]];
    }
  }

  lemma {:induction false} TextUnique(s: string, t: string)
    requires AllDigits(s) && AllDigits(t) && |s| == |t| && TextValue(s) == TextValue(t)
    ensures s == t
  {
    if s != "" {
      var n := |s| - 1;
      TextUnique(s[..n], t[..n]);
      LetterDigit(0, s[n]);
      LetterDigit(0, t[n]);
      assert s == s[..n] + [s[n]] && t == t[..n] + [t[n]];
    }
  }

  // ----- decoding

  /** 2 to the number of spare bits. */
  function Power2(bits: nat): nat
    requires bits in {0, 2, 4, 6}
  {
    if bits == 0 then 1 else if bits == 2 then 4 else if bits == 4 then 16 else 64
  }

  function BeforePadding(s: string): string {
    if s == "" || s[0] == '=' then "" else [s[0]] + BeforePadding(s[1..])
  }

  /** `out` is the text's value without its spare bits, which must be zero; fewer than eight bits are spare. */
  ghost predicate Decodes(text: string, out: seq<Byte>) {
    var spare := 6 * |text| - 8 * |out|;
    AllDigits(text) && spare in {0, 2, 4, 6} && TextValue(text) == BytesValue(out) * Power2(spare)
  }

  // The digits read so far: whole bytes are out, the low bits of the accumulator are the rest.
  ghost predicate Partial(text: string, out: seq<Byte>, accumulator: nat, bits: nat) {
    && AllDigits(text) && bits in {0, 2, 4, 6} && 8 * |out| + bits == 6 * |text|
    && TextValue(text) == BytesValue(out) * Power2(bits) + accumulator % Power2(bits)
  }

  function Shifted(accumulator: nat, bits: nat): nat
    requires bits in {0, 2, 4, 6}
  {
    accumulator / Power2(bits)
  }

  lemma NextDigit(text: string, c: char, out: seq<Byte>, accumulator: nat, bits: nat)
    requires Partial(text, out, accumulator, bits) && Digit(c).Some?
    ensures var a := accumulator * 64 % 0x1_0000_0000 + Digit(c).value;
            if bits + 6 >= 8
            then bits - 2 in {0, 2, 4} && Partial(text + [c], out + [Shifted(a, bits - 2) % 256], a, bits - 2)
            else Partial(text + [c], out, a, bits + 6)
  {
    hide TextValue, AllDigits, BytesValue, Digit;
    var d: Sextet := Digit(c).value;
    var a := accumulator * 64 % 0x1_0000_0000 + d;
    AppendDigit(text, c);
    if bits == 0 {
      LowBits(accumulator, d, 1);
    } else {
      var p := Power2(bits - 2);
      LowBits(accumulator, d, 4 * p);
      ByteOut(BytesValue(out), accumulator % (4 * p), d, a, p);
      AppendByte(out, Shifted(a, bits - 2) % 256);
      PowerSteps(BytesValue(out), bits);
    }
  }

  lemma PowerSteps(v: nat, bits: nat)
    requires bits in {2, 4, 6}
    ensures Power2(bits) == 4 * Power2(bits - 2) && v * Power2(bits) == v * (4 * Power2(bits - 2))
  {
  }

  // A digit that completes a byte: the value read is the byte's and what stays in the accumulator.
  lemma ByteOut(v: nat, r: nat, d: Sextet, a: nat, p: nat)
    requires p in {1, 4, 16}
    requires r * 64 + d == if p == 1 then a % 256 else if p == 4 then a % 1024 else a % 4096
    ensures 64 * (v * (4 * p) + r) + d == (256 * v + a / p % 256) * p + a % p
  {
    SplitByte(a, p);
    if p == 1 {
    } else if p == 4 {
    } else {
    }
  }

  lemma AppendDigit(text: string, c: char)
    requires AllDigits(text) && Digit(c).Some?
    ensures AllDigits(text + [c]) && TextValue(text + [c]) == 64 * TextValue(text) + Digit(c).value
  {
    assert (text + [c])[..|text|] == text;
  }

  lemma AppendByte(out: seq<Byte>, b: Byte)
    ensures BytesValue(out + [b]) == 256 * BytesValue(out) + b
  {
    assert (out + [b])[..|out|] == out;
  }

  // Shifting in a digit keeps the low bits, whatever the 32-bit truncation drops.
  lemma LowBits(accumulator: nat, d: Sextet, p: nat)
    requires p in {1, 4, 16, 64}
    ensures (accumulator * 64 % 0x1_0000_0000 + d) % (64 * p) == accumulator % p * 64 + d
  {
    var high := accumulator * 64 / 0x1_0000_0000;
    var a := accumulator * 64 - high * 0x1_0000_0000 + d;
    var q, r := accumulator / p, accumulator % p;
    if p == 1 {
      Remainder(a, 64, q - high * 0x400_0000, 64 * r + d);
    } else if p == 4 {
      Remainder(a, 256, q - high * 0x100_0000, 64 * r + d);
    } else if p == 16 {
      Remainder(a, 1024, q - high * 0x40_0000, 64 * r + d);
    } else {
      Remainder(a, 4096, q - high * 0x10_0000, 64 * r + d);
    }
  }

  lemma Remainder(a: int, m: nat, q: int, r: nat)
    requires r < m && a == m * q + r
    ensures a % m == r
  {
    var k := a / m - q;
    assert m * k + a % m == r;
    Multiple(m, k);
  }

  lemma Multiple(m: int, k: int)
    requires m >= 0
    ensures k >= 1 ==> m * k >= m
    ensures k <= -1 ==> m * k <= -m
  {
  }

  lemma SplitByte(a: nat, p: nat)
    requires p in {1, 4, 16}
    ensures a % (256 * p) == a / p % 256 * p + a % p
  {
    var q, r := a / p, a % p;
    var high, low := q / 256, q % 256;
    if p == 1 {
      Remainder(a, 256, high, low);
    } else if p == 4 {
      Remainder(a, 1024, high, 4 * low + r);
    } else {
      Remainder(a, 4096, high, 16 * low + r);
    }
  }

  /** `base64url_decode`: a value is accepted exactly when the text before any padding denotes whole bytes. */
  method Decode(value: string) returns (result: Option<seq<Byte>>)
    ensures result.Some? ==> Decodes(BeforePadding(value), result.value)
    ensures result.None? ==> !exists out :: Decodes(BeforePadding(value), out)
  {
    hide *;
    var output: seq<Byte> := [];
    var accumulator: nat := 0;
    var bits: nat := 0;
    var k := 0;
    NothingRead();
    assert value[..0] == "" && value[0..] == value;
    while k < |value|
      invariant k <= |value| && BeforePadding(value) == value[..k] + BeforePadding(value[k..])
      invariant Partial(value[..k], output, accumulator, bits)
    {
      NextCharacter(value, k);
      var c := value[k];
      if c == '=' {
        break;
      }
      var decoded := Digit(c);
      if decoded.None? {
        BadDigit(value, k);
        return None;
      }
      NextDigit(value[..k], c, output, accumulator, bits);
      assert value[..k] + [c] == value[..k + 1];
      PartialBits(value[..k], output, accumulator, bits);
      accumulator := accumulator * 64 % 0x1_0000_0000 + decoded.value;
      bits := bits + 6;
      if bits >= 8 {
        bits := bits - 8;
        output := output + [Shifted(accumulator, bits) % 256];
      }
      k := k + 1;
    }
    assert BeforePadding(value) == value[..k] by { NextCharacter(value, k); }
    PartialBits(value[..k], output, accumulator, bits);
    Spare(value[..k], output, accumulator, bits);
    if bits > 0 && accumulator % Power2(bits) != 0 {
      return None;
    }
    return Some(output);
  }

  lemma NothingRead()
    ensures Partial("", [], 0, 0)
  {
  }

  lemma PartialBits(text: string, out: seq<Byte>, accumulator: nat, bits: nat)
    requires Partial(text, out, accumulator, bits)
    ensures bits in {0, 2, 4, 6} && Power2(bits) > 0
  {
  }

  lemma NextCharacter(value: string, k: nat)
    requires k <= |value| && BeforePadding(value) == value[..k] + BeforePadding(value[k..])
    ensures k == |value| || value[k] == '=' ==> BeforePadding(value) == value[..k]
    ensures k < |value| && value[k] != '=' ==> BeforePadding(value) == value[..k + 1] + BeforePadding(value[k + 1..])
  {
    hide *;
    PaddingHead(value[k..]);
    if k == |value| || value[k] == '=' {
      assert value[..k] + "" == value[..k];
    } else {
      assert value[k..][1..] == value[k + 1..];
      assert value[..k + 1] == value[..k] + [value[k]];
      Regrouped(value[..k], [value[k]], BeforePadding(value[k + 1..]));
    }
  }

  lemma Regrouped(a: string, b: string, c: string)
    ensures a + (b + c) == a + b + c
  {
  }

  lemma PaddingHead(s: string)
    ensures s == "" || s[0] == '=' ==> BeforePadding(s) == ""
    ensures s != "" && s[0] != '=' ==> BeforePadding(s) == [s[0]] + BeforePadding(s[1..])
  {
  }

  lemma BadDigit(value: string, k: nat)
    requires k < |value| && BeforePadding(value) == value[..k + 1] + BeforePadding(value[k + 1..])
    requires Digit(value[k]).None?
    ensures !exists out :: Decodes(BeforePadding(value), out)
  {
    assert BeforePadding(value)[k] == value[k];
  }

  // The spare bits are zero exactly when the text denotes whole bytes.
  lemma Spare(text: string, out: seq<Byte>, accumulator: nat, bits: nat)
    requires Partial(text, out, accumulator, bits)
    ensures bits in {0, 2, 4, 6}
    ensures bits == 0 || accumulator % Power2(bits) == 0 ==> Decodes(text, out)
    ensures bits > 0 && accumulator % Power2(bits) != 0 ==> !exists b :: Decodes(text, b)
  {
    hide TextValue, BytesValue;
  }

  // ----- encoding

  /** Four letters for three bytes, three for a last pair, two for a last byte. */
  function Group(g: seq<Byte>): string
    requires 1 <= |g| <= 3
  {
    if |g| == 1 then [Letter(g[0] / 4), Letter(g[0] % 4 * 16)]
    else if |g| == 2 then [Letter(g[0] / 4), Letter(g[0] % 4 * 16 + g[1] / 16), Letter(g[1] % 16 * 4)]
    else [Letter(g[0] / 4), Letter(g[0] % 4 * 16 + g[1] / 16), Letter(g[1] % 16 * 4 + g[2] / 64), Letter(g[2] % 64)]
  }

  function Encoded(b: seq<Byte>): string {
    if b == [] then ""
    else
      var n := if |b| % 3 == 0 then |b| - 3 else |b| - |b| % 3;
      Encoded(b[..n]) + Group(b[n..])
  }

  method Encode(b: seq<Byte>) returns (output: string)
    ensures output == Encoded(b)
  {
    hide Encoded, Group;
    output := "";
    EncodedEmpty();
    assert b[..0] == [];
    var index := 0;
    while index < |b|
      invariant index % 3 == 0 && (index <= |b| ==> output == Encoded(b[..index]))
      invariant index > |b| ==> output == Encoded(b)
    {
      var end := if index + 3 <= |b| then index + 3 else |b|;
      EncodedStep(b, index, end);
      assert b[..|b|] == b;
      output := output + Group(b[index..end]);
      index := index + 3;
    }
    assert b[..|b|] == b;
  }

  lemma EncodedEmpty()
    ensures Encoded([]) == ""
  {
  }

  lemma EncodedStep(b: seq<Byte>, index: nat, end: nat)
    requires index < end <= |b| && index % 3 == 0 && (end == index + 3 || (end == |b| && end < index + 3))
    ensures Encoded(b[..end]) == Encoded(b[..index]) + Group(b[index..end])
  {
    hide Group;
    var c := b[..end];
    assert index == if |c| % 3 == 0 then |c| - 3 else |c| - |c| % 3;
    assert c[..index] == b[..index] && c[index..] == b[index..end];
  }

  /** An encoding has only digits, denotes the bytes shifted by its spare bits, and has as few digits as possible. */
  ghost predicate EncodesValue(b: seq<Byte>, text: string) {
    var spare := 6 * |text| - 8 * |b|;
    AllDigits(text) && spare in {0, 2, 4} && TextValue(text) == BytesValue(b) * Power2(spare)
  }

  lemma TextSnoc(text: string, x: Sextet)
    requires AllDigits(text)
    ensures AllDigits(text + [Letter(x)]) && TextValue(text + [Letter(x)]) == 64 * TextValue(text) + x
  {
    LetterDigit(x, Letter(x));
    AppendDigit(text, Letter(x));
  }

  // The bits of one, two and three bytes regrouped into sextets.
  lemma Regroup(f: Byte, s: Byte, t: Byte)
    ensures 64 * (f / 4) + f % 4 * 16 == 16 * f
    ensures 4096 * (f / 4) + 64 * (f % 4 * 16 + s / 16) + s % 16 * 4 == 1024 * f + 4 * s
    ensures 262144 * (f / 4) + 4096 * (f % 4 * 16 + s / 16) + 64 * (s % 16 * 4 + t / 64) + t % 64 ==
      65536 * f + 256 * s + t
  {
  }

  lemma OneByte(text: string, b: seq<Byte>, f: Byte)
    requires AllDigits(text) && 3 * |text| == 4 * |b| && TextValue(text) == BytesValue(b)
    ensures EncodesValue(b + [f], text + [Letter(f / 4), Letter(f % 4 * 16)])
  {
    var w, x := f / 4, f % 4 * 16;
    hide TextValue, BytesValue, AllDigits, Letter, Digit;
    TextSnoc(text, w);
    TextSnoc(text + [Letter(w)], x);
    AppendByte(b, f);
    Regroup(f, 0, 0);
    assert text + [Letter(w), Letter(x)] == text + [Letter(w)] + [Letter(x)];
  }

  lemma TwoBytes(text: string, b: seq<Byte>, f: Byte, s: Byte)
    requires AllDigits(text) && 3 * |text| == 4 * |b| && TextValue(text) == BytesValue(b)
    ensures EncodesValue(b + [f, s], text + [Letter(f / 4), Letter(f % 4 * 16 + s / 16), Letter(s % 16 * 4)])
  {
    var w, x, y := f / 4, f % 4 * 16 + s / 16, s % 16 * 4;
    hide TextValue, BytesValue, AllDigits, Letter, Digit;
    TextSnoc(text, w);
    TextSnoc(text + [Letter(w)], x);
    TextSnoc(text + [Letter(w)] + [Letter(x)], y);
    AppendByte(b, f);
    AppendByte(b + [f], s);
    Regroup(f, s, 0);
    assert text + [Letter(w), Letter(x), Letter(y)] == text + [Letter(w)] + [Letter(x)] + [Letter(y)];
    assert b + [f, s] == b + [f] + [s];
  }

  // Four letters more, and three bytes more.
  lemma FourLetters(text: string, w: Sextet, x: Sextet, y: Sextet, z: Sextet)
    requires AllDigits(text)
    ensures var four := text + [Letter(w), Letter(x), Letter(y), Letter(z)];
      AllDigits(four) && TextValue(four) == 16777216 * TextValue(text) + 262144 * w + 4096 * x + 64 * y + z
  {
    hide *;
    TextSnoc(text, w);
    TextSnoc(text + [Letter(w)], x);
    TextSnoc(text + [Letter(w)] + [Letter(x)], y);
    TextSnoc(text + [Letter(w)] + [Letter(x)] + [Letter(y)], z);
    assert text + [Letter(w), Letter(x), Letter(y), Letter(z)] ==
      text + [Letter(w)] + [Letter(x)] + [Letter(y)] + [Letter(z)];
  }

  lemma ThreeMore(b: seq<Byte>, f: Byte, s: Byte, t: Byte)
    ensures BytesValue(b + [f, s, t]) == 16777216 * BytesValue(b) + 65536 * f + 256 * s + t
  {
    hide *;
    AppendByte(b, f);
    AppendByte(b + [f], s);
    AppendByte(b + [f] + [s], t);
    assert b + [f, s, t] == b + [f] + [s] + [t];
  }

  lemma ThreeBytes(text: string, b: seq<Byte>, f: Byte, s: Byte, t: Byte)
    requires AllDigits(text) && 3 * |text| == 4 * |b| && TextValue(text) == BytesValue(b)
    ensures var four := text + [Letter(f / 4), Letter(f % 4 * 16 + s / 16), Letter(s % 16 * 4 + t / 64),
                                Letter(t % 64)];
            EncodesValue(b + [f, s, t], four) && TextValue(four) == BytesValue(b + [f, s, t])
  {
    hide TextValue, BytesValue, AllDigits, Letter, Digit;
    FourLetters(text, f / 4, f % 4 * 16 + s / 16, s % 16 * 4 + t / 64, t % 64);
    ThreeMore(b, f, s, t);
    Regroup(f, s, t);
  }

  lemma GroupValue(text: string, b: seq<Byte>, g: seq<Byte>)
    requires 1 <= |g| <= 3 && AllDigits(text) && 3 * |text| == 4 * |b| && TextValue(text) == BytesValue(b)
    ensures EncodesValue(b + g, text + Group(g))
    ensures |g| == 3 ==> 3 * |text + Group(g)| == 4 * |b + g| && TextValue(text + Group(g)) == BytesValue(b + g)
  {
    hide TextValue, BytesValue, AllDigits, Letter, Digit, EncodesValue;
    if |g| == 1 {
      OneByte(text, b, g[0]);
      assert g == [g[0]];
    } else if |g| == 2 {
      TwoBytes(text, b, g[0], g[1]);
      assert g == [g[0], g[1]];
    } else {
      ThreeBytes(text, b, g[0], g[1], g[2]);
      assert g == [g[0], g[1], g[2]];
    }
  }

  lemma {:induction false} EncodedValue(b: seq<Byte>)
    ensures EncodesValue(b, Encoded(b))
    ensures |b| % 3 == 0 ==> 3 * |Encoded(b)| == 4 * |b| && TextValue(Encoded(b)) == BytesValue(b)
  {
    hide TextValue, BytesValue, AllDigits, Group, EncodesValue;
    if b == [] {
      EncodedEmpty();
      EmptyValue();
    } else {
      var n := if |b| % 3 == 0 then |b| - 3 else |b| - |b| % 3;
      EncodedValue(b[..n]);
      EncodesKnows(b[..n], Encoded(b[..n]));
      GroupValue(Encoded(b[..n]), b[..n], b[n..]);
      assert b[..n] + b[n..] == b;
    }
  }

  lemma EmptyValue()
    ensures EncodesValue([], "") && TextValue("") == BytesValue([])
  {
  }

  lemma EncodesKnows(b: seq<Byte>, text: string)
    requires EncodesValue(b, text)
    ensures AllDigits(text)
  {
  }

  // ----- round trips

  lemma NoPadding(text: string)
    requires AllDigits(text)
    ensures BeforePadding(text) == text
  {
    if text != "" {
      assert Digit(text[0]).Some?;
      assert forall i :: 0 <= i < |text| - 1 ==> text[1..][i] == text[i + 1];
      NoPadding(text[1..]);
    }
  }

  /** Decoding any encoding returns the bytes: they are what it decodes to, and nothing else is. */
  lemma DecodeEncoded(b: seq<Byte>, out: seq<Byte>)
    ensures BeforePadding(Encoded(b)) == Encoded(b)
    ensures Decodes(Encoded(b), out) <==> out == b
  {
    EncodedValue(b);
    NoPadding(Encoded(b));
    if Decodes(Encoded(b), out) {
      hide BytesValue, TextValue, AllDigits, Encoded;
      assert |out| == |b|;
      BytesUnique(out, b);
    }
  }

  /** Re-encoding what an accepted value decodes to returns the value exactly when it has no padding and its length
      is not 1 modulo 4. */
  lemma EncodeDecoded(value: string, out: seq<Byte>)
    requires Decodes(BeforePadding(value), out)
    ensures Encoded(out) == value <==> '=' !in value && |value| % 4 != 1
  {
    EncodedValue(out);
    NoPadding(Encoded(out));
    PaddingStops(value);
    hide BytesValue, TextValue, AllDigits, Encoded, BeforePadding, Power2;
    var text := BeforePadding(value);
    DigitCount(|text|, |Encoded(out)|, |out|);
    if text == value && |value| % 4 != 1 {
      TextUnique(text, Encoded(out));
    }
  }

  /** Two accepted values that re-encoding does not return: `QQ==`, for its padding, and `A`, for its length. */
  lemma NotReturned()
    ensures Decodes(BeforePadding("QQ=="), [65]) && Encoded([65]) == "QQ"
    ensures Decodes(BeforePadding("A"), []) && Encoded([]) == ""
  {
    hide *;
    DecodeEncoded([65], [65]);
    OneByteText();
    PaddedText();
    EncodedEmpty();
    LetterOfNothing();
  }

  lemma OneByteText()
    ensures Encoded([65]) == "QQ"
  {
    hide BytesValue, TextValue, Digit;
    EncodedEmpty();
    EncodedStep([65], 0, 1);
    assert [65][..0] == [] && [65][..1] == [65] == [65][0..1];
  }

  lemma PaddedText()
    ensures BeforePadding("QQ==") == "QQ" && BeforePadding("A") == "A"
  {
    hide BeforePadding;
    PaddingHead("QQ==");
    PaddingHead("Q==");
    PaddingHead("==");
    PaddingHead("A");
    PaddingHead("");
    assert "QQ=="[1..] == "Q==" && "Q=="[1..] == "==" && "A"[1..] == "";
  }

  lemma LetterOfNothing()
    ensures Decodes("A", [])
  {
    assert "A"[..0] == "";
  }

  // Two digit counts for one number of bytes agree unless one of them spares six bits.
  lemma DigitCount(n: nat, least: nat, bytes: nat)
    requires 6 * n - 8 * bytes in {0, 2, 4, 6} && 6 * least - 8 * bytes in {0, 2, 4}
    ensures if n % 4 == 1 then 6 * n - 8 * bytes == 6 && n == least + 1 else n == least
  {
    var k := n / 4;
    assert n == 4 * k + n % 4;
  }

  lemma PaddingStops(value: string)
    ensures BeforePadding(value) == value <==> '=' !in value
  {
  }
}
