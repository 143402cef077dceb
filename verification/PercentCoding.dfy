/** Percent coding as written: the encoder writes decimal codes, the decoder reads hexadecimal. */
module PercentCoding {
  import opened Wrappers

  const ESCAPED := " !\"#$%&'()*+,/:;=?@[]"

  predicate Escaped(c: char) {
    c in ESCAPED
  }

  lemma EscapedCodes(c: char)
    requires Escaped(c)
    ensures 32 <= c as int <= 93
  {
  }

  /** The codes of the 21 characters that the encoder escapes. */
  ghost predicate Reserved(c: char) {
    var n := c as int;
    32 <= n <= 44 || n == 47 || n == 58 || n == 59 || n == 61 || n == 63 || n == 64 || n == 91 || n == 93
  }

  lemma EscapedExactly(c: char)
    ensures Escaped(c) <==> Reserved(c)
  {
    assert |ESCAPED| == 21;
    assert forall i :: 0 <= i < 21 ==> Reserved(ESCAPED[i]);
    if 32 <= c as int <= 44 {
      assert ESCAPED[c as int - 32] == c;
    } else if Reserved(c) {
      assert ESCAPED[13] == '/' && ESCAPED[14] == ':' && ESCAPED[15] == ';' && ESCAPED[16] == '=';
      assert ESCAPED[17] == '?' && ESCAPED[18] == '@' && ESCAPED[19] == '[' && ESCAPED[20] == ']';
    }
  }

  function Digit(n: nat): char
    requires n < 10
  {
    '0' + n as char
  }

  /** std::to_string of a number below 100. */
  function Decimal(n: nat): string
    requires n < 100
  {
    if n < 10 then [Digit(n)] else [Digit(n / 10), Digit(n % 10)]
  }

  function EncodeChar(c: char): string {
    if Escaped(c) then EscapedCodes(c); "%" + Decimal(c as int) else [c]
  }

  function Encode(s: string): string {
    if s == [] then [] else EncodeChar(s[0]) + Encode(s[1..])
  }

  /** The value of one hexadecimal digit of either case. */
  function HexValue(c: char): (r: Option<nat>)
    ensures r.Some? ==> r.value < 16
  {
    if '0' <= c <= '9' then Some(c as int - '0' as int)
    else if 'a' <= c <= 'f' then Some(c as int - 'a' as int + 10)
    else if 'A' <= c <= 'F' then Some(c as int - 'A' as int + 10)
    else None
  }

  /** The number that the leading hexadecimal digits of `t` denote, and whether there are any. */
  function LeadingHex(t: string, acc: nat): nat {
    if t == [] || HexValue(t[0]).None? then acc else LeadingHex(t[1..], 16 * acc + HexValue(t[0]).value)
  }

  predicate IsSpace(c: char) {
    c == ' ' || '\t' <= c <= '\r'
  }

  /** std::stoi to base 16 of at most two characters: leading space, a sign, then digits, of which
      there must be one. */
  function Stoi16(t: string): Outcome<int>
    decreases |t|
  {
    if t == [] then Fault
    else if IsSpace(t[0]) then Stoi16(t[1..])
    else
      var signed := t[0] == '+' || t[0] == '-';
      var digits := if signed then t[1..] else t;
      if digits == [] || HexValue(digits[0]).None? then Fault
      else Ok(if t[0] == '-' then -(LeadingHex(digits, 0) as int) else LeadingHex(digits, 0))
  }

  /** static_cast<char> of an int. */
  function ToChar(n: int): char {
    (n % 256) as char
  }

  function Two(s: string): string {
    if |s| <= 2 then s else s[..2]
  }

  function Rest(s: string, n: nat): string {
    if |s| <= n then [] else s[n..]
  }

  function Decode(s: string): Outcome<string>
    decreases |s|
  {
    if s == [] then Ok([])
    else if s[0] == '%' then
      var code :- Stoi16(Two(s[1..]));
      var tail :- Decode(Rest(s, 3));
      Ok([ToChar(code)] + tail)
    else
      var tail :- Decode(s[1..]);
      Ok([s[0]] + tail)
  }

  // ----- The code -----

  method PercentEncode(str: string) returns (encoded: string)
    ensures encoded == Encode(str)
  {
    encoded := "";
    assert str[0..] == str;
    for i := 0 to |str|
      invariant encoded + Encode(str[i..]) == Encode(str)
    {
      EncodeNext(encoded, str, i);
      if Escaped(str[i]) {
        EscapedCodes(str[i]);
        encoded := encoded + ("%" + Decimal(str[i] as int));
      } else {
        encoded := encoded + [str[i]];
      }
    }
    assert encoded == encoded + Encode(str[|str|..]);
  }

  lemma EncodeNext(encoded: string, str: string, i: nat)
    requires i < |str|
    ensures encoded + Encode(str[i..]) == (encoded + EncodeChar(str[i])) + Encode(str[i + 1..])
  {
    assert str[i..][0] == str[i] && str[i..][1..] == str[i + 1..];
  }

  /** Puts what was decoded so far in front of the decoding of the rest. */
  function Continue(decoded: string, r: Outcome<string>): Outcome<string> {
    match r
    case Ok(tail) => Ok(decoded + tail)
    case Err => Err
    case Fault => Fault
  }

  method PercentDecode(str: string) returns (r: Outcome<string>)
    ensures r == Decode(str)
  {
    var decoded := "";
    var i := 0;
    ContinueNone(Decode(str));
    assert Rest(str, 0) == str;
    while i < |str|
      invariant Continue(decoded, Decode(Rest(str, i))) == Decode(str)
    {
      ghost var s := Rest(str, i);
      assert s == str[i..] && s[1..] == Rest(str, i + 1);
      if str[i] == '%' {
        var hex := Two(str[i + 1..]);
        assert Rest(s, 3) == Rest(str, i + 3);
        var code :- Stoi16(hex);
        ContinueOne(decoded, ToChar(code), Decode(Rest(s, 3)));
        decoded := decoded + [ToChar(code)];
        i := i + 2;
      } else {
        ContinueOne(decoded, str[i], Decode(s[1..]));
        decoded := decoded + [str[i]];
      }
      i := i + 1;
    }
    assert decoded + [] == decoded;
    return Ok(decoded);
  }

  lemma ContinueNone(r: Outcome<string>)
    ensures Continue([], r) == r
  {
    if r.Ok? {
      assert [] + r.value == r.value;
    }
  }

  lemma ContinueOne(decoded: string, c: char, r: Outcome<string>)
    ensures Continue(decoded + [c], r) == Continue(decoded, Continue([c], r))
  {
    if r.Ok? {
      assert decoded + [c] + r.value == decoded + ([c] + r.value);
    }
  }

  // ----- Decoding after encoding -----

  /** Reading the two decimal digits of a code as hexadecimal ones. */
  function Misread(c: char): char {
    if Escaped(c) then EscapedCodes(c); (16 * (c as int / 10) + c as int % 10) as char else c
  }

  function MisreadAll(s: string): (r: string)
    ensures |r| == |s| && forall i :: 0 <= i < |s| ==> r[i] == Misread(s[i])
  {
    seq(|s|, i requires 0 <= i < |s| => Misread(s[i]))
  }

  lemma DecimalReadAsHex(n: nat)
    requires 10 <= n < 100
    ensures Stoi16(Decimal(n)) == Ok(16 * (n / 10) + n % 10)
  {
    var a, b := n / 10, n % 10;
    var t := Decimal(n);
    assert HexValue(Digit(a)) == Some(a) && HexValue(Digit(b)) == Some(b);
    assert t[1..] == [Digit(b)] && t[1..][1..] == [];
    assert LeadingHex([Digit(b)], a) == LeadingHex([], 16 * a + b) by {
      assert [Digit(b)][1..] == [];
    }
    assert LeadingHex(t, 0) == LeadingHex(t[1..], a);
  }

  lemma DecodePlain(c: char, s: string)
    requires c != '%'
    ensures Decode([c] + s) == Continue([c], Decode(s))
  {
    assert ([c] + s)[1..] == s;
  }

  lemma DecodeTriple(a: char, b: char, code: int, s: string)
    requires Stoi16([a, b]) == Ok(code)
    ensures Decode(['%', a, b] + s) == Continue([ToChar(code)], Decode(s))
  {
    hide Stoi16, ToChar;
    var v := ['%', a, b] + s;
    assert v[1..] == [a, b] + s && v[3..] == s;
    assert Two(v[1..]) == [a, b] && Rest(v, 3) == s;
  }

  lemma EscapedTriple(c: char)
    requires Escaped(c)
    ensures |EncodeChar(c)| == 3 && EncodeChar(c)[0] == '%'
    ensures Stoi16(EncodeChar(c)[1..]) == Ok(16 * (c as int / 10) + c as int % 10)
    ensures Misread(c) == ToChar(16 * (c as int / 10) + c as int % 10)
  {
    hide Escaped, Stoi16, Digit;
    EscapedCodes(c);
    var n := c as int;
    DecimalReadAsHex(n);
    assert EncodeChar(c)[1..] == Decimal(n);
    SmallCode(n);
  }

  lemma SmallCode(n: nat)
    requires n < 100
    ensures 0 <= 16 * (n / 10) + n % 10 < 256
    ensures ToChar(16 * (n / 10) + n % 10) == (16 * (n / 10) + n % 10) as char
  {
    assert n / 10 < 10;
  }

  lemma DecodeOne(c: char, s: string)
    ensures Decode(EncodeChar(c) + s) == Continue([Misread(c)], Decode(s))
  {
    hide Decode, Stoi16, Continue, ToChar;
    if Escaped(c) {
      EscapedTriple(c);
      hide EncodeChar, Misread;
      var e := EncodeChar(c);
      assert e == ['%', e[1], e[2]] && e[1..] == [e[1], e[2]];
      DecodeTriple(e[1], e[2], Stoi16(e[1..]).value, s);
    } else {
      DecodePlain(c, s);
    }
  }

  lemma MisreadCons(s: string)
    requires s != []
    ensures MisreadAll(s) == [Misread(s[0])] + MisreadAll(s[1..])
  {
    hide Misread;
  }

  lemma {:induction false} DecodeIsMisread(s: string)
    ensures Decode(Encode(s)) == Ok(MisreadAll(s))
  {
    if s == [] {
      assert Decode([]) == Ok([]);
    } else {
      DecodeIsMisread(s[1..]);
      MisreadCons(s);
      hide Decode, EncodeChar, Misread, MisreadAll;
      DecodeOne(s[0], Encode(s[1..]));
    }
  }

  lemma MisreadCode(c: char)
    ensures Misread(c) as int == if Reserved(c) then 16 * (c as int / 10) + c as int % 10 else c as int
    ensures Misread(c) != c <==> Reserved(c)
  {
    EscapedExactly(c);
    hide Escaped;
    if Reserved(c) {
      assert c as int == 10 * (c as int / 10) + c as int % 10;
    }
  }

  /** Decoding what was encoded never fails. It gives back every character but the 21 reserved ones,
      whose decimal digits are read as hexadecimal ones. */
  lemma DecodeAfterEncode(s: string)
    ensures Decode(Encode(s)).Ok? && |Decode(Encode(s)).value| == |s|
    ensures forall i :: 0 <= i < |s| ==>
      var n := s[i] as int;
      Decode(Encode(s)).value[i] as int == if Reserved(s[i]) then 16 * (n / 10) + n % 10 else n
  {
    hide Misread, Decode, Encode, Reserved;
    DecodeIsMisread(s);
    forall i | 0 <= i < |s|
      ensures Misread(s[i]) as int == if Reserved(s[i]) then 16 * (s[i] as int / 10) + s[i] as int % 10 else s[i] as int
    {
      MisreadCode(s[i]);
    }
  }

  /** The round trip returns the string if and only if it holds none of the reserved characters. */
  lemma RoundTripExactly(s: string)
    ensures Decode(Encode(s)) == Ok(s) <==> forall i :: 0 <= i < |s| ==> !Reserved(s[i])
  {
    hide Decode, Encode, Misread, Reserved;
    DecodeIsMisread(s);
    forall i | 0 <= i < |s| ensures Misread(s[i]) != s[i] <==> Reserved(s[i]) {
      MisreadCode(s[i]);
    }
    var r := MisreadAll(s);
    if forall i :: 0 <= i < |s| ==> !Reserved(s[i]) {
      assert forall i :: 0 <= i < |s| ==> r[i] == s[i];
      assert r == s;
    }
  }

  // ----- What an encoding looks like -----

  /** One character: a reserved one becomes a percent sign and its two decimal digits. */
  lemma EncodedCharacter(c: char)
    ensures EncodeChar(c) ==
            if Reserved(c) then ['%', '0' + (c as int / 10) as char, '0' + (c as int % 10) as char] else [c]
  {
    EscapedExactly(c);
    hide Escaped;
  }

  lemma {:induction false} EncodeConcat(s: string, t: string)
    ensures Encode(s + t) == Encode(s) + Encode(t)
  {
    hide EncodeChar;
    if s == [] {
      assert s + t == t;
    } else {
      assert (s + t)[1..] == s[1..] + t;
      EncodeConcat(s[1..], t);
    }
  }

  /** Every string is encoded character by character. */
  lemma EncodesPointwise(s: string, i: nat)
    requires i < |s|
    ensures Encode(s) == Encode(s[..i]) + (EncodeChar(s[i]) + Encode(s[i + 1..]))
  {
    hide EncodeChar, Encode;
    CutAt(s, i);
    EncodeConcat(s[..i], [s[i]] + s[i + 1..]);
    EncodeCons(s[i], s[i + 1..]);
  }

  lemma CutAt(s: string, i: nat)
    requires i < |s|
    ensures s[..i] + ([s[i]] + s[i + 1..]) == s
  {
  }

  lemma EncodeCons(c: char, rest: string)
    ensures Encode([c] + rest) == EncodeChar(c) + Encode(rest)
  {
    hide EncodeChar;
    assert ([c] + rest)[1..] == rest;
  }

  /** Of the reserved characters an encoding holds only the percent sign. */
  lemma {:induction false} EncodingAvoidsReserved(s: string)
    ensures forall i :: 0 <= i < |Encode(s)| ==> Encode(s)[i] == '%' || !Reserved(Encode(s)[i])
  {
    if s != [] {
      EncodingAvoidsReserved(s[1..]);
      EncodedCharacter(s[0]);
      hide EncodeChar;
      var e, rest := EncodeChar(s[0]), Encode(s[1..]);
      assert forall i :: 0 <= i < |e| ==> e[i] == '%' || !Reserved(e[i]);
      assert Encode(s) == e + rest;
    }
  }

  lemma {:induction false} EncodingGrows(s: string)
    ensures |Encode(s)| >= |s|
    ensures |Encode(s)| == |s| <==> forall i :: 0 <= i < |s| ==> !Reserved(s[i])
    ensures |Encode(s)| == |s| ==> Encode(s) == s
  {
    hide EncodeChar, Reserved;
    if s != [] {
      EncodingGrows(s[1..]);
      EncodedCharacter(s[0]);
      assert forall i :: 1 <= i < |s| ==> s[i] == s[1..][i - 1];
      assert s == [s[0]] + s[1..];
    }
  }

  /** A string is its own encoding if and only if it holds none of the reserved characters. */
  lemma EncodesToItselfExactly(s: string)
    ensures Encode(s) == s <==> forall i :: 0 <= i < |s| ==> !Reserved(s[i])
  {
    hide Encode;
    EncodingGrows(s);
  }

  // ----- The encoder loses nothing -----

  function DigitValue(c: char): int {
    c as int - '0' as int
  }

  /** What a decoder of decimal codes would compute. */
  function Undo(e: string): string
    decreases |e|
  {
    if e == [] then []
    else if e[0] == '%' && 3 <= |e| then [ToChar(10 * DigitValue(e[1]) + DigitValue(e[2]))] + Undo(e[3..])
    else [e[0]] + Undo(e[1..])
  }

  lemma DecimalDigits(n: nat)
    requires 10 <= n < 100
    ensures Decimal(n) == [Digit(n / 10), Digit(n % 10)]
    ensures ToChar(10 * DigitValue(Digit(n / 10)) + DigitValue(Digit(n % 10))) == n as char
  {
    assert DigitValue(Digit(n / 10)) == n / 10 && DigitValue(Digit(n % 10)) == n % 10;
    assert n % 256 == n;
  }

  lemma UndoTriple(a: char, b: char, e: string)
    ensures Undo(['%', a, b] + e) == [ToChar(10 * DigitValue(a) + DigitValue(b))] + Undo(e)
  {
    assert (['%', a, b] + e)[3..] == e;
  }

  lemma UndoPlain(c: char, e: string)
    requires c != '%'
    ensures Undo([c] + e) == [c] + Undo(e)
  {
    assert ([c] + e)[1..] == e;
  }

  lemma UndoOne(c: char, e: string)
    ensures Undo(EncodeChar(c) + e) == [c] + Undo(e)
  {
    hide Undo, ToChar, DigitValue;
    if Escaped(c) {
      EscapedCodes(c);
      DecimalDigits(c as int);
      var a, b := Digit(c as int / 10), Digit(c as int % 10);
      assert EncodeChar(c) == ['%', a, b];
      UndoTriple(a, b, e);
    } else {
      UndoPlain(c, e);
    }
  }

  lemma {:induction false} UndoEncode(s: string)
    ensures Undo(Encode(s)) == s
  {
    if s != [] {
      UndoOne(s[0], Encode(s[1..]));
      UndoEncode(s[1..]);
    }
  }

  lemma EncodeIsInjective(a: string, b: string)
    requires Encode(a) == Encode(b)
    ensures a == b
  {
    UndoEncode(a);
    UndoEncode(b);
  }

  // ----- The hexadecimal encoding of RFC 3986 -----

  /** A character written as itself, or an octet written as a percent sign and two hexadecimal
      digits of either case (section 2.1 of RFC 3986). */
  datatype Item = Literal(c: char) | Octet(hi: char, lo: char) {
    predicate Valid() {
      match this
      case Literal(c) => c != '%'
      case Octet(hi, lo) => HexValue(hi).Some? && HexValue(lo).Some?
    }

    function Text(): string {
      match this
      case Literal(c) => [c]
      case Octet(hi, lo) => ['%', hi, lo]
    }

    function Meaning(): char
      requires Valid()
    {
      match this
      case Literal(c) => c
      case Octet(hi, lo) => (16 * HexValue(hi).value + HexValue(lo).value) as char
    }
  }

  function Text(items: seq<Item>): string {
    if items == [] then [] else items[0].Text() + Text(items[1..])
  }

  function Meaning(items: seq<Item>): string
    requires forall i :: 0 <= i < |items| ==> items[i].Valid()
  {
    if items == [] then [] else [items[0].Meaning()] + Meaning(items[1..])
  }

  lemma HexPair(hi: char, lo: char)
    requires HexValue(hi).Some? && HexValue(lo).Some?
    ensures Stoi16([hi, lo]) == Ok(16 * HexValue(hi).value + HexValue(lo).value)
    ensures ToChar(16 * HexValue(hi).value + HexValue(lo).value) == Octet(hi, lo).Meaning()
  {
    var t := [hi, lo];
    assert t[1..] == [lo] && [lo][1..] == [];
    assert LeadingHex([lo], HexValue(hi).value) == LeadingHex([], 16 * HexValue(hi).value + HexValue(lo).value);
    assert LeadingHex(t, 0) == LeadingHex([lo], HexValue(hi).value);
  }

  /** The decoder reads every string so encoded, and reads it right. */
  lemma {:induction false} DecodeReadsHex(items: seq<Item>)
    requires forall i :: 0 <= i < |items| ==> items[i].Valid()
    ensures Decode(Text(items)) == Ok(Meaning(items))
  {
    if items == [] {
      assert Decode([]) == Ok([]);
    } else {
      hide Decode, Stoi16, HexValue, ToChar;
      DecodeReadsHex(items[1..]);
      match items[0]
      case Literal(c) =>
        DecodePlain(c, Text(items[1..]));
      case Octet(hi, lo) =>
        HexPair(hi, lo);
        DecodeTriple(hi, lo, 16 * HexValue(hi).value + HexValue(lo).value, Text(items[1..]));
    }
  }
}
