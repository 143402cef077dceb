/** Exactly which strings the percent decoder reads, and as what. */
module PercentDecoding {
  import opened Wrappers
  import opened PercentCoding

  // ----- Numerals -----

  ghost predicate Hex(c: char, n: int) {
    0 <= n < 16 && (c == "0123456789abcdef"[n] || c == "0123456789ABCDEF"[n])
  }

  ghost predicate IsHex(c: char) {
    exists n :: Hex(c, n)
  }

  lemma HexExactly(c: char, n: int)
    ensures Hex(c, n) <==> HexValue(c).Some? && HexValue(c).value == n
  {
    LowerDigits();
    UpperDigits();
    if HexValue(c).Some? && HexValue(c).value == n {
      assert n < 10 ==> c == '0' + n as char;
    }
  }

  lemma LowerDigits()
    ensures forall n :: 0 <= n < 16 ==>
      "0123456789abcdef"[n] as int == if n < 10 then 48 + n else 87 + n
  {
  }

  lemma UpperDigits()
    ensures forall n :: 0 <= n < 16 ==>
      "0123456789ABCDEF"[n] as int == if n < 10 then 48 + n else 55 + n
  {
  }

  ghost predicate Space(c: char) {
    9 <= c as int <= 13 || c as int == 32
  }

  /** What stoi reads in one or two characters: a digit, two digits, a digit and something else, or a
      digit behind a space or a sign. */
  ghost predicate Numeral(t: string, code: int) {
    || (|t| == 1 && Hex(t[0], code))
    || (|t| == 2 && (Space(t[0]) || t[0] == '+') && Hex(t[1], code))
    || (|t| == 2 && t[0] == '-' && Hex(t[1], -code))
    || (|t| == 2 && Hex(t[0], code) && !IsHex(t[1]))
    || (|t| == 2 && exists a, b :: Hex(t[0], a) && Hex(t[1], b) && code == 16 * a + b)
  }

  ghost predicate IsNumeral(t: string) {
    exists code :: Numeral(t, code)
  }

  lemma DigitTable(c: char)
    ensures IsHex(c) <==> HexValue(c).Some?
    ensures forall n :: Hex(c, n) <==> HexValue(c).Some? && HexValue(c).value == n
    ensures HexValue(c).Some? ==> !Space(c) && c != '+' && c != '-'
  {
    forall n ensures Hex(c, n) <==> HexValue(c).Some? && HexValue(c).value == n {
      HexExactly(c, n);
    }
    if HexValue(c).Some? {
      assert Hex(c, HexValue(c).value);
    }
  }

  /** stoi of one character. */
  lemma StoiOne(c: char)
    ensures Stoi16([c]) == if HexValue(c).Some? then Ok(HexValue(c).value) else Fault
  {
    assert [c][1..] == [];
    assert HexValue(c).Some? ==> LeadingHex([c], 0) == LeadingHex([], HexValue(c).value);
  }

  lemma StoiTwo(a: char, b: char)
    ensures HexValue(a).Some? ==>
      Stoi16([a, b]) == Ok(if HexValue(b).Some? then 16 * HexValue(a).value + HexValue(b).value else HexValue(a).value)
    ensures Space(a) ==> Stoi16([a, b]) == Stoi16([b])
    ensures a == '+' ==> Stoi16([a, b]) == if HexValue(b).Some? then Ok(HexValue(b).value) else Fault
    ensures a == '-' ==> Stoi16([a, b]) == if HexValue(b).Some? then Ok(-(HexValue(b).value as int)) else Fault
    ensures HexValue(a).None? && !Space(a) && a != '+' && a != '-' ==> Stoi16([a, b]).Fault?
  {
    var t := [a, b];
    assert t[1..] == [b] && [b][1..] == [];
    LeadingOne(b);
    if HexValue(a).Some? {
      var x := HexValue(a).value;
      assert LeadingHex(t, 0) == LeadingHex([b], x);
      assert HexValue(b).Some? ==> LeadingHex([b], x) == LeadingHex([], 16 * x + HexValue(b).value);
    }
  }

  lemma LeadingOne(c: char)
    ensures LeadingHex([c], 0) == if HexValue(c).Some? then HexValue(c).value else 0
  {
    assert [c][1..] == [];
    assert HexValue(c).Some? ==> LeadingHex([c], 0) == LeadingHex([], HexValue(c).value);
  }

  /** For every text of at most two characters: what stoi makes of it. */
  lemma NumeralsExactly(t: string, code: int)
    requires |t| <= 2
    ensures Stoi16(t) == Ok(code) <==> Numeral(t, code)
    ensures !Stoi16(t).Err?
  {
    hide Stoi16, Hex, IsHex, HexValue, Space;
    if |t| == 0 {
      StoiNone();
      assert t == [];
    } else if |t| == 1 {
      assert t == [t[0]];
      DigitTable(t[0]);
      StoiOne(t[0]);
    } else {
      assert t == [t[0], t[1]];
      DigitTable(t[0]);
      DigitTable(t[1]);
      StoiOne(t[1]);
      StoiTwo(t[0], t[1]);
      DistinctStarts(t[0]);
      assert HexValue(t[0]).Some? ==> Hex(t[0], HexValue(t[0]).value);
      assert HexValue(t[1]).Some? ==> Hex(t[1], HexValue(t[1]).value);
      assert HexValue(t[1]).Some? ==> Hex(t[1], -(-(HexValue(t[1]).value as int)));
    }
  }

  lemma StoiNone()
    ensures Stoi16([]) == Fault
  {
  }

  lemma DistinctStarts(c: char)
    ensures Space(c) ==> c != '+' && c != '-'
  {
  }

  // ----- Decoding -----

  /** A character that stands for itself, or a percent sign with a numeral. */
  datatype Piece = Plain(c: char) | Coded(t: string, code: int)

  ghost predicate GoodPiece(p: Piece) {
    match p
    case Plain(c) => c != '%'
    case Coded(t, code) => Numeral(t, code)
  }

  /** Numerals have two characters, except that the one that ends the string may have one. */
  ghost predicate GoodPieces(ps: seq<Piece>, more: bool) {
    ps != [] ==>
      GoodPiece(ps[0]) && GoodPieces(ps[1..], more) && (ps[0].Coded? && (more || |ps| > 1) ==> |ps[0].t| == 2)
  }

  function PieceText(p: Piece): string {
    match p
    case Plain(c) => [c]
    case Coded(t, _) => "%" + t
  }

  function PiecesText(ps: seq<Piece>): string {
    if ps == [] then [] else PieceText(ps[0]) + PiecesText(ps[1..])
  }

  /** A code becomes a character modulo 256. */
  function PieceChar(p: Piece): char {
    match p
    case Plain(c) => c
    case Coded(_, code) => (code % 256) as char
  }

  function PiecesMean(ps: seq<Piece>): (r: string)
    ensures |r| == |ps| && forall i :: 0 <= i < |ps| ==> r[i] == PieceChar(ps[i])
  {
    seq(|ps|, i requires 0 <= i < |ps| => PieceChar(ps[i]))
  }

  /** `s` starts with a percent sign that no numeral follows. */
  ghost predicate BadEscape(s: string) {
    s != "" && s[0] == '%' && !IsNumeral(if |s| <= 3 then s[1..] else s[1..3])
  }

  lemma PieceIsRead(p: Piece, rest: string)
    requires GoodPiece(p) && (p.Coded? && rest != "" ==> |p.t| == 2)
    ensures Decode(PieceText(p) + rest) == Continue([PieceChar(p)], Decode(rest))
  {
    hide Stoi16, Numeral;
    var v := PieceText(p) + rest;
    match p
    case Plain(c) =>
      DecodePlain(c, rest);
    case Coded(t, code) =>
      NumeralSize(t, code);
      NumeralsExactly(t, code);
      assert v[1..] == t + rest && Two(v[1..]) == t;
      assert Rest(v, 3) == rest;
  }

  lemma NumeralSize(t: string, code: int)
    requires Numeral(t, code)
    ensures 1 <= |t| <= 2
  {
  }

  lemma {:induction false} PiecesAreRead(ps: seq<Piece>, rest: string)
    requires GoodPieces(ps, rest != "")
    ensures Decode(PiecesText(ps) + rest) == Continue(PiecesMean(ps), Decode(rest))
  {
    hide Decode, PieceText, GoodPiece, PieceChar;
    if ps == [] {
      assert PiecesText(ps) + rest == rest;
      ContinueNone(Decode(rest));
      assert PiecesMean(ps) == [];
    } else {
      PiecesAreRead(ps[1..], rest);
      var more := PiecesText(ps[1..]) + rest;
      assert PiecesText(ps) + rest == PieceText(ps[0]) + more;
      NothingLeft(ps[1..], rest);
      PieceIsRead(ps[0], more);
      ContinueMany(PieceChar(ps[0]), PiecesMean(ps[1..]), Decode(rest));
      assert PiecesMean(ps) == [PieceChar(ps[0])] + PiecesMean(ps[1..]);
    }
  }

  lemma NothingLeft(ps: seq<Piece>, rest: string)
    ensures PiecesText(ps) + rest != "" ==> ps != [] || rest != ""
  {
  }

  lemma ContinueMany(c: char, d: string, r: Outcome<string>)
    ensures Continue([c], Continue(d, r)) == Continue([c] + d, r)
  {
    if r.Ok? {
      assert [c] + (d + r.value) == [c] + d + r.value;
    }
  }

  lemma BadEscapeFaults(s: string)
    requires BadEscape(s)
    ensures Decode(s).Fault?
  {
    hide Stoi16, Numeral;
    var t := if |s| <= 3 then s[1..] else s[1..3];
    assert t == Two(s[1..]);
    NumeralsExactly(t, 0);
    forall code ensures Stoi16(t) != Ok(code) {
      NumeralsExactly(t, code);
      assert !Numeral(t, code);
    }
  }

  /** Every string is a number of pieces that are read, and then its end or a bad escape. */
  lemma {:induction false} WhereItStops(s: string) returns (ps: seq<Piece>, rest: string)
    ensures GoodPieces(ps, rest != "") && s == PiecesText(ps) + rest && (rest == "" || BadEscape(rest))
    decreases |s|
  {
    hide Numeral;
    if s == "" || BadEscape(s) {
      ps, rest := [], s;
    } else {
      var p, n := NextPiece(s);
      ps, rest := WhereItStops(s[n..]);
      assert s == s[..n] + s[n..];
      assert ([p] + ps)[1..] == ps;
      assert s == PieceText(p) + (PiecesText(ps) + rest);
      assert PiecesText([p] + ps) + rest == PieceText(p) + (PiecesText(ps) + rest);
      NothingLeft(ps, rest);
      TextOfNothing(ps);
      ps := [p] + ps;
    }
  }

  lemma TextOfNothing(ps: seq<Piece>)
    ensures PiecesText(ps) == "" <==> ps == []
  {
    if ps != [] {
      assert PieceText(ps[0]) != "";
    }
  }

  lemma NextPiece(s: string) returns (p: Piece, n: nat)
    requires s != "" && !BadEscape(s)
    ensures 0 < n <= |s| && GoodPiece(p) && PieceText(p) == s[..n] && (p.Coded? && n < |s| ==> |p.t| == 2)
  {
    hide Numeral;
    if s[0] == '%' {
      var t := if |s| <= 3 then s[1..] else s[1..3];
      var code :| Numeral(t, code);
      NumeralSize(t, code);
      p, n := Coded(t, code), 1 + |t|;
      assert "%" + t == s[..n];
    } else {
      p, n := Plain(s[0]), 1;
    }
  }

  ghost predicate Stops(s: string, ps: seq<Piece>, rest: string) {
    GoodPieces(ps, rest != "") && s == PiecesText(ps) + rest
  }

  /** For every string: it is decoded to `d` exactly when it is made of pieces that mean `d`. */
  lemma DecodedExactly(s: string, d: string)
    ensures Decode(s) == Ok(d) <==> exists ps :: Stops(s, ps, "") && PiecesMean(ps) == d
  {
    forall ps, rest | Stops(s, ps, rest) ensures Decode(s) == Continue(PiecesMean(ps), Decode(rest)) {
      PiecesAreRead(ps, rest);
    }
    assert Decode("") == Ok("");
    hide Decode, PiecesText, GoodPieces, PiecesMean, BadEscape;
    var ps, rest := WhereItStops(s);
    if rest == "" {
      assert Stops(s, ps, rest);
      assert PiecesMean(ps) + "" == PiecesMean(ps);
    } else {
      BadEscapeFaults(rest);
      assert Stops(s, ps, rest);
    }
    forall qs | Stops(s, qs, "") ensures Decode(s) == Ok(PiecesMean(qs)) {
      assert PiecesMean(qs) + "" == PiecesMean(qs);
    }
  }

  /** For every string: the decoder throws exactly when a percent sign that no numeral follows comes
      after pieces that are read. It never fails otherwise. */
  lemma DecodeFaultsExactly(s: string)
    ensures Decode(s).Fault? <==> exists ps, rest :: Stops(s, ps, rest) && BadEscape(rest)
    ensures !Decode(s).Err?
  {
    forall ps, rest | Stops(s, ps, rest) ensures Decode(s) == Continue(PiecesMean(ps), Decode(rest)) {
      PiecesAreRead(ps, rest);
    }
    assert Decode("") == Ok("");
    hide Decode, PiecesText, GoodPieces, PiecesMean, BadEscape;
    forall ps, rest | Stops(s, ps, rest) && BadEscape(rest) ensures Decode(s).Fault? {
      BadEscapeFaults(rest);
    }
    var ps, rest := WhereItStops(s);
    assert Stops(s, ps, rest);
    if rest != "" {
      BadEscapeFaults(rest);
    }
  }

  /** A percent sign at the end of an otherwise plain string, as in 100%. */
  lemma BareEndFaults(s: string)
    requires '%' !in s
    ensures Decode(s + "%").Fault?
    decreases |s|
  {
    hide Stoi16;
    if s == "" {
      assert s + "%" == "%";
      assert ("%")[1..] == [];
      StoiNone();
      assert Two([]) == [];
    } else {
      assert (s + "%")[0] == s[0] && (s + "%")[1..] == s[1..] + "%";
      BareEndFaults(s[1..]);
    }
  }
}
