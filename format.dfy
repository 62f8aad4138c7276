/** The text that bin2c writes: a C array initialiser with one `0xHH,`
    literal per input byte and a line break after every tenth literal.
    Everything here is a pure function of the bytes; the emitting loop in
    module Bin2C is proved to produce exactly `Render`. */
module CArrayFormat {

  datatype Option<T> = None | Some(value: T)

  /** The `unsigned char` that `fread` delivers. */
  newtype Byte = x: int | 0 <= x < 256

  /** The opening token, `char a[] = {` and a newline. */
  const Opening: string := "char a[] = {\n"

  /** The closing token, `};` and a newline. */
  const Closing: string := "};\n"

  /** Number of literals written on one line. */
  const PerLine: nat := 10

  // ---------------------------------------------------------------------
  // Hexadecimal digits (the `%.2X` conversion, restricted to one byte)
  // ---------------------------------------------------------------------

  /** The value of an upper-case hexadecimal digit; anything else is None. */
  function HexValue(c: char): (r: Option<nat>)
    ensures r.Some? <==> ('0' <= c <= '9' || 'A' <= c <= 'F')
    ensures r.Some? ==> r.value < 16
  {
    if '0' <= c <= '9' then Some(c as int - '0' as int)
    else if 'A' <= c <= 'F' then Some(c as int - 'A' as int + 10)
    else None
  }

  /** The upper-case hexadecimal digit of a value below 16. */
  function HexDigit(d: nat): (c: char)
    requires d < 16
    ensures HexValue(c) == Some(d)
    ensures d < 10 <==> '0' <= c <= '9'
    ensures 10 <= d <==> 'A' <= c <= 'F'
  {
    if d < 10 then ('0' as int + d) as char else ('A' as int + d - 10) as char
  }

  /** A digit is the only character that decodes to its value. */
  lemma HexDigitUnique(c: char, d: nat)
    requires d < 16
    ensures HexValue(c) == Some(d) <==> c == HexDigit(d)
  {
  }

  // ---------------------------------------------------------------------
  // One literal
  // ---------------------------------------------------------------------

  /** The five characters written for one byte: `0x`, the high and the low
      nibble as upper-case hexadecimal digits, and a comma. */
  function Literal(b: Byte): (s: string)
    ensures |s| == 5
    ensures s[0] == '0' && s[1] == 'x' && s[4] == ','
    ensures HexValue(s[2]) == Some(b as int / 16)
    ensures HexValue(s[3]) == Some(b as int % 16)
    ensures '\n' !in s
  {
    ['0', 'x', HexDigit(b as int / 16), HexDigit(b as int % 16), ',']
  }

  // ---------------------------------------------------------------------
  // The literals between the two tokens, and the whole output
  // ---------------------------------------------------------------------

  /** The text between the tokens: the literals in input order, each
      followed by a newline when its 1-based position is a multiple of ten.
      Defined by its last byte, the way the loop produces it. */
  function Body(bs: seq<Byte>): (r: string)
    ensures |r| == 5 * |bs| + |bs| / PerLine
    decreases |bs|
  {
    if bs == [] then []
    else
      var n := |bs|;
      Body(bs[..n - 1]) + Literal(bs[n - 1]) + (if n % PerLine == 0 then "\n" else "")
  }

  /** How many times c occurs in s. */
  function Occurrences(c: char, s: string): nat
    decreases |s|
  {
    if s == [] then 0 else (if s[0] == c then 1 else 0) + Occurrences(c, s[1..])
  }

  /** Counting distributes over concatenation. */
  lemma {:induction false} OccurrencesAppend(c: char, s: string, t: string)
    ensures Occurrences(c, s + t) == Occurrences(c, s) + Occurrences(c, t)
    decreases |s|
  {
    if s == [] {
      assert s + t == t;
    } else {
      assert (s + t)[1..] == s[1..] + t;
      OccurrencesAppend(c, s[1..], t);
    }
  }

  /** A character that does not occur is counted zero times. */
  lemma {:induction false} OccurrencesAbsent(c: char, s: string)
    requires c !in s
    ensures Occurrences(c, s) == 0
    decreases |s|
  {
    if s != [] {
      assert c !in s[1..];
      OccurrencesAbsent(c, s[1..]);
    }
  }

  /** Between the tokens there are exactly floor(N / 10) newlines. */
  lemma {:induction false} NewlineCount(bs: seq<Byte>)
    ensures Occurrences('\n', Body(bs)) == |bs| / PerLine
    decreases |bs|
  {
    if bs != [] {
      var n := |bs|;
      var init, lit := bs[..n - 1], Literal(bs[n - 1]);
      var nl: string := if n % PerLine == 0 then "\n" else "";
      NewlineCount(init);
      OccurrencesAppend('\n', Body(init), lit);
      OccurrencesAppend('\n', Body(init) + lit, nl);
      OccurrencesAbsent('\n', lit);
      assert Occurrences('\n', nl) == if n % PerLine == 0 then 1 else 0;
      assert (n - 1) / PerLine + (if n % PerLine == 0 then 1 else 0) == n / PerLine;
    }
  }

  /** The whole output for the bytes that were read. */
  function Render(bs: seq<Byte>): (r: string)
    ensures |r| == |Opening| + 5 * |bs| + |bs| / PerLine + |Closing|
    ensures |r| == 16 + 5 * |bs| + |bs| / 10
    ensures r[..|Opening|] == Opening && r[|r| - |Closing|..] == Closing
    ensures r[|Opening|..|r| - |Closing|] == Body(bs)
  {
    Opening + Body(bs) + Closing
  }

  /** Empty input gives only the two tokens. */
  lemma RenderEmpty()
    ensures Render([]) == "char a[] = {\n};\n"
  {
  }

  // ---------------------------------------------------------------------
  // Layout: where each literal and each newline sits
  // ---------------------------------------------------------------------

  /** Offset in `Body` at which the literal of byte k (0-based) starts:
      five characters per earlier literal plus one per earlier newline. */
  function Offset(k: nat): nat
  {
    5 * k + k / PerLine
  }

  /** Rendering a prefix gives a prefix: the output grows by appending. */
  lemma {:induction false} BodyPrefix(bs: seq<Byte>, j: nat)
    requires j <= |bs|
    ensures Body(bs[..j]) <= Body(bs)
    decreases |bs|
  {
    if j < |bs| {
      var n := |bs|;
      assert bs[..n - 1][..j] == bs[..j];
      BodyPrefix(bs[..n - 1], j);
    } else {
      assert bs[..j] == bs;
    }
  }

  /** The literal of byte k occupies the five characters from Offset(k). */
  lemma {:induction false} LiteralAt(bs: seq<Byte>, k: nat)
    requires k < |bs|
    ensures Offset(k) + 5 <= |Body(bs)|
    ensures Body(bs)[Offset(k)..Offset(k) + 5] == Literal(bs[k])
    decreases |bs|
  {
    var n := |bs|;
    var init := bs[..n - 1];
    var b := Body(init);
    assert Body(bs) == b + Literal(bs[n - 1]) + (if n % PerLine == 0 then "\n" else "");
    if k < n - 1 {
      LiteralAt(init, k);
      assert k / PerLine <= (n - 1) / PerLine;
      assert Offset(k) + 5 <= |b|;
      assert Body(bs)[Offset(k)..Offset(k) + 5] == b[Offset(k)..Offset(k) + 5];
    } else {
      assert Offset(k) == |b|;
    }
  }

  /** A newline follows the literal of byte k (0-based) exactly when its
      1-based position k + 1 is a multiple of ten; in particular none
      follows the last literal unless the length is a multiple of ten. */
  lemma NewlineAfter(bs: seq<Byte>, k: nat)
    requires k < |bs|
    ensures (k + 1) % PerLine == 0 <==>
            Offset(k) + 5 < |Body(bs)| && Body(bs)[Offset(k) + 5] == '\n'
  {
    var p := Offset(k) + 5;
    var pre := Body(bs[..k + 1]);
    BodyPrefix(bs, k + 1);
    assert bs[..k + 1][..k] == bs[..k];
    assert pre == Body(bs[..k]) + Literal(bs[k]) + (if (k + 1) % PerLine == 0 then "\n" else "");
    assert |Body(bs[..k])| == Offset(k);
    if (k + 1) % PerLine == 0 {
      assert pre[p] == '\n';
      assert Body(bs)[p] == pre[p];
    } else if k + 1 < |bs| {
      assert Offset(k + 1) == p;
      LiteralAt(bs, k + 1);
      assert Body(bs)[p] == Body(bs)[Offset(k + 1)..Offset(k + 1) + 5][0] == '0';
    } else {
      assert p == |Body(bs)|;
    }
  }

  // ---------------------------------------------------------------------
  // Reading the output back
  // ---------------------------------------------------------------------

  /** Reads one five-character literal `0xHH,` back; None for anything
      else (lower-case digits included, which `%.2X` never writes). */
  function LiteralValue(w: string): (r: Option<Byte>)
    ensures r.Some? ==> Literal(r.value) == w
  {
    if |w| == 5 && w[0] == '0' && w[1] == 'x' && w[4] == ','
       && HexValue(w[2]).Some? && HexValue(w[3]).Some?
    then
      var hi, lo := HexValue(w[2]).value, HexValue(w[3]).value;
      var b := (hi * 16 + lo) as Byte;
      assert b as int / 16 == hi && b as int % 16 == lo;
      HexDigitUnique(w[2], hi);
      HexDigitUnique(w[3], lo);
      assert forall i | 0 <= i < 5 :: Literal(b)[i] == w[i];
      Some(b)
    else None
  }

  /** `LiteralValue` inverts `Literal`: the two hex digits carry the whole
      byte, high nibble first. */
  lemma LiteralRoundTrip(b: Byte)
    ensures LiteralValue(Literal(b)) == Some(b)
  {
    var w := Literal(b);
    var v := b as int;
    assert HexValue(w[2]).value * 16 + HexValue(w[3]).value == v;
  }

  /** Reads a run of `0xHH,` literals, skipping newlines; None when the
      text holds anything else. */
  function ParseBody(t: string): (r: Option<seq<Byte>>)
    decreases |t|
  {
    if t == [] then Some([])
    else if t[0] == '\n' then ParseBody(t[1..])
    else if |t| >= 5 && LiteralValue(t[..5]).Some? then
      match ParseBody(t[5..])
      case None => None
      case Some(rest) => Some([LiteralValue(t[..5]).value] + rest)
    else None
  }

  /** Reads a whole output back: the opening token, literals and newlines,
      the closing token. */
  function Parse(s: string): (r: Option<seq<Byte>>)
    ensures r.Some? ==> |Opening| + |Closing| <= |s|
    ensures r.Some? ==> s[..|Opening|] == Opening && s[|s| - |Closing|..] == Closing
  {
    if |s| >= |Opening| + |Closing| && s[..|Opening|] == Opening
       && s[|s| - |Closing|..] == Closing
    then ParseBody(s[|Opening|..|s| - |Closing|])
    else None
  }

  /** Reading is compositional over a text that reads completely. */
  lemma {:induction false} ParseAppend(s: string, t: string)
    requires ParseBody(s).Some?
    ensures ParseBody(s + t) ==
            if ParseBody(t).Some? then Some(ParseBody(s).value + ParseBody(t).value) else None
    decreases |s|
  {
    var st := s + t;
    if s == [] {
      assert st == t;
      if ParseBody(t).Some? { assert [] + ParseBody(t).value == ParseBody(t).value; }
    } else if s[0] == '\n' {
      assert st[0] == '\n' && st[1..] == s[1..] + t;
      ParseAppend(s[1..], t);
    } else {
      assert st[0] == s[0] && st[..5] == s[..5] && st[5..] == s[5..] + t;
      ParseAppend(s[5..], t);
      if ParseBody(t).Some? {
        var b := LiteralValue(s[..5]).value;
        var u, v := ParseBody(s[5..]).value, ParseBody(t).value;
        assert ParseBody(s).value == [b] + u;
        assert ParseBody(st).value == [b] + (u + v);
        assert [b] + (u + v) == ([b] + u) + v;
      }
    }
  }

  /** A literal reads back as its byte. */
  lemma ParseLiteral(b: Byte)
    ensures ParseBody(Literal(b)) == Some([b])
  {
    var s := Literal(b);
    LiteralRoundTrip(b);
    assert s[..5] == s && s[5..] == [];
    assert [b] + [] == [b];
  }

  /** Round trip of the text between the tokens. */
  lemma {:induction false} ParseBodyOfBody(bs: seq<Byte>)
    ensures ParseBody(Body(bs)) == Some(bs)
    decreases |bs|
  {
    if bs != [] {
      var n := |bs|;
      var init := bs[..n - 1];
      var nl: string := if n % PerLine == 0 then "\n" else "";
      ParseBodyOfBody(init);
      ParseLiteral(bs[n - 1]);
      assert ParseBody(nl) == Some([]) by {
        if nl != [] { assert nl[1..] == []; }
      }
      ParseAppend(Literal(bs[n - 1]), nl);
      ParseAppend(Body(init), Literal(bs[n - 1]) + nl);
      assert Body(bs) == Body(init) + (Literal(bs[n - 1]) + nl);
      assert init + [bs[n - 1]] == bs;
    }
  }

  /** Round trip: parsing the output recovers the input bytes, in order. */
  lemma ParseRender(bs: seq<Byte>)
    ensures Parse(Render(bs)) == Some(bs)
  {
    ParseBodyOfBody(bs);
  }

  /** Different inputs give different outputs. */
  lemma RenderInjective(a: seq<Byte>, b: seq<Byte>)
    ensures Render(a) == Render(b) <==> a == b
  {
    ParseRender(a);
    ParseRender(b);
  }

  /** The twelve bytes 0x00 .. 0x0B used as a worked example. */
  const Twelve: seq<Byte> := [0x00, 0x01, 0x02, 0x03, 0x04, 0x05, 0x06, 0x07, 0x08, 0x09, 0x0A, 0x0B]

  // The example is computed four literals at a time.

  lemma TwelvePrefix4()
    ensures Body(Twelve[..4]) == "0x00,0x01,0x02,0x03,"
  {
    assert Literal(Twelve[0]) == "0x00,";
    assert Twelve[..1][..0] == Twelve[..0];
    assert Body(Twelve[..1]) == "0x00,";
    assert Literal(Twelve[1]) == "0x01,";
    assert Twelve[..2][..1] == Twelve[..1];
    assert Body(Twelve[..2]) == "0x00,0x01,";
    assert Literal(Twelve[2]) == "0x02,";
    assert Twelve[..3][..2] == Twelve[..2];
    assert Body(Twelve[..3]) == "0x00,0x01,0x02,";
    assert Literal(Twelve[3]) == "0x03,";
    assert Twelve[..4][..3] == Twelve[..3];
  }

  lemma TwelvePrefix8()
    ensures Body(Twelve[..8]) == "0x00,0x01,0x02,0x03,0x04,0x05,0x06,0x07,"
  {
    TwelvePrefix4();
    assert Literal(Twelve[4]) == "0x04,";
    assert Twelve[..5][..4] == Twelve[..4];
    assert Body(Twelve[..5]) == "0x00,0x01,0x02,0x03,0x04,";
    assert Literal(Twelve[5]) == "0x05,";
    assert Twelve[..6][..5] == Twelve[..5];
    assert Body(Twelve[..6]) == "0x00,0x01,0x02,0x03,0x04,0x05,";
    assert Literal(Twelve[6]) == "0x06,";
    assert Twelve[..7][..6] == Twelve[..6];
    assert Body(Twelve[..7]) == "0x00,0x01,0x02,0x03,0x04,0x05,0x06,";
    assert Literal(Twelve[7]) == "0x07,";
    assert Twelve[..8][..7] == Twelve[..7];
  }

  lemma TwelvePrefix10()
    ensures Body(Twelve[..10]) == "0x00,0x01,0x02,0x03,0x04,0x05,0x06,0x07,0x08,0x09,\n"
  {
    TwelvePrefix8();
    assert Literal(Twelve[8]) == "0x08,";
    assert Twelve[..9][..8] == Twelve[..8];
    assert Body(Twelve[..9]) == "0x00,0x01,0x02,0x03,0x04,0x05,0x06,0x07,0x08,";
    assert Literal(Twelve[9]) == "0x09,";
    assert Twelve[..10][..9] == Twelve[..9];
  }

  lemma TwelvePrefix12()
    ensures Body(Twelve[..12]) == "0x00,0x01,0x02,0x03,0x04,0x05,0x06,0x07,0x08,0x09,\n" + "0x0A,0x0B,"
  {
    TwelvePrefix10();
    assert Literal(Twelve[10]) == "0x0A,";
    assert Twelve[..11][..10] == Twelve[..10];
    assert Literal(Twelve[11]) == "0x0B,";
    assert Twelve[..12][..11] == Twelve[..11];
  }

  /** The twelve bytes 0x00 .. 0x0B: a full line of ten, then two literals
      with no newline before the closing token. */
  lemma RenderTwelve()
    ensures Render(Twelve) == "char a[] = {\n"
                            + "0x00,0x01,0x02,0x03,0x04,0x05,0x06,0x07,0x08,0x09,\n"
                            + "0x0A,0x0B,"
                            + "};\n"
  {
    TwelvePrefix12();
    assert Twelve[..12] == Twelve;
  }
}
