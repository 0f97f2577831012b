/** The base64 encoder of sdk/src/client.ts against a decoder written from section 4 of
    RFC 4648. Input characters are UTF-16 code units, the triplet a 32-bit word. The
    bit manipulation is proved for any 64-character alphabet with an inverse; the
    table of the source is then shown to be the one of the RFC. */
module Base64 {
  import opened SlaTypes

  type CodeUnit = bv16

  const PAD: char := '='

  /** A table: the character for the low six bits of a word, and back. */
  datatype Table = Table(charAt: bv32 -> char, value: char -> Option<bv32>)

  /** Reading a character back gives the six bits; the padding is no table character. */
  ghost predicate Inverse(table: Table)
  {
    && (forall x: bv32 :: table.value(table.charAt(x)) == Some(x & 0x3f))
    && table.value(PAD) == None
  }

  // ----------------------------------------------------------------- encoding

  /** `(a << 16) | (b << 8) | c` with absent characters as 0. */
  function Triplet(a: CodeUnit, b: CodeUnit, c: CodeUnit): bv32
  {
    ((a as bv32) << 16) | ((b as bv32) << 8) | (c as bv32)
  }

  function OrZero(x: Option<CodeUnit>): CodeUnit
  {
    if x.Some? then x.value else 0
  }

  /** The four characters of one group of up to three. */
  function Quad(table: Table, a: CodeUnit, b: Option<CodeUnit>, c: Option<CodeUnit>): (q: string)
    ensures |q| == 4
  {
    FourChars(table, Triplet(a, OrZero(b), OrZero(c)), b.Some?, c.Some?)
  }

  function FourChars(table: Table, t: bv32, hasB: bool, hasC: bool): (q: string)
    ensures |q| == 4
  {
    [table.charAt(t >> 18), table.charAt(t >> 12),
     if hasB then table.charAt(t >> 6) else PAD, if hasC then table.charAt(t) else PAD]
  }

  function Second(s: seq<CodeUnit>): Option<CodeUnit> { if |s| > 1 then Some(s[1]) else None }

  function Third(s: seq<CodeUnit>): Option<CodeUnit> { if |s| > 2 then Some(s[2]) else None }

  function Tail(s: seq<CodeUnit>): seq<CodeUnit> { if |s| > 3 then s[3..] else [] }

  function Encode(table: Table, s: seq<CodeUnit>): string
    decreases |s|
  {
    if |s| == 0 then "" else Quad(table, s[0], Second(s), Third(s)) + Encode(table, Tail(s))
  }

  // ----------------------------------------------------------------- decoding

  function FirstByte(x0: bv32, x1: bv32): bv32 { ((x0 << 2) | (x1 >> 4)) & 0xff }

  function SecondByte(x1: bv32, x2: bv32): bv32 { ((x1 << 4) | (x2 >> 2)) & 0xff }

  function ThirdByte(x2: bv32, x3: bv32): bv32 { ((x2 << 6) | x3) & 0xff }

  /** The characters a group stands for. */
  function Group(a: CodeUnit, b: Option<CodeUnit>, c: Option<CodeUnit>): seq<CodeUnit>
  {
    if b.None? then [a] else if c.None? then [a, b.value] else [a, b.value, c.value]
  }

  /** What a group of four characters with the given values stands for. */
  function Reassembled(x0: bv32, x1: bv32, x2: bv32, x3: bv32, hasB: bool, hasC: bool): seq<CodeUnit>
  {
    Group(FirstByte(x0, x1) as CodeUnit,
          if hasB then Some(SecondByte(x1, x2) as CodeUnit) else None,
          if hasC then Some(ThirdByte(x2, x3) as CodeUnit) else None)
  }

  /** One group of four characters. One or two padding characters may close it, and only
      when `last` holds. */
  function DecodeQuad(table: Table, q: string, last: bool): Option<seq<CodeUnit>>
    requires |q| == 4
  {
    var v0, v1, v2, v3 := table.value(q[0]), table.value(q[1]), table.value(q[2]), table.value(q[3]);
    var hasC := q[3] != PAD;
    var hasB := hasC || q[2] != PAD;
    if v0.None? || v1.None? || (hasB && v2.None?) || (hasC && v3.None?) || (!hasC && !last) then None
    else
      Some(Reassembled(v0.value, v1.value, if hasB then v2.value else 0, if hasC then v3.value else 0, hasB, hasC))
  }

  function Decode(table: Table, t: string): Option<seq<CodeUnit>>
  {
    if |t| == 0 then Some([])
    else if |t| < 4 then None
    else
      var head := DecodeQuad(table, t[..4], |t| == 4);
      var rest := Decode(table, t[4..]);
      if head.None? || rest.None? then None else Some(head.value + rest.value)
  }

  // ------------------------------------------------------------ the round trip

  ghost predicate AllBytes(s: seq<CodeUnit>)
  {
    forall i | 0 <= i < |s| :: s[i] < 256
  }

  /** Cutting three bytes into four sextets loses nothing. */
  lemma SextetsRestoreBytes(a: bv32, b: bv32, c: bv32)
    requires a < 256 && b < 256 && c < 256
    ensures var t := (a << 16) | (b << 8) | c;
            && FirstByte((t >> 18) & 0x3f, (t >> 12) & 0x3f) == a
            && SecondByte((t >> 12) & 0x3f, (t >> 6) & 0x3f) == b
            && ThirdByte((t >> 6) & 0x3f, t & 0x3f) == c
  {
  }

  lemma UnitRoundTrip(x: CodeUnit)
    requires x < 256
    ensures (x as bv32) < 256 && (x as bv32) as CodeUnit == x
  {
  }

  lemma DecodeKnown(table: Table, q: string, x0: bv32, x1: bv32, x2: bv32, x3: bv32, hasB: bool, hasC: bool, last: bool)
    requires table.value(PAD) == None && (hasC ==> hasB) && (!hasC ==> last)
    requires |q| == 4 && table.value(q[0]) == Some(x0) && table.value(q[1]) == Some(x1)
    requires if hasB then table.value(q[2]) == Some(x2) else q[2] == PAD
    requires if hasC then table.value(q[3]) == Some(x3) else q[3] == PAD
    ensures DecodeQuad(table, q, last) == Some(Reassembled(x0, x1, x2, x3, hasB, hasC))
  {
  }

  lemma CharReadsBack(table: Table, x: bv32)
    requires Inverse(table)
    ensures table.value(table.charAt(x)) == Some(x & 0x3f)
  {
  }

  /** Decoding four table characters reassembles the sextets of the word behind them. */
  lemma FourRoundTrip(table: Table, t: bv32, hasB: bool, hasC: bool, last: bool)
    requires Inverse(table) && (hasC ==> hasB) && (!hasC ==> last)
    ensures DecodeQuad(table, FourChars(table, t, hasB, hasC), last) ==
            Some(Reassembled((t >> 18) & 0x3f, (t >> 12) & 0x3f, (t >> 6) & 0x3f, t & 0x3f, hasB, hasC))
  {
    CharReadsBack(table, t >> 18);
    CharReadsBack(table, t >> 12);
    CharReadsBack(table, t >> 6);
    CharReadsBack(table, t);
    DecodeKnown(table, FourChars(table, t, hasB, hasC), (t >> 18) & 0x3f, (t >> 12) & 0x3f, (t >> 6) & 0x3f, t & 0x3f,
        hasB, hasC, last);
  }

  lemma SextetsRestoreGroup(a: CodeUnit, b: Option<CodeUnit>, c: Option<CodeUnit>)
    requires c.Some? ==> b.Some?
    requires a < 256 && OrZero(b) < 256 && OrZero(c) < 256
    ensures var t := Triplet(a, OrZero(b), OrZero(c));
            Reassembled((t >> 18) & 0x3f, (t >> 12) & 0x3f, (t >> 6) & 0x3f, t & 0x3f, b.Some?, c.Some?)
                == Group(a, b, c)
  {
    UnitRoundTrip(a);
    UnitRoundTrip(OrZero(b));
    UnitRoundTrip(OrZero(c));
    SextetsRestoreBytes(a as bv32, OrZero(b) as bv32, OrZero(c) as bv32);
  }

  lemma QuadRoundTrip(table: Table, a: CodeUnit, b: Option<CodeUnit>, c: Option<CodeUnit>, last: bool)
    requires Inverse(table) && (c.Some? ==> b.Some?) && (c.None? ==> last)
    requires a < 256 && OrZero(b) < 256 && OrZero(c) < 256
    ensures DecodeQuad(table, Quad(table, a, b, c), last) == Some(Group(a, b, c))
  {
    SextetsRestoreGroup(a, b, c);
    FourRoundTrip(table, Triplet(a, OrZero(b), OrZero(c)), b.Some?, c.Some?, last);
  }

  lemma {:induction false} DecodeJoin(table: Table, q: string, e: string, s: seq<CodeUnit>)
    requires |s| > 0 && |q| == 4 && (|e| == 0 <==> |Tail(s)| == 0)
    requires DecodeQuad(table, q, |e| == 0) == Some(Group(s[0], Second(s), Third(s)))
    requires Decode(table, e) == Some(Tail(s))
    ensures Decode(table, q + e) == Some(s)
  {
    var t := q + e;
    assert t[..4] == q && t[4..] == e;
    assert s == Group(s[0], Second(s), Third(s)) + Tail(s);
  }

  lemma {:induction false} DecodeEncode(table: Table, s: seq<CodeUnit>)
    requires Inverse(table) && AllBytes(s)
    ensures Decode(table, Encode(table, s)) == Some(s)
    decreases |s|
  {
    if |s| > 0 {
      var rest := Tail(s);
      DecodeEncode(table, rest);
      EncodedLength(table, rest);
      QuadRoundTrip(table, s[0], Second(s), Third(s), |rest| == 0);
      DecodeJoin(table, Quad(table, s[0], Second(s), Third(s)), Encode(table, rest), s);
    }
  }

  lemma BytesAreSmall(x: bv32, y: bv32)
    ensures (FirstByte(x, y) as CodeUnit) < 256
    ensures (SecondByte(x, y) as CodeUnit) < 256
    ensures (ThirdByte(x, y) as CodeUnit) < 256
  {
  }

  lemma ReassembledAreBytes(x0: bv32, x1: bv32, x2: bv32, x3: bv32, hasB: bool, hasC: bool)
    ensures AllBytes(Reassembled(x0, x1, x2, x3, hasB, hasC))
  {
    BytesAreSmall(x0, x1);
    BytesAreSmall(x1, x2);
    BytesAreSmall(x2, x3);
  }

  lemma QuadDecodesToBytes(table: Table, q: string, last: bool)
    requires |q| == 4
    ensures DecodeQuad(table, q, last).Some? ==> AllBytes(DecodeQuad(table, q, last).value)
  {
    forall x0, x1, x2, x3, hasB, hasC ensures AllBytes(Reassembled(x0, x1, x2, x3, hasB, hasC)) {
      ReassembledAreBytes(x0, x1, x2, x3, hasB, hasC);
    }
  }

  lemma {:induction false} DecodedAreBytes(table: Table, t: string)
    ensures Decode(table, t).Some? ==> AllBytes(Decode(table, t).value)
  {
    if |t| >= 4 {
      DecodedAreBytes(table, t[4..]);
      QuadDecodesToBytes(table, t[..4], |t| == 4);
    }
  }

  // ------------------------------------------------------- length and padding

  /** Four characters for every three started. */
  lemma {:induction false} EncodedLength(table: Table, s: seq<CodeUnit>)
    ensures |Encode(table, s)| == 4 * ((|s| + 2) / 3)
    decreases |s|
  {
    if |s| > 0 {
      EncodedLength(table, Tail(s));
    }
  }

  /** How many padding characters close the text. */
  function Padding(n: nat): nat { (3 - n % 3) % 3 }

  lemma QuadPadding(table: Table, a: CodeUnit, b: Option<CodeUnit>, c: Option<CodeUnit>)
    requires Inverse(table)
    ensures var q := Quad(table, a, b, c);
            q[0] != PAD && q[1] != PAD && (q[2] == PAD <==> b.None?) && (q[3] == PAD <==> c.None?)
  {
  }

  lemma PaddingPeriod(n: nat)
    requires n > 3
    ensures Padding(n - 3) == Padding(n) && (n + 2) / 3 == (n - 3 + 2) / 3 + 1
  {
  }

  lemma ShortPadding(n: nat)
    requires 1 <= n <= 3
    ensures Padding(n) == 3 - n && (n + 2) / 3 == 1
  {
  }

  lemma {:induction false} PaddingAt(table: Table, s: seq<CodeUnit>, j: nat)
    requires Inverse(table) && j < |Encode(table, s)|
    ensures Encode(table, s)[j] == PAD <==> j >= |Encode(table, s)| - Padding(|s|)
    decreases |s|
  {
    EncodedLength(table, s);
    EncodedLength(table, Tail(s));
    QuadPadding(table, s[0], Second(s), Third(s));
    if |s| > 3 {
      PaddingPeriod(|s|);
      if j >= 4 {
        PaddingAt(table, Tail(s), j - 4);
      }
    } else {
      ShortPadding(|s|);
    }
  }

  // ------------------------------------------------------- the RFC 4648 table

  /** Table 1 of RFC 4648: the character for a 6-bit value. */
  function Alphabet(k: nat): char
    requires k < 64
  {
    if k < 26 then ('A' as int + k) as char
    else if k < 52 then ('a' as int + k - 26) as char
    else if k < 62 then ('0' as int + k - 52) as char
    else if k == 62 then '+'
    else '/'
  }

  /** Its inverse; -1 for any other character. */
  function ValueOf(c: char): (v: int)
    ensures -1 <= v < 64
  {
    if 'A' <= c <= 'Z' then c as int - 'A' as int
    else if 'a' <= c <= 'z' then c as int - 'a' as int + 26
    else if '0' <= c <= '9' then c as int - '0' as int + 52
    else if c == '+' then 62
    else if c == '/' then 63
    else -1
  }

  lemma SixBits(x: bv32)
    ensures (x & 0x3f) < 64
  {
  }

  /** `x & 0x3f` as an index. */
  function Sextet(x: bv32): (k: nat)
    ensures k < 64
  {
    SixBits(x);
    ((x & 0x3f) as bv8) as int
  }

  function RfcChar(x: bv32): char
  {
    Alphabet(Sextet(x))
  }

  function RfcValue(c: char): Option<bv32>
  {
    if ValueOf(c) < 0 then None else Some((ValueOf(c) as bv8) as bv32)
  }

  const RFC4648: Table := Table(x => RfcChar(x), c => RfcValue(c))

  lemma ValueOfAlphabet(k: nat)
    requires k < 64
    ensures ValueOf(Alphabet(k)) == k
  {
  }

  lemma ByteIndex(y: bv8)
    ensures (y as int) as bv8 == y
  {
  }

  lemma Narrow(y: bv32)
    requires y < 64
    ensures (y as bv8) as bv32 == y
  {
  }

  lemma SextetBack(x: bv32)
    ensures (Sextet(x) as bv8) as bv32 == x & 0x3f
  {
    SixBits(x);
    ByteIndex((x & 0x3f) as bv8);
    Narrow(x & 0x3f);
  }

  lemma TableIsInverse()
    ensures Inverse(RFC4648)
  {
    forall x: bv32 ensures RFC4648.value(RFC4648.charAt(x)) == Some(x & 0x3f) {
      SextetBack(x);
      ValueOfAlphabet(Sextet(x));
    }
  }

  /** Decoding recovers the input exactly when every character code is below 256. */
  lemma {:induction false} RoundTripExactly(s: seq<CodeUnit>)
    ensures Decode(RFC4648, Encode(RFC4648, s)) == Some(s) <==> AllBytes(s)
  {
    TableIsInverse();
    if AllBytes(s) {
      DecodeEncode(RFC4648, s);
    } else {
      DecodedAreBytes(RFC4648, Encode(RFC4648, s));
    }
  }

  /** So on such inputs the encoder is injective. */
  lemma {:induction false} EncodeIsInjective(s: seq<CodeUnit>, t: seq<CodeUnit>)
    requires AllBytes(s) && AllBytes(t) && Encode(RFC4648, s) == Encode(RFC4648, t)
    ensures s == t
  {
    RoundTripExactly(s);
    RoundTripExactly(t);
  }

  /** Beyond them it is not: a code of 256 or more spills out of its byte. */
  lemma {:induction false} WideCharactersCollide()
    ensures Encode(RFC4648, [0x100]) == Encode(RFC4648, [0])
  {
    assert (Triplet(0x100, 0, 0) >> 18) & 0x3f == (Triplet(0, 0, 0) >> 18) & 0x3f;
    assert (Triplet(0x100, 0, 0) >> 12) & 0x3f == (Triplet(0, 0, 0) >> 12) & 0x3f;
    assert Quad(RFC4648, 0x100, None, None) == Quad(RFC4648, 0, None, None);
  }

  /** The text is four characters for every three started, and the padding character
      stands at the very end and nowhere else: none, one or two of them as the length
      is 0, 2 or 1 modulo 3. */
  lemma {:induction false} LengthAndPadding(s: seq<CodeUnit>)
    ensures |Encode(RFC4648, s)| == 4 * ((|s| + 2) / 3)
    ensures forall j: nat | j < |Encode(RFC4648, s)| ::
              Encode(RFC4648, s)[j] == PAD <==> j >= |Encode(RFC4648, s)| - Padding(|s|)
  {
    TableIsInverse();
    EncodedLength(RFC4648, s);
    forall j: nat | j < |Encode(RFC4648, s)|
      ensures Encode(RFC4648, s)[j] == PAD <==> j >= |Encode(RFC4648, s)| - Padding(|s|)
    {
      PaddingAt(RFC4648, s, j);
    }
  }

  // ---------------------------------------------------------------- the source

  /** The source's table, in pieces. */
  const BASE64_CHARS: string :=
    ("ABCDEFGHIJKLM" + "NOPQRSTUVWXYZ") + ("abcdefghijklm" + "nopqrstuvwxyz") + ("0123456789" + "+/")

  lemma LetterPieces(k: nat)
    requires k < 13
    ensures "ABCDEFGHIJKLM"[k] as int == 'A' as int + k
    ensures "NOPQRSTUVWXYZ"[k] as int == 'N' as int + k
    ensures "abcdefghijklm"[k] as int == 'a' as int + k
    ensures "nopqrstuvwxyz"[k] as int == 'n' as int + k
  {
  }

  lemma DigitPiece(k: nat)
    requires k < 10
    ensures "0123456789"[k] as int == '0' as int + k
  {
  }

  /** The source's table is Table 1 of RFC 4648. */
  lemma TableIsAlphabet(k: nat)
    requires k < 64
    ensures |BASE64_CHARS| == 64 && BASE64_CHARS[k] == Alphabet(k)
  {
    if k < 13 {
      LetterPieces(k);
    } else if k < 26 {
      LetterPieces(k - 13);
    } else if k < 39 {
      LetterPieces(k - 26);
    } else if k < 52 {
      LetterPieces(k - 39);
    } else if k < 62 {
      DigitPiece(k - 52);
    }
  }

  /** `BASE64_CHARS[x & 0x3f]`. */
  method TableLookup(x: bv32) returns (c: char)
    ensures c == RFC4648.charAt(x)
  {
    TableIsAlphabet(Sextet(x));
    c := BASE64_CHARS[Sextet(x)];
  }

  /** The four characters of one pass through the loop. */
  method LookupFour(triplet: bv32, hasB: bool, hasC: bool) returns (q: string)
    ensures q == FourChars(RFC4648, triplet, hasB, hasC)
  {
    var c0 := TableLookup(triplet >> 18);
    var c1 := TableLookup(triplet >> 12);
    var c2, c3 := PAD, PAD;
    if hasB {
      c2 := TableLookup(triplet >> 6);
    }
    if hasC {
      c3 := TableLookup(triplet);
    }
    q := [c0, c1, c2, c3];
  }

  lemma {:induction false} EncodeStep(before: string, rest: seq<CodeUnit>, q: string)
    requires |rest| > 0 && q == Quad(RFC4648, rest[0], Second(rest), Third(rest))
    ensures before + Encode(RFC4648, rest) == (before + q) + Encode(RFC4648, Tail(rest))
  {
  }

  /** `toBase64`: one pass with an index that advances by up to three. */
  method ToBase64(input: seq<CodeUnit>) returns (output: string)
    ensures output == Encode(RFC4648, input)
  {
    output := "";
    var i := 0;
    while i < |input|
      invariant 0 <= i <= |input|
      invariant output + Encode(RFC4648, input[i..]) == Encode(RFC4648, input)
      decreases |input| - i
    {
      ghost var rest := input[i..];
      var a := input[i];
      i := i + 1;
      var b: Option<CodeUnit>, c: Option<CodeUnit> := None, None;
      if i < |input| {
        b := Some(input[i]);
        i := i + 1;
      }
      if i < |input| {
        c := Some(input[i]);
        i := i + 1;
      }
      assert b == Second(rest) && c == Third(rest) && input[i..] == Tail(rest);
      var q := LookupFour(Triplet(a, OrZero(b), OrZero(c)), b.Some?, c.Some?);
      EncodeStep(output, rest, q);
      output := output + q;
    }
    assert input[i..] == [];
    assert output + "" == output;
  }
}
