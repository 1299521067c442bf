/**
 How a location crosses the database boundary (internal/models/place.go): Scan decodes an EWKB point,
 Value prints EWKT with six decimals. Scan works on the bit patterns of the coordinates, Value on reals.
 */
module LocationCodec {
  import opened Wrappers

  type byte = x: int | 0 <= x < 256

  datatype ByteOrder = LittleEndian | BigEndian

  /** What the driver hands to Scan. */
  datatype DriverValue = Nil | Bytes(bin: seq<byte>) | Text(text: string) | OtherType

  /** The 64-bit patterns of the two coordinates. */
  datatype Bits = Bits(latitude: nat, longitude: nat)

  // ----- integers in both byte orders -----

  function Pow256(n: nat): (p: nat) {
    if n == 0 then 1 else 256 * Pow256(n - 1)
  }

  function FromLittle(b: seq<byte>): (x: nat) {
    if b == [] then 0 else b[0] + 256 * FromLittle(b[1..])
  }

  function FromBig(b: seq<byte>): (x: nat) {
    if b == [] then 0 else 256 * FromBig(b[..|b| - 1]) + b[|b| - 1]
  }

  function FromBytes(order: ByteOrder, b: seq<byte>): (x: nat) {
    if order.LittleEndian? then FromLittle(b) else FromBig(b)
  }

  function ToBytes(order: ByteOrder, x: nat, n: nat): (b: seq<byte>)
    ensures |b| == n
  {
    if n == 0 then []
    else if order.LittleEndian? then [x % 256] + ToBytes(order, x / 256, n - 1)
    else ToBytes(order, x / 256, n - 1) + [x % 256]
  }

  /** An integer of n bytes is read back from its bytes, in either order. */
  lemma {:induction false} IntegerRoundTrip(order: ByteOrder, x: nat, n: nat)
    requires x < Pow256(n)
    ensures FromBytes(order, ToBytes(order, x, n)) == x
  {
    if n > 0 {
      IntegerRoundTrip(order, x / 256, n - 1);
      var b := ToBytes(order, x, n);
      if order.LittleEndian? {
        assert b[1..] == ToBytes(order, x / 256, n - 1);
      } else {
        assert b[..|b| - 1] == ToBytes(order, x / 256, n - 1);
      }
    }
  }

  // ----- hexadecimal text -----

  function HexValue(c: char): (v: Option<nat>)
    ensures v.Some? ==> v.value < 16
  {
    if '0' <= c <= '9' then Some(c as int - '0' as int)
    else if 'a' <= c <= 'f' then Some(c as int - 'a' as int + 10)
    else if 'A' <= c <= 'F' then Some(c as int - 'A' as int + 10)
    else None
  }

  /** Pairs of hexadecimal digits; anything else, or a digit left over, is an error. */
  function DecodeHex(s: string): (r: Result<seq<byte>, Error>)
    ensures r.Success? ==> 2 * |r.value| == |s|
  {
    if s == "" then Success([])
    else if |s| == 1 then Failure(InvalidHex)
    else
      match (HexValue(s[0]), HexValue(s[1]))
      case (Some(hi), Some(lo)) =>
        (match DecodeHex(s[2..])
         case Success(rest) => Success([16 * hi + lo] + rest)
         case Failure(e) => Failure(e))
      case _ => Failure(InvalidHex)
  }

  function HexDigit(d: nat, upper: bool): (c: char)
    requires d < 16
    ensures HexValue(c) == Some(d)
  {
    if d < 10 then (d + '0' as int) as char
    else if upper then (d - 10 + 'A' as int) as char
    else (d - 10 + 'a' as int) as char
  }

  function EncodeHex(upper: bool, b: seq<byte>): (s: string) {
    if b == [] then "" else [HexDigit(b[0] / 16, upper), HexDigit(b[0] % 16, upper)] + EncodeHex(upper, b[1..])
  }

  lemma {:induction false} HexRoundTrip(upper: bool, b: seq<byte>)
    ensures DecodeHex(EncodeHex(upper, b)) == Success(b)
  {
    if b != [] {
      HexRoundTrip(upper, b[1..]);
      var hi, lo, rest := HexDigit(b[0] / 16, upper), HexDigit(b[0] % 16, upper), EncodeHex(upper, b[1..]);
      assert ([hi, lo] + rest)[2..] == rest;
      assert 16 * (b[0] / 16) + b[0] % 16 == b[0];
      assert b == [b[0]] + b[1..];
    }
  }

  // ----- scanning a point -----

  function DecodePoint(bin: seq<byte>): (r: Result<Bits, Error>) {
    if |bin| < 21 then Failure(InvalidLength)
    else
      var order := if bin[0] == 1 then LittleEndian else BigEndian;
      var offset := |bin| - 16;
      Success(Bits(FromBytes(order, bin[offset + 8..]), FromBytes(order, bin[offset..offset + 8])))
  }

  function Lift(r: Result<Bits, Error>): (o: Result<Option<Bits>, Error>) {
    if r.Success? then Success(Some(r.value)) else Failure(r.error)
  }

  /** A NULL yields no location at all, so the receiver keeps the one it has. */
  function DecodeValue(value: DriverValue): (r: Result<Option<Bits>, Error>) {
    match value
    case Nil => Success(None)
    case OtherType => Failure(InvalidType)
    case Bytes(bin) => Lift(DecodePoint(bin))
    case Text(text) =>
      var hex := DecodeHex(text);
      if hex.Failure? then Failure(hex.error) else Lift(DecodePoint(hex.value))
  }

  /** A hexadecimal digit stands for its place among the sixteen, in either case. */
  lemma HexDigits(c: char, v: nat)
    ensures HexValue(c) == Some(v) <==> v < 16 && (c == "0123456789abcdef"[v] || c == "0123456789ABCDEF"[v])
  {
  }

  /** Byte i of decoded text is made of the digits 2i and 2i + 1. */
  lemma {:induction false} HexPairs(s: string, i: nat)
    requires DecodeHex(s).Success? && i < |DecodeHex(s).value|
    ensures exists hi: nat, lo: nat ::
              HexValue(s[2 * i]) == Some(hi) && HexValue(s[2 * i + 1]) == Some(lo) &&
              DecodeHex(s).value[i] == 16 * hi + lo
  {
    if i > 0 {
      HexPairs(s[2..], i - 1);
    }
  }

  function Eight(a: byte, b: byte, c: byte, d: byte, e: byte, f: byte, g: byte, h: byte): (x: nat) {
    a + 0x100 * b + 0x1_0000 * c + 0x100_0000 * d +
    0x1_0000_0000 * e + 0x100_0000_0000 * f + 0x1_0000_0000_0000 * g + 0x100_0000_0000_0000 * h
  }

  lemma FromLittleStep(b: seq<byte>, i: nat)
    requires i < |b|
    ensures FromLittle(b[i..]) == b[i] + 256 * FromLittle(b[i + 1..])
  {
    assert b[i..][1..] == b[i + 1..];
  }

  lemma FromBigStep(b: seq<byte>, i: nat)
    requires i < |b|
    ensures FromBig(b[..i + 1]) == 256 * FromBig(b[..i]) + b[i]
  {
    assert b[..i + 1][..i] == b[..i];
  }

  lemma EightLittle(b: seq<byte>)
    requires |b| == 8
    ensures FromLittle(b) == Eight(b[0], b[1], b[2], b[3], b[4], b[5], b[6], b[7])
  {
    assert b[0..] == b;
    FromLittleStep(b, 0);
    FromLittleStep(b, 1);
    FromLittleStep(b, 2);
    FromLittleStep(b, 3);
    FromLittleStep(b, 4);
    FromLittleStep(b, 5);
    FromLittleStep(b, 6);
    FromLittleStep(b, 7);
    assert b[8..] == [];
  }

  lemma EightBig(b: seq<byte>)
    requires |b| == 8
    ensures FromBig(b) == Eight(b[7], b[6], b[5], b[4], b[3], b[2], b[1], b[0])
  {
    assert b[..0] == [];
    FromBigStep(b, 0);
    FromBigStep(b, 1);
    FromBigStep(b, 2);
    FromBigStep(b, 3);
    FromBigStep(b, 4);
    FromBigStep(b, 5);
    FromBigStep(b, 6);
    FromBigStep(b, 7);
    assert b[..8] == b;
  }

  /**
   The last sixteen bytes of a point are longitude and latitude, eight bytes each; the first byte says
   with 1 that the least significant byte comes first, and otherwise that it comes last.
   */
  lemma DecodeSpelled(bin: seq<byte>)
    requires |bin| >= 21
    ensures DecodeValue(Bytes(bin)) == Success(Some(DecodePoint(bin).value))
    ensures var lon, lat := bin[|bin| - 16..|bin| - 8], bin[|bin| - 8..];
            DecodePoint(bin) == Success(
              if bin[0] == 1
              then Bits(latitude := Eight(lat[0], lat[1], lat[2], lat[3], lat[4], lat[5], lat[6], lat[7]),
                        longitude := Eight(lon[0], lon[1], lon[2], lon[3], lon[4], lon[5], lon[6], lon[7]))
              else Bits(latitude := Eight(lat[7], lat[6], lat[5], lat[4], lat[3], lat[2], lat[1], lat[0]),
                        longitude := Eight(lon[7], lon[6], lon[5], lon[4], lon[3], lon[2], lon[1], lon[0])))
  {
    var lon, lat := bin[|bin| - 16..|bin| - 8], bin[|bin| - 8..];
    if bin[0] == 1 {
      EightLittle(lon);
      EightLittle(lat);
    } else {
      EightBig(lon);
      EightBig(lat);
    }
  }

  class Location {
    var latitude: nat
    var longitude: nat

    constructor (latitude: nat, longitude: nat)
      ensures this.latitude == latitude && this.longitude == longitude
    {
      this.latitude, this.longitude := latitude, longitude;
    }

    /** The receiver changes only if a point was decoded. */
    method Scan(value: DriverValue) returns (r: Result<(), Error>)
      modifies this
      ensures r.Success? <==> DecodeValue(value).Success?
      ensures r.Failure? ==> r.error == DecodeValue(value).error
      ensures Bits(latitude, longitude) ==
              if r.Success? && DecodeValue(value).value.Some? then DecodeValue(value).value.value
              else old(Bits(latitude, longitude))
    {
      var bin: seq<byte>;
      match value {
        case Nil =>
          return Success(());
        case Bytes(v) =>
          bin := v;
        case Text(v) =>
          var decoded := DecodeHex(v);
          if decoded.Failure? {
            return Failure(decoded.error);
          }
          bin := decoded.value;
        case OtherType =>
          return Failure(InvalidType);
      }
      if |bin| < 21 {
        return Failure(InvalidLength);
      }
      var order := BigEndian;
      if bin[0] == 1 {
        order := LittleEndian;
      }
      var offset := |bin| - 16;
      assert bin[offset + 8..offset + 16] == bin[offset + 8..];
      latitude := FromBytes(order, bin[offset + 8..offset + 16]);
      longitude := FromBytes(order, bin[offset..offset + 8]);
      r := Success(());
    }
  }

  const WKB_POINT: nat := 1
  const EWKB_SRID_FLAG: nat := 0x2000_0000

  /** A two-dimensional point: byte order, type, the SRID if flagged, x (longitude) and y (latitude). */
  function EncodePoint(order: ByteOrder, srid: Option<nat>, longitude: nat, latitude: nat): (bin: seq<byte>)
    ensures |bin| == if srid.Some? then 25 else 21
  {
    [if order.LittleEndian? then 1 else 0] +
    ToBytes(order, if srid.Some? then WKB_POINT + EWKB_SRID_FLAG else WKB_POINT, 4) +
    (if srid.Some? then ToBytes(order, srid.value, 4) else []) +
    ToBytes(order, longitude, 8) +
    ToBytes(order, latitude, 8)
  }

  lemma PointRoundTrip(order: ByteOrder, srid: Option<nat>, longitude: nat, latitude: nat)
    requires longitude < Pow256(8) && latitude < Pow256(8)
    ensures DecodePoint(EncodePoint(order, srid, longitude, latitude)) == Success(Bits(latitude, longitude))
  {
    var bin := EncodePoint(order, srid, longitude, latitude);
    var offset := |bin| - 16;
    assert bin[offset..offset + 8] == ToBytes(order, longitude, 8);
    assert bin[offset + 8..] == ToBytes(order, latitude, 8);
    IntegerRoundTrip(order, longitude, 8);
    IntegerRoundTrip(order, latitude, 8);
  }

  /** Either byte order, with or without an SRID, raw or as hexadecimal text: both patterns come back. */
  lemma ScanInvertsEncoding(order: ByteOrder, srid: Option<nat>, longitude: nat, latitude: nat, upper: bool)
    requires longitude < Pow256(8) && latitude < Pow256(8)
    ensures var bin := EncodePoint(order, srid, longitude, latitude);
            && DecodeValue(Bytes(bin)) == Success(Some(Bits(latitude, longitude)))
            && DecodeValue(Text(EncodeHex(upper, bin))) == Success(Some(Bits(latitude, longitude)))
  {
    PointRoundTrip(order, srid, longitude, latitude);
    HexRoundTrip(upper, EncodePoint(order, srid, longitude, latitude));
  }

  lemma {:induction false} HexAccepted(s: string)
    ensures DecodeHex(s).Success? <==> |s| % 2 == 0 && forall c | c in s :: HexValue(c).Some?
  {
    if |s| == 1 {
    } else if s != "" {
      HexAccepted(s[2..]);
      assert s == [s[0], s[1]] + s[2..];
      assert s[0] in s && s[1] in s;
    }
  }

  /** The type word, the SRID and the length beyond 21 bytes are not looked at: these are the accepted inputs. */
  lemma {:induction false} AcceptedIff(value: DriverValue)
    ensures DecodeValue(value).Success? <==>
            match value
            case Nil => true
            case OtherType => false
            case Bytes(bin) => |bin| >= 21
            case Text(s) => |s| % 2 == 0 && |s| >= 42 && forall c | c in s :: HexValue(c).Some?
  {
    if value.Text? {
      HexAccepted(value.text);
    }
  }

  lemma {:induction false} HexErrors(s: string)
    ensures DecodeHex(s).Success? || DecodeHex(s).error == InvalidHex
  {
    if |s| > 1 {
      HexErrors(s[2..]);
    }
  }

  /** NULL decodes to nothing, text as its bytes do, and each rejected value has its own error. */
  lemma {:induction false} ValuesSpelled(value: DriverValue)
    ensures DecodeValue(Nil) == Success(None) && DecodeValue(OtherType) == Failure(InvalidType)
    ensures value.Bytes? && |value.bin| < 21 ==> DecodeValue(value) == Failure(InvalidLength)
    ensures value.Text? && (|value.text| % 2 == 1 || exists c :: c in value.text && HexValue(c).None?) ==>
              DecodeValue(value) == Failure(InvalidHex)
    ensures value.Text? && DecodeHex(value.text).Success? ==>
              DecodeValue(value) == DecodeValue(Bytes(DecodeHex(value.text).value))
  {
    if value.Text? {
      HexAccepted(value.text);
      HexErrors(value.text);
    }
  }

  // ----- printing with six decimals -----

  /** To the nearest integer, a tie to the even one. */
  function RoundHalfEven(y: real): (m: nat)
    requires y >= 0.0
    ensures -0.5 <= m as real - y <= 0.5
    ensures m as real - y == 0.5 || m as real - y == -0.5 ==> m % 2 == 0
    ensures y == y.Floor as real ==> m as real == y
  {
    var f := y.Floor;
    var rest := y - f as real;
    if rest < 0.5 || (rest == 0.5 && f % 2 == 0) then f else f + 1
  }

  function DigitChar(d: nat): (c: char)
    requires d < 10
    ensures '0' <= c <= '9'
  {
    (d + '0' as int) as char
  }

  function Decimal(n: nat): (s: string) {
    if n < 10 then [DigitChar(n)] else Decimal(n / 10) + [DigitChar(n % 10)]
  }

  /** Exactly k digits, leading zeros included. */
  function Padded(n: nat, k: nat): (s: string)
    ensures |s| == k
  {
    if k == 0 then "" else Padded(n / 10, k - 1) + [DigitChar(n % 10)]
  }

  function Millionths(x: real): (m: nat) {
    RoundHalfEven(if x < 0.0 then -x * 1000000.0 else x * 1000000.0)
  }

  function Signed(negative: bool, s: string): (r: string) {
    if negative then "-" + s else s
  }

  /** m millionths, with six decimals. */
  function PrintUnsigned(m: nat): (s: string) {
    Decimal(m / 1000000) + "." + Padded(m % 1000000, 6)
  }

  /** The verb %f; a negative number keeps its sign even when it rounds to zero. */
  function PrintNumber(x: real): (s: string) {
    Signed(x < 0.0, PrintUnsigned(Millionths(x)))
  }

  datatype Point = Point(latitude: real, longitude: real)

  const PREFIX := "SRID=4326;POINT("

  function Value(l: Point): (s: string) {
    PREFIX + PrintNumber(l.longitude) + " " + PrintNumber(l.latitude) + ")"
  }

  // ----- reading the text back -----

  predicate IsDigit(c: char) { '0' <= c <= '9' }

  predicate AllDigits(s: string) {
    forall i | 0 <= i < |s| :: IsDigit(s[i])
  }

  function DigitsValue(s: string): (n: nat)
    requires AllDigits(s)
  {
    if s == "" then 0 else 10 * DigitsValue(s[..|s| - 1]) + (s[|s| - 1] as int - '0' as int)
  }

  function Pow10(k: nat): (p: nat)
    ensures p > 0
  {
    if k == 0 then 1 else 10 * Pow10(k - 1)
  }

  /** The first position of c, or the length. */
  function IndexOf(s: string, c: char): (i: nat)
    ensures i <= |s|
  {
    if s == "" || s[0] == c then 0 else 1 + IndexOf(s[1..], c)
  }

  function PointValue(whole: string, frac: string): (r: real)
    requires AllDigits(whole) && AllDigits(frac)
  {
    DigitsValue(whole) as real + DigitsValue(frac) as real / Pow10(|frac|) as real
  }

  function ParseUnsigned(s: string): (r: Option<real>) {
    var dot := IndexOf(s, '.');
    if dot == 0 || dot + 1 >= |s| || !AllDigits(s[..dot]) || !AllDigits(s[dot + 1..]) then None
    else Some(PointValue(s[..dot], s[dot + 1..]))
  }

  function ParseNumber(s: string): (r: Option<real>) {
    if s != "" && s[0] == '-' then
      match ParseUnsigned(s[1..])
      case Some(x) => Some(-x)
      case None => None
    else ParseUnsigned(s)
  }

  /** Two numbers separated by a blank and followed by a closing parenthesis. */
  function ParsePair(body: string): (r: Option<Point>) {
    var blank := IndexOf(body, ' ');
    if blank + 1 >= |body| || body[|body| - 1] != ')' then None
    else
      match (ParseNumber(body[..blank]), ParseNumber(body[blank + 1..|body| - 1]))
      case (Some(x), Some(y)) => Some(Point(y, x))
      case _ => None
  }

  function ParsePoint(s: string): (r: Option<Point>) {
    if PREFIX <= s then ParsePair(s[|PREFIX|..]) else None
  }

  lemma {:induction false} IndexOfFirst(s: string, c: char, t: string)
    requires c !in s
    ensures IndexOf(s + [c] + t, c) == |s|
  {
    var whole := s + [c] + t;
    if s != "" {
      IndexOfFirst(s[1..], c, t);
      assert whole[1..] == s[1..] + [c] + t;
    }
  }

  lemma {:induction false} DecimalRoundTrip(n: nat)
    ensures Decimal(n) != "" && AllDigits(Decimal(n)) && DigitsValue(Decimal(n)) == n
  {
    var s := Decimal(n);
    if n < 10 {
      assert s[..0] == "";
    } else {
      DecimalRoundTrip(n / 10);
      assert s[..|s| - 1] == Decimal(n / 10);
    }
  }

  lemma {:induction false} PaddedRoundTrip(n: nat, k: nat)
    requires n < Pow10(k)
    ensures AllDigits(Padded(n, k)) && DigitsValue(Padded(n, k)) == n
  {
    if k > 0 {
      PaddedRoundTrip(n / 10, k - 1);
      var s := Padded(n, k);
      assert s[..|s| - 1] == Padded(n / 10, k - 1);
    }
  }

  /** m millionths. */
  function Fraction(m: nat): (r: real) {
    (m / 1000000) as real + (m % 1000000) as real / 1000000.0
  }

  /** The value a printed number stands for. */
  function Rounded(x: real): (r: real) {
    if x < 0.0 then -Fraction(Millionths(x)) else Fraction(Millionths(x))
  }

  predicate Unsigned(s: string, v: real) {
    ParseUnsigned(s) == Some(v) && s != "" && IsDigit(s[0]) && forall c | c in s :: IsDigit(c) || c == '.'
  }

  lemma PointCut(whole: string, frac: string)
    requires '.' !in whole
    ensures var s := whole + "." + frac;
            IndexOf(s, '.') == |whole| && s[..|whole|] == whole && s[|whole| + 1..] == frac
  {
    IndexOfFirst(whole, '.', frac);
  }

  /** Digits, a point and digits. */
  lemma PointNumber(whole: string, frac: string)
    requires whole != "" && frac != "" && AllDigits(whole) && AllDigits(frac)
    ensures Unsigned(whole + "." + frac, PointValue(whole, frac))
  {
    PointCut(whole, frac);
  }

  lemma PrintedUnsigned(m: nat)
    ensures Unsigned(PrintUnsigned(m), Fraction(m))
  {
    assert Pow10(6) == 1000000;
    DecimalRoundTrip(m / 1000000);
    PaddedRoundTrip(m % 1000000, 6);
    PointNumber(Decimal(m / 1000000), Padded(m % 1000000, 6));
  }

  /** A sign in front negates. */
  lemma SignedNumber(negative: bool, s: string, v: real)
    requires Unsigned(s, v)
    ensures ParseNumber(Signed(negative, s)) == Some(if negative then -v else v)
    ensures ' ' !in Signed(negative, s)
  {
    assert ("-" + s)[1..] == s;
  }

  /** Printing and parsing gives the rounded value: both signs, leading zeros and zero included. */
  lemma PrintedNumber(x: real)
    ensures ParseNumber(PrintNumber(x)) == Some(Rounded(x))
    ensures ' ' !in PrintNumber(x)
  {
    PrintedUnsigned(Millionths(x));
    SignedNumber(x < 0.0, PrintUnsigned(Millionths(x)), Fraction(Millionths(x)));
  }

  lemma Whole(m: nat)
    ensures Fraction(m) * 1000000.0 == m as real
  {
    assert m == m / 1000000 * 1000000 + m % 1000000;
  }

  lemma DigitsSnoc(s: string, d: nat)
    requires AllDigits(s) && d < 10
    ensures DigitsValue("") == 0 && DigitsValue(s + ["0123456789"[d]]) == 10 * DigitsValue(s) + d
  {
    assert (s + ["0123456789"[d]])[..|s|] == s;
  }

  /** m is the number of millionths nearest to the size of x, or the even one of two that are equally near. */
  predicate IsNearest(x: real, m: nat) {
    var off := m as real - 1000000.0 * (if x < 0.0 then -x else x);
    -0.5 <= off <= 0.5 && (off == 0.5 || off == -0.5 ==> m % 2 == 0)
  }

  lemma MillionthsNearest(x: real)
    ensures IsNearest(x, Millionths(x))
  {
  }

  /** A printed number: the sign, digits, a point and six digits, all together the nearest millionth. */
  predicate IsFixedPoint(x: real, s: string, whole: string, frac: string) {
    && s == (if x < 0.0 then "-" else "") + whole + "." + frac
    && whole != "" && |frac| == 6 && AllDigits(whole) && AllDigits(frac)
    && (|whole| > 1 ==> whole[0] != '0')
    && IsNearest(x, 1000000 * DigitsValue(whole) + DigitsValue(frac))
  }

  lemma {:induction false} DecimalLeads(n: nat)
    ensures Decimal(n) != "" && (Decimal(n)[0] == '0' <==> n == 0)
  {
    if n >= 10 {
      DecimalLeads(n / 10);
    }
  }

  lemma PartsSpelled(m: nat)
    ensures var whole, frac := Decimal(m / 1000000), Padded(m % 1000000, 6);
            && whole != "" && |frac| == 6 && AllDigits(whole) && AllDigits(frac)
            && (|whole| > 1 ==> whole[0] != '0')
            && 1000000 * DigitsValue(whole) + DigitsValue(frac) == m
  {
    assert Pow10(6) == 1000000;
    DecimalRoundTrip(m / 1000000);
    PaddedRoundTrip(m % 1000000, 6);
    DecimalLeads(m / 1000000);
  }

  lemma NumberSpelled(x: real) returns (whole: string, frac: string)
    ensures IsFixedPoint(x, PrintNumber(x), whole, frac)
  {
    var m := Millionths(x);
    whole, frac := Decimal(m / 1000000), Padded(m % 1000000, 6);
    PartsSpelled(m);
    MillionthsNearest(x);
  }

  /** The text of a location: SRID 4326, then longitude and latitude. */
  lemma ValueSpelled(l: Point)
    ensures exists x, y, xw, xf, yw, yf ::
              && Value(l) == "SRID=4326;POINT(" + x + " " + y + ")"
              && IsFixedPoint(l.longitude, x, xw, xf) && IsFixedPoint(l.latitude, y, yw, yf)
  {
    var xw, xf := NumberSpelled(l.longitude);
    var yw, yf := NumberSpelled(l.latitude);
    assert Value(l) == "SRID=4326;POINT(" + PrintNumber(l.longitude) + " " + PrintNumber(l.latitude) + ")";
  }

  /** The rounded value is at most half a millionth away, and is not rounded again. */
  lemma RoundedIsClose(x: real)
    ensures -0.0000005 <= Rounded(x) - x <= 0.0000005
    ensures Rounded(Rounded(x)) == Rounded(x)
  {
    var m := Millionths(x);
    Whole(m);
    var v := Rounded(x);
    assert (if v < 0.0 then -v * 1000000.0 else v * 1000000.0) == m as real;
    assert (m as real).Floor as real == m as real;
    assert Millionths(v) == m;
  }

  function RoundedPoint(l: Point): (r: Point) {
    Point(Rounded(l.latitude), Rounded(l.longitude))
  }

  lemma PairCut(x: string, y: string)
    requires ' ' !in x
    ensures var body := x + " " + (y + ")");
            IndexOf(body, ' ') == |x| && body[..|x|] == x && body[|x| + 1..|body| - 1] == y
  {
    var body := x + " " + (y + ")");
    IndexOfFirst(x, ' ', y + ")");
    assert x + [' '] + (y + ")") == body;
  }

  lemma NumberIsNonempty(y: string)
    requires ParseNumber(y).Some?
    ensures y != ""
  {
  }

  lemma PairParses(x: string, y: string, longitude: real, latitude: real)
    requires ' ' !in x && ParseNumber(x) == Some(longitude) && ParseNumber(y) == Some(latitude)
    ensures ParsePair(x + " " + (y + ")")) == Some(Point(latitude, longitude))
  {
    PairCut(x, y);
    NumberIsNonempty(y);
  }

  lemma PrintedPoint(l: Point)
    ensures ParsePoint(Value(l)) == Some(RoundedPoint(l))
  {
    var body := PrintNumber(l.longitude) + " " + (PrintNumber(l.latitude) + ")");
    assert Value(l) == PREFIX + body;
    assert Value(l)[|PREFIX|..] == body;
    PrintedNumber(l.longitude);
    PrintedNumber(l.latitude);
    PairParses(PrintNumber(l.longitude), PrintNumber(l.latitude), Rounded(l.longitude), Rounded(l.latitude));
  }

  /**
   A printed location is read back with each coordinate in its field and moved by at most 5e-7;
   printing and reading once more changes nothing.
   */
  lemma PrintRoundTrip(l: Point) returns (once: Point)
    ensures ParsePoint(Value(l)) == Some(once)
    ensures -0.0000005 <= once.latitude - l.latitude <= 0.0000005
    ensures -0.0000005 <= once.longitude - l.longitude <= 0.0000005
    ensures ParsePoint(Value(once)) == Some(once)
  {
    once := RoundedPoint(l);
    PrintedPoint(l);
    PrintedPoint(once);
    RoundedIsClose(l.latitude);
    RoundedIsClose(l.longitude);
  }
}
