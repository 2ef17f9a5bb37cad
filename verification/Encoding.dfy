/** Characters and their encoded form.

    The chunk counts characters but stores bytes.  A character is a nonempty byte string whose
    length is announced by its first byte, which covers UTF-8 (section 3 of RFC 3629) and every
    encoding of fixed width. */
module Encodings {

  newtype Byte = x: int | 0 <= x < 256

  /** One encoded character. */
  type Char = seq<Byte>

  /** `Utf8` is the optimised path of the chunk, `Fixed` stands for an encoding handled by iconv. */
  datatype Encoding = Utf8 | Fixed(extra: nat)

  /** The number of bytes of the character that starts with `lead`. */
  function Width(e: Encoding, lead: Byte): (n: nat)
    ensures n >= 1
  {
    match e
    case Fixed(extra) => extra + 1
    case Utf8 =>
      if lead < 0xC0 then 1
      else if lead < 0xE0 then 2
      else if lead < 0xF0 then 3
      else 4
  }

  /** Whether `c` is a complete character. */
  ghost predicate IsChar(e: Encoding, c: Char) {
    && c != []
    && |c| == Width(e, c[0])
    && (e.Utf8? ==>
          && (c[0] < 0x80 || 0xC2 <= c[0] < 0xF5)
          && (forall i :: 1 <= i < |c| ==> 0x80 <= c[i] < 0xC0)
          && (c[0] == 0xE0 ==> 0xA0 <= c[1])
          && (c[0] == 0xED ==> c[1] < 0xA0)
          && (c[0] == 0xF0 ==> 0x90 <= c[1])
          && (c[0] == 0xF4 ==> c[1] < 0x90))
  }

  // ---------- What the characters are ----------

  /** The characters of UTF-8 are the numbers below 0x110000 without the surrogates. */
  predicate Scalar(v: nat) {
    v < 0xD800 || 0xE000 <= v < 0x110000
  }

  /** The bytes of a character, as the table of RFC 3629 gives them. */
  function Utf8Bytes(v: nat): Char
    requires Scalar(v)
  {
    if v < 0x80 then [v as Byte]
    else if v < 0x800 then
      [(0xC0 + v / 0x40) as Byte, (0x80 + v % 0x40) as Byte]
    else if v < 0x10000 then
      [(0xE0 + v / 0x1000) as Byte, (0x80 + v / 0x40 % 0x40) as Byte, (0x80 + v % 0x40) as Byte]
    else
      [(0xF0 + v / 0x40000) as Byte, (0x80 + v / 0x1000 % 0x40) as Byte, (0x80 + v / 0x40 % 0x40) as Byte,
       (0x80 + v % 0x40) as Byte]
  }

  /** The number that the bytes of a character stand for. */
  function ValueOf(c: Char): int {
    if |c| == 1 then c[0] as int
    else if |c| == 2 then (c[0] as int - 0xC0) * 0x40 + (c[1] as int - 0x80)
    else if |c| == 3 then (c[0] as int - 0xE0) * 0x1000 + (c[1] as int - 0x80) * 0x40 + (c[2] as int - 0x80)
    else if |c| == 4 then
      (c[0] as int - 0xF0) * 0x40000 + (c[1] as int - 0x80) * 0x1000
        + (c[2] as int - 0x80) * 0x40 + (c[3] as int - 0x80)
    else 0
  }

  /** A number of several sextets, which a character has in its last bytes. */
  lemma Sextets(v: nat, high: nat, low: nat)
    requires v == high * 0x40 + low && low < 0x40
    ensures v / 0x40 == high && v % 0x40 == low
    ensures v / 0x1000 == high / 0x40 && v / 0x40000 == high / 0x1000
  {
  }

  /** The bytes of every scalar value are a character, from which the value can be read again. */
  lemma ScalarIsChar(v: nat)
    requires Scalar(v)
    ensures IsChar(Utf8, Utf8Bytes(v)) && ValueOf(Utf8Bytes(v)) == v
    ensures |Utf8Bytes(v)| == if v < 0x80 then 1 else if v < 0x800 then 2 else if v < 0x10000 then 3 else 4
  {
    var w, x := v / 0x40, v / 0x40 / 0x40;
    Sextets(v, w, v % 0x40);
    if v >= 0x800 {
      Sextets(w, x, w % 0x40);
      if v >= 0x10000 {
        Sextets(x, x / 0x40, x % 0x40);
      }
    }
  }

  /** Every character is the bytes of a scalar value. */
  lemma CharIsScalar(c: Char)
    requires IsChar(Utf8, c)
    ensures ValueOf(c) >= 0 && Scalar(ValueOf(c)) && Utf8Bytes(ValueOf(c)) == c
  {
    if |c| == 2 {
      Sextets(ValueOf(c), c[0] as int - 0xC0, c[1] as int - 0x80);
    } else if |c| == 3 {
      var w := (c[0] as int - 0xE0) * 0x40 + (c[1] as int - 0x80);
      Sextets(w, c[0] as int - 0xE0, c[1] as int - 0x80);
      Sextets(ValueOf(c), w, c[2] as int - 0x80);
    } else if |c| == 4 {
      var x := (c[0] as int - 0xF0) * 0x40 + (c[1] as int - 0x80);
      var w := x * 0x40 + (c[2] as int - 0x80);
      Sextets(x, c[0] as int - 0xF0, c[1] as int - 0x80);
      Sextets(w, x, c[2] as int - 0x80);
      Sextets(ValueOf(c), w, c[3] as int - 0x80);
    }
  }

  /** The characters of UTF-8 are exactly the byte sequences of scalar values. */
  lemma Utf8Characters(c: Char)
    ensures IsChar(Utf8, c) <==> exists v: nat :: Scalar(v) && Utf8Bytes(v) == c
  {
    if IsChar(Utf8, c) {
      CharIsScalar(c);
      var v: nat := ValueOf(c);
      assert Scalar(v) && Utf8Bytes(v) == c;
    }
    if v: nat :| Scalar(v) && Utf8Bytes(v) == c {
      ScalarIsChar(v);
    }
  }

  /** The characters of an encoding of fixed width are exactly the byte sequences of that width. */
  lemma FixedCharacters(extra: nat, c: Char)
    ensures IsChar(Fixed(extra), c) <==> |c| == extra + 1
  {
  }

  ghost predicate AllChars(e: Encoding, cs: seq<Char>) {
    forall i :: 0 <= i < |cs| ==> IsChar(e, cs[i])
  }

  /** The bytes of a string. */
  ghost function Encode(cs: seq<Char>): (t: seq<Byte>) {
    if cs == [] then [] else cs[0] + Encode(cs[1..])
  }

  /** The characters of a buffer; a character that is cut off at the end is kept as it is. */
  ghost function Decode(e: Encoding, t: seq<Byte>): (cs: seq<Char>)
    ensures cs == [] <==> t == []
  {
    if t == [] then []
    else
      var n := if Width(e, t[0]) <= |t| then Width(e, t[0]) else |t|;
      [t[..n]] + Decode(e, t[n..])
  }

  /** `t` consists of complete characters. */
  ghost predicate WellFormed(e: Encoding, t: seq<Byte>) {
    AllChars(e, Decode(e, t))
  }

  /** The byte at which character number `k` starts. */
  ghost function ByteIndex(e: Encoding, t: seq<Byte>, k: nat): (i: nat)
    requires k <= |Decode(e, t)|
  {
    |Encode(Decode(e, t)[..k])|
  }

  lemma {:induction false} EncodeJoin(a: seq<Char>, b: seq<Char>)
    ensures Encode(a + b) == Encode(a) + Encode(b)
  {
    if a == [] {
      assert a + b == b;
    } else {
      assert (a + b)[1..] == a[1..] + b;
      EncodeJoin(a[1..], b);
    }
  }

  /** Decoding loses nothing, so no two buffers hold the same characters. */
  lemma {:induction false} EncodeDecode(e: Encoding, t: seq<Byte>)
    ensures Encode(Decode(e, t)) == t
  {
    if t != [] {
      var n := if Width(e, t[0]) <= |t| then Width(e, t[0]) else |t|;
      EncodeDecode(e, t[n..]);
      assert Decode(e, t)[1..] == Decode(e, t[n..]);
    }
  }

  /** The encoding is uniquely decodable. */
  lemma {:induction false} DecodeEncode(e: Encoding, cs: seq<Char>)
    requires AllChars(e, cs)
    ensures Decode(e, Encode(cs)) == cs
  {
    if cs != [] {
      var t := Encode(cs);
      DecodeEncode(e, cs[1..]);
      assert t[0] == cs[0][0];
      assert t[..|cs[0]|] == cs[0] && t[|cs[0]|..] == Encode(cs[1..]);
    }
  }

  lemma DecodeJoin(e: Encoding, a: seq<Byte>, b: seq<Byte>)
    requires WellFormed(e, a) && WellFormed(e, b)
    ensures WellFormed(e, a + b) && Decode(e, a + b) == Decode(e, a) + Decode(e, b)
  {
    var cs := Decode(e, a) + Decode(e, b);
    EncodeJoin(Decode(e, a), Decode(e, b));
    EncodeDecode(e, a);
    EncodeDecode(e, b);
    DecodeEncode(e, cs);
  }

  /** Cutting a buffer at a character boundary cuts its characters. */
  lemma DecodeCut(e: Encoding, t: seq<Byte>, k: nat)
    requires WellFormed(e, t) && k <= |Decode(e, t)|
    ensures var i := ByteIndex(e, t, k);
      && i <= |t|
      && WellFormed(e, t[..i]) && Decode(e, t[..i]) == Decode(e, t)[..k]
      && WellFormed(e, t[i..]) && Decode(e, t[i..]) == Decode(e, t)[k..]
  {
    var cs := Decode(e, t);
    var a, b := Encode(cs[..k]), Encode(cs[k..]);
    assert cs == cs[..k] + cs[k..];
    EncodeJoin(cs[..k], cs[k..]);
    EncodeDecode(e, t);
    DecodeEncode(e, cs[..k]);
    DecodeEncode(e, cs[k..]);
    assert t == a + b && t[..|a|] == a && t[|a|..] == b;
  }

  /** Walks over `offset` characters and returns the number of bytes passed.  Both of the chunk's
      byte index routines do this; the assertion in the loop is the one of the iconv routine. */
  method GetByteIndex(e: Encoding, text: seq<Byte>, offset: nat) returns (index: nat)
    requires WellFormed(e, text) && offset < |Decode(e, text)|
    ensures index == ByteIndex(e, text, offset)
    ensures index < |text|
  {
    ghost var cs := Decode(e, text);
    index := 0;
    var count := 0;
    assert cs[..0] == [];
    while count < offset
      invariant 0 <= count <= offset
      invariant index == ByteIndex(e, text, count)
    {
      DecodeCut(e, text, count);
      assert index < |text|;
      var n := Width(e, text[index]);
      ByteIndexStep(e, text, count);
      index := index + n;
      count := count + 1;
    }
    DecodeCut(e, text, offset);
  }

  lemma EncodeOne(c: Char)
    ensures Encode([c]) == c
  {
    assert [c][1..] == [] && Encode([]) == [];
  }

  lemma ByteIndexStep(e: Encoding, t: seq<Byte>, k: nat)
    requires WellFormed(e, t) && k < |Decode(e, t)|
    ensures var i := ByteIndex(e, t, k);
      && i < |t| && ByteIndex(e, t, k + 1) == i + Width(e, t[i])
  {
    var cs := Decode(e, t);
    DecodeCut(e, t, k);
    var i := ByteIndex(e, t, k);
    assert cs[k] == Decode(e, t[i..])[0] && IsChar(e, cs[k]);
    assert t[i..] != [] && t[i..][0] == t[i] && cs[k][0] == t[i];
    hide Decode, Encode;
    assert cs[..k + 1] == cs[..k] + [cs[k]];
    EncodeJoin(cs[..k], [cs[k]]);
    EncodeOne(cs[k]);
  }
}
