/** The base64 encoder, against section 4 of RFC 4648. Shifts and masks of unsigned bytes are written as
    division and remainder, which `BitsAreArithmetic` justifies. */
module Base64 {
  import opened Seqs
  import opened Results

  newtype Octet = x: int | 0 <= x < 256

  /** The encoder's shifts and masks, on bytes, are these divisions and remainders. */
  lemma BitsAreArithmetic(x: bv8, y: bv8)
    ensures x >> 2 == x / 4 && x & 0x3F == x % 64
    ensures ((x & 0x03) << 4) | (y >> 4) == x % 4 * 16 + y / 16
    ensures ((x & 0x0F) << 2) | (y >> 6) == x % 16 * 4 + y / 64
    ensures (x & 0x03) << 4 == x % 4 * 16 && (x & 0x0F) << 2 == x % 16 * 4
  {
  }

  /** The alphabet: the digit of a value below 64. */
  function Digit(sextet: Octet): char
    requires sextet < 64
  {
    var n := sextet as int;
    if n < 26 then ('A' as int + n) as char
    else if n < 52 then ('a' as int + n - 26) as char
    else if n < 62 then ('0' as int + n - 52) as char
    else if n == 62 then '+' else '/'
  }

  /** How the four digits of a group of bytes x, y, z are drawn from them. */
  datatype Code = Code(
    first: Octet -> char,               // of x
    second: (Octet, Octet) -> char,     // of x and y
    third: (Octet, Octet) -> char,      // of y and z
    fourth: Octet -> char)              // of z

  function Standard(): Code {
    Code((x: Octet) => Digit(x / 4),
         (x: Octet, y: Octet) => Digit(x % 4 * 16 + y / 16),
         (y: Octet, z: Octet) => Digit(y % 16 * 4 + z / 64),
         (z: Octet) => Digit(z % 64))
  }

  /** Groups of three bytes, the last one filled up with zeros and its idle digits replaced by pads. */
  function EncodeWith(k: Code, data: seq<Octet>): string {
    if data == [] then ""
    else if |data| == 1 then [k.first(data[0]), k.second(data[0], 0), '=', '=']
    else if |data| == 2 then [k.first(data[0]), k.second(data[0], data[1]), k.third(data[1], 0), '=']
    else
      [k.first(data[0]), k.second(data[0], data[1]), k.third(data[1], data[2]), k.fourth(data[2])]
      + EncodeWith(k, data[3..])
  }

  function Encode(data: seq<Octet>): string {
    EncodeWith(Standard(), data)
  }

  lemma EncodeFirst(k: Code, data: seq<Octet>)
    requires |data| > 3
    ensures EncodeWith(k, data) == EncodeWith(k, data[..3]) + EncodeWith(k, data[3..])
  {
    assert data[..3][3..] == [];
  }

  /** `encodeBase64`. */
  method EncodeBase64(data: seq<Octet>) returns (result: string)
    ensures result == Encode(data)
  {
    result := EncodeLoop(Standard(), data);
  }

  method EncodeLoop(k: Code, data: seq<Octet>) returns (result: string)
    ensures result == EncodeWith(k, data)
  {
    result := "";
    var i := 0;
    while i < |data|
      invariant 0 <= i
      invariant i < |data| ==> result + EncodeWith(k, data[i..]) == EncodeWith(k, data)
      invariant i >= |data| ==> result == EncodeWith(k, data)
    {
      var chunk := data[i..];
      ghost var rest := chunk;
      if |chunk| > 3 {
        EncodeFirst(k, chunk);
        chunk := chunk[..3];
        assert rest[3..] == data[i + 3..];
      }
      ghost var before := result;
      result := EncodeChunk(k, chunk, result);
      Associates(before, EncodeWith(k, chunk), EncodeWith(k, rest[|chunk|..]));
      i := i + 3;
    }
  }

  method EncodeChunk(k: Code, chunk: seq<Octet>, before: string) returns (result: string)
    requires 1 <= |chunk| <= 3
    ensures result == before + EncodeWith(k, chunk)
  {
    result := before + [k.first(chunk[0])];
    if |chunk| > 1 {
      result := result + [k.second(chunk[0], chunk[1])];
      if |chunk| > 2 {
        result := result + [k.third(chunk[1], chunk[2])];
        result := result + [k.fourth(chunk[2])];
        assert chunk[3..] == [];
      } else {
        result := result + [k.third(chunk[1], 0)];
        result := result + ['='];
      }
    } else {
      result := result + [k.second(chunk[0], 0)];
      result := result + ['=', '='];
    }
  }

  // ----- The decoder of RFC 4648 -----

  /** The value of a digit; 64 for any other character. */
  function Value(c: char): (n: Octet)
    ensures n <= 64
  {
    if 'A' <= c <= 'Z' then (c as int - 'A' as int) as Octet
    else if 'a' <= c <= 'z' then (c as int - 'a' as int + 26) as Octet
    else if '0' <= c <= '9' then (c as int - '0' as int + 52) as Octet
    else if c == '+' then 62 else if c == '/' then 63 else 64
  }

  /** Groups of four digits give three bytes; the last group may end in one or two pads, in which case the
      bits they leave over must be zero. */
  function Decode(s: string): Option<seq<Octet>> {
    if s == "" then Some([])
    else if |s| < 4 then None
    else
      var a, b, c, d := Value(s[0]), Value(s[1]), Value(s[2]), Value(s[3]);
      if a == 64 || b == 64 then None
      else if |s| == 4 && s[2] == '=' && s[3] == '=' then
        if b % 16 == 0 then Some([a * 4 + b / 16]) else None
      else if c == 64 then None
      else if |s| == 4 && s[3] == '=' then
        if c % 4 == 0 then Some([a * 4 + b / 16, b % 16 * 16 + c / 4]) else None
      else if d == 64 then None
      else
        match Decode(s[4..])
        case None => None
        case Some(rest) => Some([a * 4 + b / 16, b % 16 * 16 + c / 4, c % 4 * 64 + d] + rest)
  }

  lemma ValueInverts(n: Octet)
    requires n < 64
    ensures Value(Digit(n)) == n && Digit(n) != '='
  {
  }

  lemma SixBits(x: Octet, y: Octet, z: Octet)
    ensures (x / 4) * 4 + (x % 4 * 16 + y / 16) / 16 == x
    ensures (x % 4 * 16 + y / 16) % 16 * 16 + (y % 16 * 4 + z / 64) / 4 == y
    ensures (y % 16 * 4 + z / 64) % 4 * 64 + z % 64 == z
    ensures x / 4 < 64 && x % 4 * 16 + y / 16 < 64 && y % 16 * 4 + z / 64 < 64 && z % 64 < 64
  {
  }

  /** The decoder recovers x, y and z from the digits drawn from them. */
  ghost predicate Recovers(k: Code, x: Octet, y: Octet, z: Octet) {
    var a, b, c, d := Value(k.first(x)), Value(k.second(x, y)), Value(k.third(y, z)), Value(k.fourth(z));
    && a < 64 && b < 64 && c < 64 && d < 64 && k.third(y, z) != '=' && k.fourth(z) != '='
    && a * 4 + b / 16 == x && b % 16 * 16 + c / 4 == y && c % 4 * 64 + d == z
    && (z == 0 ==> c % 4 == 0) && (y == 0 && z == 0 ==> b % 16 == 0)
  }

  lemma StandardRecovers(x: Octet, y: Octet, z: Octet)
    ensures Recovers(Standard(), x, y, z)
  {
    SixBits(x, y, z);
    ValueInverts(x / 4);
    ValueInverts(x % 4 * 16 + y / 16);
    ValueInverts(y % 16 * 4 + z / 64);
    ValueInverts(z % 64);
  }

  lemma DecodeGroup(k: Code, x: Octet, y: Octet, z: Octet, rest: string)
    requires Recovers(k, x, y, z)
    ensures Decode(rest).Some? ==>
      Decode([k.first(x), k.second(x, y), k.third(y, z), k.fourth(z)] + rest) == Some([x, y, z] + Decode(rest).value)
    ensures z == 0 ==> Decode([k.first(x), k.second(x, y), k.third(y, z), '=']) == Some([x, y])
    ensures y == 0 && z == 0 ==> Decode([k.first(x), k.second(x, y), '=', '=']) == Some([x])
  {
    assert ([k.first(x), k.second(x, y), k.third(y, z), k.fourth(z)] + rest)[4..] == rest;
  }

  lemma {:induction false} DecodesWith(k: Code, data: seq<Octet>)
    requires forall x, y, z :: Recovers(k, x, y, z)
    ensures Decode(EncodeWith(k, data)) == Some(data)
    decreases |data|
  {
    if |data| > 2 {
      DecodesWith(k, data[3..]);
      assert Recovers(k, data[0], data[1], data[2]);
      DecodeGroup(k, data[0], data[1], data[2], EncodeWith(k, data[3..]));
      assert data == [data[0], data[1], data[2]] + data[3..];
    } else if |data| == 2 {
      assert Recovers(k, data[0], data[1], 0);
      DecodeGroup(k, data[0], data[1], 0, "");
      assert data == [data[0], data[1]];
    } else if |data| == 1 {
      assert Recovers(k, data[0], 0, 0);
      DecodeGroup(k, data[0], 0, 0, "");
      assert data == [data[0]];
    }
  }

  /** Decoding undoes encoding, for every string of bytes. */
  lemma RoundTrip(data: seq<Octet>)
    ensures Decode(Encode(data)) == Some(data)
  {
    forall x, y, z ensures Recovers(Standard(), x, y, z) { StandardRecovers(x, y, z); }
    DecodesWith(Standard(), data);
  }

  /** Hence different bytes have different encodings. */
  lemma Injective(x: seq<Octet>, y: seq<Octet>)
    requires Encode(x) == Encode(y)
    ensures x == y
  {
    RoundTrip(x);
    RoundTrip(y);
  }

  /** How many pads the encoding of `n` bytes ends in. */
  function Pads(n: nat): nat {
    (3 - n % 3) % 3
  }

  ghost predicate WellShaped(s: string, pads: nat) {
    pads <= |s| && forall i :: 0 <= i < |s| ==> if i < |s| - pads then Value(s[i]) < 64 else s[i] == '='
  }

  lemma {:induction false} LengthWith(k: Code, data: seq<Octet>)
    ensures |EncodeWith(k, data)| == 4 * ((|data| + 2) / 3)
    decreases |data|
  {
    if |data| > 2 { LengthWith(k, data[3..]); }
  }

  lemma GroupShape(k: Code, x: Octet, y: Octet, z: Octet)
    requires Recovers(k, x, y, z)
    ensures WellShaped([k.first(x), k.second(x, y), k.third(y, z), k.fourth(z)], 0)
  {
  }

  lemma ShapesAppend(a: string, b: string, pads: nat)
    requires WellShaped(a, 0) && WellShaped(b, pads)
    ensures WellShaped(a + b, pads)
  {
  }

  lemma {:induction false} ShapeWith(k: Code, data: seq<Octet>)
    requires forall x, y, z :: Recovers(k, x, y, z)
    ensures WellShaped(EncodeWith(k, data), Pads(|data|))
    decreases |data|
  {
    if |data| > 2 {
      ShapeWith(k, data[3..]);
      assert Pads(|data|) == Pads(|data[3..]|);
      GroupShape(k, data[0], data[1], data[2]);
      ShapesAppend([k.first(data[0]), k.second(data[0], data[1]), k.third(data[1], data[2]), k.fourth(data[2])],
                   EncodeWith(k, data[3..]), Pads(|data|));
    } else if |data| > 0 {
      assert Recovers(k, data[0], if |data| > 1 then data[1] else 0, 0);
    }
  }

  /** Four digits for every three bytes begun, all from the alphabet, with as many pads at the very end as
      the last group lacks bytes. */
  lemma Shape(data: seq<Octet>)
    ensures |Encode(data)| == 4 * ((|data| + 2) / 3)
    ensures WellShaped(Encode(data), Pads(|data|))
  {
    forall x, y, z ensures Recovers(Standard(), x, y, z) { StandardRecovers(x, y, z); }
    LengthWith(Standard(), data);
    ShapeWith(Standard(), data);
  }
}
