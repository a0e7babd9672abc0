/**
 The base64 text of a screenshot, for its `data:` URL, against section 4 of RFC 4648.

 The program works on a 24-bit word with shifts and masks; here the word is a number, a shift by
 `k` is a multiplication or division by 2^k, and a six-bit mask is a remainder by 64.
 */
module Base64 {
  import opened Common

  /** The base64 alphabet: A to Z, a to z, 0 to 9, then '+' and '/'. */
  function Letter(n: nat): char
    requires n < 64
  {
    if n < 26 then 'A' + n as char
    else if n < 52 then 'a' + (n - 26) as char
    else if n < 62 then '0' + (n - 52) as char
    else if n == 62 then '+'
    else '/'
  }

  /** Table 1 of RFC 4648. */
  lemma Alphabet(n: nat)
    requires n < 63
    ensures Letter(0) == 'A' && Letter(26) == 'a' && Letter(52) == '0'
    ensures Letter(62) == '+' && Letter(63) == '/'
    ensures n !in {25, 51, 61, 62} ==> Letter(n + 1) as int == Letter(n) as int + 1
  {
  }

  // ----- Encoding -----

  /** Up to three bytes as the top of a 24-bit word. */
  function Triple(chunk: Bytes): nat
    requires 1 <= |chunk| <= 3
  {
    (chunk[0] as int) * 65_536
    + (if |chunk| > 1 then (chunk[1] as int) * 256 else 0)
    + (if |chunk| > 2 then chunk[2] as int else 0)
  }

  function Shifted(triple: nat, position: nat): nat
    requires position < 4
  {
    triple / [262_144, 4_096, 64, 1][position]
  }

  function Character(chunk: Bytes, position: nat): char
    requires 1 <= |chunk| <= 3 && position < 4
  {
    if position <= |chunk| then Letter(Shifted(Triple(chunk), position) % 64) else '='
  }

  function Quantum(chunk: Bytes): string
    requires 1 <= |chunk| <= 3
  {
    [Character(chunk, 0), Character(chunk, 1), Character(chunk, 2), Character(chunk, 3)]
  }

  function Chunk(bytes: Bytes): Bytes
    requires bytes != []
  {
    if |bytes| < 3 then bytes else bytes[..3]
  }

  function Encode(bytes: Bytes): string {
    if bytes == [] then "" else Quantum(Chunk(bytes)) + Encode(bytes[|Chunk(bytes)|..])
  }

  method Base64(bytes: Bytes) returns (text: string)
    ensures text == Encode(bytes)
  {
    text := "";
    var at := 0;
    while at < |bytes|
      invariant 0 <= at <= |bytes|
      invariant text + Encode(bytes[at..]) == Encode(bytes)
    {
      var chunk := Chunk(bytes[at..]);
      EncodeUnrolls(bytes, at, text);
      text := PushQuantum(text, chunk);
      at := at + |chunk|;
    }
  }

  /** The inner loop: four characters for one chunk. */
  method PushQuantum(before: string, chunk: Bytes) returns (text: string)
    requires 1 <= |chunk| <= 3
    ensures text == before + Quantum(chunk)
  {
    text := before;
    var triple := Triple(chunk);
    ghost var quantum := Quantum(chunk);
    for position := 0 to 4
      invariant text == before + quantum[..position]
    {
      var character := '=';
      if position <= |chunk| {
        var sextet := Shifted(triple, position) % 64;
        character := Letter(sextet);
      }
      assert quantum[..position + 1] == quantum[..position] + [character];
      text := text + [character];
    }
  }

  lemma EncodeUnrolls(bytes: Bytes, at: nat, before: string)
    requires at < |bytes|
    ensures var chunk := Chunk(bytes[at..]);
            (before + Quantum(chunk)) + Encode(bytes[at + |chunk|..]) == before + Encode(bytes[at..])
  {
    var chunk := Chunk(bytes[at..]);
    assert bytes[at..][|chunk|..] == bytes[at + |chunk|..];
  }

  // ----- Decoding, as the standard defines it -----

  function Value(c: char): Option<nat> {
    if 'A' <= c <= 'Z' then Some(c as int - 'A' as int)
    else if 'a' <= c <= 'z' then Some(c as int - 'a' as int + 26)
    else if '0' <= c <= '9' then Some(c as int - '0' as int + 52)
    else if c == '+' then Some(62)
    else if c == '/' then Some(63)
    else None
  }

  /** The bytes of one quantum; only the last may be padded, and its unused bits must be zero. */
  function DecodeQuantum(q: string, last: bool): Option<Bytes>
    requires |q| == 4
  {
    var a, b, c, d := Value(q[0]), Value(q[1]), Value(q[2]), Value(q[3]);
    if a.None? || b.None? then None
    else if c.Some? && d.Some? then Unpack(a.value, b.value, c.value, d.value)
    else if last && c.Some? && q[3] == '=' && c.value % 4 == 0 then
      Unpack2(a.value, b.value, c.value)
    else if last && q[2] == '=' && q[3] == '=' && b.value % 16 == 0 then
      Unpack1(a.value, b.value)
    else None
  }

  function Unpack(a: nat, b: nat, c: nat, d: nat): Option<Bytes> {
    var x, y, z := a * 4 + b / 16, b % 16 * 16 + c / 4, c % 4 * 64 + d;
    if x < 256 && y < 256 && z < 256 then Some([x, y, z]) else None
  }

  function Unpack2(a: nat, b: nat, c: nat): Option<Bytes> {
    var x, y := a * 4 + b / 16, b % 16 * 16 + c / 4;
    if x < 256 && y < 256 then Some([x, y]) else None
  }

  function Unpack1(a: nat, b: nat): Option<Bytes> {
    var x := a * 4 + b / 16;
    if x < 256 then Some([x]) else None
  }

  function Decode(text: string): Option<Bytes> {
    if text == [] then Some([])
    else if |text| < 4 then None
    else
      var head, tail := DecodeQuantum(text[..4], |text| == 4), Decode(text[4..]);
      if head.None? || tail.None? then None else Some(head.value + tail.value)
  }

  // ----- Round trips -----

  lemma ValueOfLetter(n: nat)
    requires n < 64
    ensures Value(Letter(n)) == Some(n) && Letter(n) != '='
  {
  }

  lemma LetterOfValue(c: char)
    requires Value(c).Some?
    ensures Value(c).value < 64 && Letter(Value(c).value) == c && c != '='
  {
  }

  lemma SextetsOfTriple(x: int, y: int, z: int)
    requires 0 <= x < 256 && 0 <= y < 256 && 0 <= z < 256
    ensures var t := x * 65_536 + y * 256 + z;
            && t / 262_144 % 64 == x / 4
            && t / 4_096 % 64 == x % 4 * 16 + y / 16
            && t / 64 % 64 == y % 16 * 4 + z / 64
            && t % 64 == z % 64
  {
    SextetsOfDigits(x / 4, x % 4, y / 16, y % 16, z / 64, z % 64);
    By64(z, z / 64, z % 64);
    assert x == x / 4 * 4 + x % 4 && y == y / 16 * 16 + y % 16 && z == z / 64 * 64 + z % 64;
  }

  lemma By64(n: int, quotient: int, rest: int)
    requires n == quotient * 64 + rest && 0 <= rest < 64
    ensures n / 64 == quotient && n % 64 == rest
  {
  }

  lemma By4096(n: int, quotient: int, rest: int)
    requires n == quotient * 4_096 + rest && 0 <= rest < 4_096
    ensures n / 4_096 == quotient && n % 4_096 == rest
  {
  }

  lemma By262144(n: int, quotient: int, rest: int)
    requires n == quotient * 262_144 + rest && 0 <= rest < 262_144
    ensures n / 262_144 == quotient && n % 262_144 == rest
  {
  }

  lemma SextetsOfDigits(a: int, b: int, c: int, d: int, e: int, f: int)
    requires 0 <= a < 64 && 0 <= b < 4 && 0 <= c < 16 && 0 <= d < 16 && 0 <= e < 4 && 0 <= f < 64
    ensures var t := a * 262_144 + b * 65_536 + c * 4_096 + d * 256 + e * 64 + f;
            && t / 262_144 % 64 == a && t / 4_096 % 64 == b * 16 + c
            && t / 64 % 64 == d * 4 + e && t % 64 == f
  {
    var t := a * 262_144 + b * 65_536 + c * 4_096 + d * 256 + e * 64 + f;
    By262144(t, a, b * 65_536 + c * 4_096 + d * 256 + e * 64 + f);
    By4096(t, a * 64 + b * 16 + c, d * 256 + e * 64 + f);
    By64(t, a * 4_096 + b * 1_024 + c * 64 + d * 4 + e, f);
    By64(a, 0, a);
    By64(a * 64 + b * 16 + c, a, b * 16 + c);
    By64(a * 4_096 + b * 1_024 + c * 64 + d * 4 + e, a * 64 + b * 16 + c, d * 4 + e);
  }

  lemma SextetsOfChunk(chunk: Bytes)
    requires 1 <= |chunk| <= 3
    ensures var x := chunk[0] as int;
            var y := if |chunk| > 1 then chunk[1] as int else 0;
            var z := if |chunk| > 2 then chunk[2] as int else 0;
            && Shifted(Triple(chunk), 0) % 64 == x / 4
            && Shifted(Triple(chunk), 1) % 64 == x % 4 * 16 + y / 16
            && Shifted(Triple(chunk), 2) % 64 == y % 16 * 4 + z / 64
            && Shifted(Triple(chunk), 3) % 64 == z % 64
  {
    SextetsOfTriple(chunk[0], if |chunk| > 1 then chunk[1] else 0,
                    if |chunk| > 2 then chunk[2] else 0);
  }

  /** The values of a quantum's four characters, or its padding, in terms of the chunk's bytes. */
  ghost predicate Spells(q: string, chunk: Bytes)
    requires 1 <= |chunk| <= 3
  {
    var x := chunk[0] as int;
    var y := if |chunk| > 1 then chunk[1] as int else 0;
    var z := if |chunk| > 2 then chunk[2] as int else 0;
    && |q| == 4
    && Value(q[0]) == Some(x / 4)
    && Value(q[1]) == Some(x % 4 * 16 + y / 16)
    && (if |chunk| > 1 then Value(q[2]) == Some(y % 16 * 4 + z / 64) && q[2] != '=' else q[2] == '=')
    && (if |chunk| > 2 then Value(q[3]) == Some(z % 64) && q[3] != '=' else q[3] == '=')
    && q[0] != '=' && q[1] != '='
  }

  lemma QuantumSpells(chunk: Bytes)
    requires 1 <= |chunk| <= 3
    ensures Spells(Quantum(chunk), chunk)
  {
    SextetsOfChunk(chunk);
    var t := Triple(chunk);
    ValueOfLetter(Shifted(t, 0) % 64);
    ValueOfLetter(Shifted(t, 1) % 64);
    ValueOfLetter(Shifted(t, 2) % 64);
    ValueOfLetter(Shifted(t, 3) % 64);
  }

  /** A quantum is determined by the values it spells. */
  lemma SpellingIsUnique(q: string, r: string, chunk: Bytes)
    requires 1 <= |chunk| <= 3 && Spells(q, chunk) && Spells(r, chunk)
    ensures q == r
  {
    SameLetter(q[0], r[0]);
    SameLetter(q[1], r[1]);
    if |chunk| > 1 {
      SameLetter(q[2], r[2]);
    }
    if |chunk| > 2 {
      SameLetter(q[3], r[3]);
    }
  }

  lemma OneQuantum(chunk: Bytes, q: string)
    requires 1 <= |chunk| <= 3 && Spells(q, chunk)
    ensures Encode(chunk) == q
  {
    hide Spells, Quantum;
    QuantumSpells(chunk);
    SpellingIsUnique(Quantum(chunk), q, chunk);
    assert Encode(chunk[|chunk|..]) == "";
    assert Chunk(chunk) == chunk;
  }

  /** From section 10 of RFC 4648, and bytes that need the end of the alphabet. */
  lemma KnownTexts()
    ensures Encode([]) == "" && Encode([102]) == "Zg==" && Encode([102, 111]) == "Zm8="
    ensures Encode([102, 111, 111]) == "Zm9v" && Encode([255, 254, 253, 0]) == "//79AA=="
  {
    hide Encode;
    OneQuantum([102], "Zg==");
    OneQuantum([102, 111], "Zm8=");
    OneQuantum([102, 111, 111], "Zm9v");
    OneQuantum([255, 254, 253], "//79");
    OneQuantum([0], "AA==");
    EncodedApart([255, 254, 253], [0]);
    assert [255, 254, 253] + [0] == [255, 254, 253, 0];
    assert Encode([]) == "" by { NoText(); }
  }

  lemma NoText()
    ensures Encode([]) == ""
  {
  }

  /** Each three bytes are encoded alone. */
  lemma EncodedApart(chunk: Bytes, rest: Bytes)
    requires |chunk| == 3
    ensures Encode(chunk + rest) == Encode(chunk) + Encode(rest)
  {
    assert Chunk(chunk + rest) == chunk == Chunk(chunk);
    assert (chunk + rest)[3..] == rest && chunk[3..] == [];
  }

  lemma SameLetter(c: char, d: char)
    requires Value(c).Some? && Value(c) == Value(d)
    ensures c == d
  {
    LetterOfValue(c);
    LetterOfValue(d);
  }

  lemma QuantumDecodes(chunk: Bytes, last: bool)
    requires 1 <= |chunk| <= 3 && (last || |chunk| == 3)
    ensures DecodeQuantum(Quantum(chunk), last) == Some(chunk)
  {
    QuantumSpells(chunk);
    SpellingDecodes(Quantum(chunk), chunk, last);
  }

  lemma SpellingDecodes(q: string, chunk: Bytes, last: bool)
    requires 1 <= |chunk| <= 3 && (last || |chunk| == 3) && Spells(q, chunk)
    ensures DecodeQuantum(q, last) == Some(chunk)
  {
    RepackBytes(chunk[0], if |chunk| > 1 then chunk[1] else 0, if |chunk| > 2 then chunk[2] else 0);
    assert |chunk| == 1 ==> chunk == [chunk[0]];
    assert |chunk| == 2 ==> chunk == [chunk[0], chunk[1]];
    assert |chunk| == 3 ==> chunk == [chunk[0], chunk[1], chunk[2]];
  }

  lemma RepackBytes(x: int, y: int, z: int)
    requires 0 <= x < 256 && 0 <= y < 256 && 0 <= z < 256
    ensures var a, b, c, d := x / 4, x % 4 * 16 + y / 16, y % 16 * 4 + z / 64, z % 64;
            && a * 4 + b / 16 == x && b % 16 * 16 + c / 4 == y && c % 4 * 64 + d == z
            && (z == 0 ==> c % 4 == 0) && (y == 0 ==> b % 16 == 0)
  {
  }

  /** Decoding an encoded image gives back its bytes. */
  lemma {:induction false} DecodeEncode(bytes: Bytes)
    ensures Decode(Encode(bytes)) == Some(bytes)
  {
    if bytes != [] {
      var chunk := Chunk(bytes);
      var rest := bytes[|chunk|..];
      DecodeEncode(rest);
      EncodedLength(rest);
      QuantumDecodes(chunk, rest == []);
      assert Encode(bytes)[..4] == Quantum(chunk) && Encode(bytes)[4..] == Encode(rest);
      assert chunk + rest == bytes;
    }
  }

  /** Four characters for every three bytes begun. */
  lemma {:induction false} EncodedLength(bytes: Bytes)
    ensures |Encode(bytes)| == (|bytes| + 2) / 3 * 4
  {
    if bytes != [] {
      EncodedLength(bytes[|Chunk(bytes)|..]);
      MissingFromRest(|bytes|);
    }
  }

  /** Bytes missing from the last chunk. */
  function Missing(bytes: Bytes): nat {
    (|bytes| + 2) / 3 * 3 - |bytes|
  }

  /** Padding stands only in the last quantum, as many characters as the last chunk lacks bytes. */
  lemma {:induction false} PaddingIsLast(bytes: Bytes, i: nat)
    requires i < |Encode(bytes)|
    ensures Encode(bytes)[i] == '=' <==> i >= |Encode(bytes)| - Missing(bytes)
    ensures |Encode(bytes)| >= 4 && Missing(bytes) < 3
  {
    var chunk := Chunk(bytes);
    var rest := bytes[|chunk|..];
    EncodedLength(bytes);
    EncodedLength(rest);
    MissingFromRest(|bytes|);
    if i < 4 {
      PaddingInQuantum(chunk, i);
    } else {
      PaddingIsLast(rest, i - 4);
    }
  }

  lemma PaddingInQuantum(chunk: Bytes, i: nat)
    requires 1 <= |chunk| <= 3 && i < 4
    ensures Quantum(chunk)[i] == '=' <==> i > |chunk|
  {
    QuantumSpells(chunk);
  }

  lemma MissingFromRest(n: nat)
    requires n > 0
    ensures if n > 3 then (n + 2) / 3 == (n - 3 + 2) / 3 + 1 else (n + 2) / 3 == 1
    ensures (n + 2) / 3 * 3 - n < 3
  {
  }

  lemma QuantumEncodes(q: string, last: bool)
    requires |q| == 4 && DecodeQuantum(q, last).Some?
    ensures var chunk := DecodeQuantum(q, last).value;
            1 <= |chunk| <= 3 && (!last ==> |chunk| == 3) && Quantum(chunk) == q
  {
    var chunk := DecodeQuantum(q, last).value;
    DecodedSpells(q, last);
    QuantumSpells(chunk);
    SpellingIsUnique(q, Quantum(chunk), chunk);
  }

  lemma DecodedSpells(q: string, last: bool)
    requires |q| == 4 && DecodeQuantum(q, last).Some?
    ensures var chunk := DecodeQuantum(q, last).value;
            1 <= |chunk| <= 3 && (!last ==> |chunk| == 3) && Spells(q, chunk)
  {
    hide Value, Letter;
    LetterOfValue(q[0]);
    LetterOfValue(q[1]);
    if Value(q[2]).Some? {
      LetterOfValue(q[2]);
      if Value(q[3]).Some? {
        LetterOfValue(q[3]);
        SplitSextets(Value(q[0]).value, Value(q[1]).value, Value(q[2]).value, Value(q[3]).value);
      } else {
        SplitSextets(Value(q[0]).value, Value(q[1]).value, Value(q[2]).value, 0);
      }
    } else {
      SplitSextets(Value(q[0]).value, Value(q[1]).value, 0, 0);
    }
  }

  lemma SplitSextets(a: int, b: int, c: int, d: int)
    requires 0 <= a < 64 && 0 <= b < 64 && 0 <= c < 64 && 0 <= d < 64
    ensures var x, y, z := a * 4 + b / 16, b % 16 * 16 + c / 4, c % 4 * 64 + d;
            && x / 4 == a && x % 4 * 16 + y / 16 == b
            && y % 16 * 4 + z / 64 == c && z % 64 == d
  {
  }

  /** Every text the strict decoder accepts is the encoding of what it decodes to. */
  lemma {:induction false} EncodeDecode(text: string)
    requires Decode(text).Some?
    ensures Encode(Decode(text).value) == text
  {
    if text != "" {
      var chunk, rest := DecodeQuantum(text[..4], |text| == 4).value, Decode(text[4..]).value;
      QuantumEncodes(text[..4], |text| == 4);
      EncodeDecode(text[4..]);
      if |text| == 4 {
        assert rest == [];
      }
      assert Chunk(chunk + rest) == chunk;
      assert (chunk + rest)[|chunk|..] == rest;
      assert text[..4] + text[4..] == text;
    }
  }
}
