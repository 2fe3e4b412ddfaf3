/**
 The incremental base64 check of embedded images: it accepts exactly the canonical encodings
 (sections 3.5 and 4 of RFC 4648, with zero pad bits) of non-empty byte strings.
 */
module Base64 {
  import opened Basics
  import opened Bytes

  type Sextet = x: int | 0 <= x < 64

  predicate IsSextet(c: char) {
    'A' <= c <= 'Z' || 'a' <= c <= 'z' || '0' <= c <= '9' || c == '+' || c == '/'
  }

  /** The source's `base64Sextet`, defined on every character. */
  function SextetOf(c: char): Sextet {
    if 'A' <= c <= 'Z' then c as int - 'A' as int
    else if 'a' <= c <= 'z' then c as int - 'a' as int + 26
    else if '0' <= c <= '9' then c as int - '0' as int + 52
    else if c == '+' then 62 else 63
  }

  /** The alphabet of section 4. */
  function CharOf(x: Sextet): (c: char)
    ensures IsSextet(c) && SextetOf(c) == x
  {
    if x < 26 then 'A' + x as char
    else if x < 52 then 'a' + (x - 26) as char
    else if x < 62 then '0' + (x - 52) as char
    else if x == 62 then '+' else '/'
  }

  lemma CharOfSextet(c: char)
    requires IsSextet(c)
    ensures CharOf(SextetOf(c)) == c
  {
  }

  // The check

  datatype ImageState = ImageState(characters: nat, padding: nat, lastSextet: Sextet)

  const FRESH: ImageState := ImageState(0, 0, 0)

  function PushCharacter(s: ImageState, c: char): Option<ImageState> {
    if c == '=' then
      if s.padding + 1 > 2 then None else Some(s.(padding := s.padding + 1))
    else if !IsSextet(c) || s.padding != 0 then None
    else Some(ImageState(s.characters + 1, 0, SextetOf(c)))
  }

  predicate Complete(s: ImageState) {
    !(s.characters == 0
      || (s.padding == 0 && s.characters % 4 != 0)
      || (s.padding == 1 && (s.characters % 4 != 3 || s.lastSextet % 4 != 0))
      || (s.padding == 2 && (s.characters % 4 != 2 || s.lastSextet % 16 != 0)))
  }

  function PushText(s: ImageState, text: string): Option<ImageState>
    decreases |text|
  {
    if text == "" then Some(s)
    else
      match PushCharacter(s, text[0])
      case None => None
      case Some(t) => PushText(t, text[1..])
  }

  predicate AcceptsFrom(s: ImageState, text: string) {
    PushText(s, text).Some? && Complete(PushText(s, text).value)
  }

  /** Every character is pushed, then the payload must be complete. */
  predicate Accepts(text: string) {
    AcceptsFrom(FRESH, text)
  }

  // The encoder

  function Quad(a: Byte, b: Byte, c: Byte): (s: string)
    ensures |s| == 4
  {
    [CharOf(a / 4), CharOf((a % 4) * 16 + b / 16), CharOf((b % 16) * 4 + c / 64), CharOf(c % 64)]
  }

  /** Section 4 of RFC 4648, with the final quantum padded. */
  function Encode(b: Bytes): string {
    if b == [] then ""
    else if |b| == 1 then [CharOf(b[0] / 4), CharOf((b[0] % 4) * 16), '=', '=']
    else if |b| == 2 then [CharOf(b[0] / 4), CharOf((b[0] % 4) * 16 + b[1] / 16), CharOf((b[1] % 16) * 4), '=']
    else Quad(b[0], b[1], b[2]) + Encode(b[3..])
  }

  // Canonical texts

  predicate AllSextets(t: string) {
    forall i | 0 <= i < |t| :: IsSextet(t[i])
  }

  /** A final quantum: four digits, or padded with zero pad bits. */
  predicate FinalQuantum(t: string)
    requires |t| == 4
  {
    && IsSextet(t[0]) && IsSextet(t[1])
    && (|| (IsSextet(t[2]) && IsSextet(t[3]))
        || (IsSextet(t[2]) && t[3] == '=' && SextetOf(t[2]) % 4 == 0)
        || (t[2] == '=' && t[3] == '=' && SextetOf(t[1]) % 16 == 0))
  }

  predicate Canonical(t: string) {
    |t| >= 4 && if |t| == 4 then FinalQuantum(t) else AllSextets(t[..4]) && Canonical(t[4..])
  }

  /** Once padded, only padding may follow. */
  lemma {:induction false} PaddedRest(s: ImageState, text: string)
    requires 1 <= s.padding <= 2
    ensures PushText(s, text) == if text == "" then Some(s)
            else if s.padding == 1 && text == "=" then Some(s.(padding := 2)) else None
    decreases |text|
  {
    if text != "" && PushCharacter(s, text[0]).Some? {
      PaddedRest(PushCharacter(s, text[0]).value, text[1..]);
      assert text == [text[0]] + text[1..];
    }
  }

  lemma PushTurn(s: ImageState, text: string)
    requires text != ""
    ensures AcceptsFrom(s, text) == (PushCharacter(s, text[0]).Some?
            && AcceptsFrom(PushCharacter(s, text[0]).value, text[1..]))
  {
  }

  /** After n mod 4 digits of a quantum, the rest decides. */
  lemma ShortRest(s: ImageState, text: string)
    requires s.padding == 0 && s.characters > 0
    ensures s.characters % 4 == 1 && (text == "" || !IsSextet(text[0])) ==> !AcceptsFrom(s, text)
    ensures s.characters % 4 == 2 && (text == "" || !IsSextet(text[0])) ==>
              (AcceptsFrom(s, text) <==> text == "==" && s.lastSextet % 16 == 0)
    ensures s.characters % 4 == 3 && (text == "" || !IsSextet(text[0])) ==>
              (AcceptsFrom(s, text) <==> text == "=" && s.lastSextet % 4 == 0)
  {
    if text != "" && !IsSextet(text[0]) && text[0] == '=' {
      var t := s.(padding := 1);
      PaddedRest(t, text[1..]);
      assert text == ['='] + text[1..];
      assert text[1..] == "=" <==> text == "==";
      assert text[1..] == "" <==> text == "=";
    }
  }

  /** From a quantum boundary, the check accepts exactly the canonical texts, or nothing more. */
  lemma {:induction false} AcceptsCanonical(s: ImageState, text: string)
    requires s.padding == 0 && s.characters % 4 == 0
    ensures AcceptsFrom(s, text) <==> (text == "" && s.characters > 0) || Canonical(text)
    decreases |text|
  {
    hide PushText, Complete, AcceptsFrom;
    if text == "" {
      Boundary(s);
    } else {
      PushTurn(s, text);
      if IsSextet(text[0]) {
        var s1 := ImageState(s.characters + 1, 0, SextetOf(text[0]));
        ShortRest(s1, text[1..]);
        if |text| > 1 && IsSextet(text[1]) {
          PushTurn(s1, text[1..]);
          var s2 := ImageState(s.characters + 2, 0, SextetOf(text[1]));
          assert text[1..][1..] == text[2..];
          ShortRest(s2, text[2..]);
          if |text| > 2 && IsSextet(text[2]) {
            PushTurn(s2, text[2..]);
            var s3 := ImageState(s.characters + 3, 0, SextetOf(text[2]));
            assert text[2..][1..] == text[3..];
            ShortRest(s3, text[3..]);
            if |text| > 3 && IsSextet(text[3]) {
              PushTurn(s3, text[3..]);
              assert text[3..][1..] == text[4..];
              AcceptsCanonical(ImageState(s.characters + 4, 0, SextetOf(text[3])), text[4..]);
            } else {
              assert text[3..] == "=" ==> |text| == 4 && text[3] == '=';
              ThreeDigits(text);
            }
          } else {
            TwoDigits(text);
          }
        } else {
          OneDigit(text);
        }
      } else {
        NoDigit(s, text);
      }
    }
  }

  lemma Boundary(s: ImageState)
    requires s.padding == 0 && s.characters % 4 == 0
    ensures AcceptsFrom(s, "") <==> s.characters > 0
  {
  }

  lemma NoDigit(s: ImageState, text: string)
    requires text != "" && !IsSextet(text[0]) && s.padding == 0 && s.characters % 4 == 0
    ensures !AcceptsFrom(s, text) && !Canonical(text)
  {
    if text[0] == '=' {
      PaddedRest(s.(padding := 1), text[1..]);
    }
    if |text| > 4 {
      assert text[..4][0] == text[0];
    }
  }

  lemma OneDigit(text: string)
    requires text != "" && IsSextet(text[0]) && (|text| == 1 || !IsSextet(text[1]))
    ensures !Canonical(text)
  {
    if |text| > 4 {
      assert text[..4][1] == text[1];
    }
  }

  lemma TwoDigits(text: string)
    requires |text| >= 2 && IsSextet(text[0]) && IsSextet(text[1]) && (|text| == 2 || !IsSextet(text[2]))
    ensures Canonical(text) <==> text[2..] == "==" && SextetOf(text[1]) % 16 == 0
  {
    if |text| > 4 {
      assert text[..4][2] == text[2];
    }
    if |text| == 4 {
      assert text[2..] == [text[2], text[3]];
    }
  }

  lemma ThreeDigits(text: string)
    requires |text| >= 3 && IsSextet(text[0]) && IsSextet(text[1]) && IsSextet(text[2])
             && (|text| == 3 || !IsSextet(text[3]))
    ensures Canonical(text) <==> text[3..] == "=" && SextetOf(text[2]) % 4 == 0
  {
    if |text| > 4 {
      assert text[..4][3] == text[3];
    }
  }

  // Against the encoder

  lemma QuadCanonical(a: Byte, b: Byte, c: Byte)
    ensures AllSextets(Quad(a, b, c)) && FinalQuantum(Quad(a, b, c))
  {
  }

  /** Every encoding of a non-empty byte string is canonical. */
  lemma {:induction false} EncodingCanonical(b: Bytes)
    requires b != []
    ensures Canonical(Encode(b))
    decreases |b|
  {
    if |b| >= 3 {
      QuadCanonical(b[0], b[1], b[2]);
      var q, rest := Quad(b[0], b[1], b[2]), Encode(b[3..]);
      if |b| == 3 {
        assert Encode(b) == q;
      } else {
        EncodingCanonical(b[3..]);
        assert (q + rest)[..4] == q && (q + rest)[4..] == rest;
      }
    }
  }

  function First(a: Sextet, b: Sextet): Byte {
    a * 4 + b / 16
  }

  function Second(b: Sextet, c: Sextet): Byte {
    (b % 16) * 16 + c / 4
  }

  function Third(c: Sextet, d: Sextet): Byte {
    (c % 4) * 64 + d
  }

  /** The bytes of a canonical text. */
  function Decode(t: string): (b: Bytes)
    requires Canonical(t)
    ensures b != []
  {
    var x, y := SextetOf(t[0]), SextetOf(t[1]);
    if |t| == 4 && t[2] == '=' then [First(x, y)]
    else
      var z := SextetOf(t[2]);
      if |t| == 4 && t[3] == '=' then [First(x, y), Second(y, z)]
      else
        var quantum := [First(x, y), Second(y, z), Third(z, SextetOf(t[3]))];
        if |t| == 4 then quantum else quantum + Decode(t[4..])
  }

  lemma QuadInverse(x: Sextet, y: Sextet, z: Sextet, w: Sextet)
    ensures Quad(First(x, y), Second(y, z), Third(z, w)) == [CharOf(x), CharOf(y), CharOf(z), CharOf(w)]
  {
    var a, b, c := First(x, y), Second(y, z), Third(z, w);
    assert a / 4 == x && a % 4 == y / 16;
    assert b / 16 == y % 16 && b % 16 == z / 4;
    assert c / 64 == z % 4 && c % 64 == w;
  }

  lemma OneByte(x: Sextet, y: Sextet)
    requires y % 16 == 0
    ensures First(x, y) / 4 == x && (First(x, y) % 4) * 16 == y
  {
  }

  lemma TwoBytes(x: Sextet, y: Sextet, z: Sextet)
    requires z % 4 == 0
    ensures First(x, y) / 4 == x && (First(x, y) % 4) * 16 + Second(y, z) / 16 == y && (Second(y, z) % 16) * 4 == z
  {
    var a, b := First(x, y), Second(y, z);
    assert a % 4 == y / 16 && b / 16 == y % 16 && b % 16 == z / 4;
  }

  lemma OneByteQuantum(t: string)
    requires |t| == 4 && FinalQuantum(t) && t[2] == '='
    ensures Encode(Decode(t)) == t
  {
    hide First, Second, Third, CharOf, SextetOf, Quad;
    CharOfSextet(t[0]);
    CharOfSextet(t[1]);
    OneByte(SextetOf(t[0]), SextetOf(t[1]));
    assert t == [t[0], t[1], '=', '='];
  }

  lemma TwoByteQuantum(t: string)
    requires |t| == 4 && FinalQuantum(t) && t[2] != '=' && t[3] == '='
    ensures Encode(Decode(t)) == t
  {
    hide First, Second, Third, CharOf, SextetOf, Quad;
    CharOfSextet(t[0]);
    CharOfSextet(t[1]);
    CharOfSextet(t[2]);
    TwoBytes(SextetOf(t[0]), SextetOf(t[1]), SextetOf(t[2]));
    assert t == [t[0], t[1], t[2], '='];
  }

  lemma ThreeByteQuantum(t: string)
    requires |t| == 4 && FinalQuantum(t) && t[2] != '=' && t[3] != '='
    ensures Encode(Decode(t)) == t
  {
    hide First, Second, Third, CharOf, SextetOf, Quad;
    CharOfSextet(t[0]);
    CharOfSextet(t[1]);
    CharOfSextet(t[2]);
    CharOfSextet(t[3]);
    QuadInverse(SextetOf(t[0]), SextetOf(t[1]), SextetOf(t[2]), SextetOf(t[3]));
    assert t == [t[0], t[1], t[2], t[3]];
    var b := Decode(t);
    assert b[3..] == [] && Encode(b) == Quad(b[0], b[1], b[2]) + Encode(b[3..]);
  }

  /** A final quantum is the encoding of its one, two or three bytes. */
  lemma QuantumInverse(t: string)
    requires |t| == 4 && FinalQuantum(t)
    ensures Encode(Decode(t)) == t
  {
    hide *;
    if t[2] == '=' {
      OneByteQuantum(t);
    } else if t[3] == '=' {
      TwoByteQuantum(t);
    } else {
      ThreeByteQuantum(t);
    }
  }

  /** Decoding a canonical text and encoding again gives back the text. */
  lemma {:induction false} DecodeInverse(t: string)
    requires Canonical(t)
    ensures Encode(Decode(t)) == t
    decreases |t|
  {
    hide First, Second, Third, SextetOf, CharOf;
    if |t| == 4 {
      QuantumInverse(t);
    } else {
      assert IsSextet(t[..4][0]) && IsSextet(t[..4][1]) && IsSextet(t[..4][2]) && IsSextet(t[..4][3]);
      CharOfSextet(t[0]);
      CharOfSextet(t[1]);
      CharOfSextet(t[2]);
      CharOfSextet(t[3]);
      QuadInverse(SextetOf(t[0]), SextetOf(t[1]), SextetOf(t[2]), SextetOf(t[3]));
      DecodeInverse(t[4..]);
      var quantum := [First(SextetOf(t[0]), SextetOf(t[1])), Second(SextetOf(t[1]), SextetOf(t[2])),
                      Third(SextetOf(t[2]), SextetOf(t[3]))];
      hide Quad;
      assert Decode(t) == quantum + Decode(t[4..]);
      assert (quantum + Decode(t[4..]))[3..] == Decode(t[4..]);
      assert t == [t[0], t[1], t[2], t[3]] + t[4..];
    }
  }

  ghost predicate IsEncoding(text: string) {
    exists b: Bytes :: b != [] && Encode(b) == text
  }

  /** The check accepts exactly the encodings of non-empty byte strings. */
  lemma AcceptsExactlyEncodings(text: string)
    ensures Accepts(text) <==> IsEncoding(text)
  {
    hide PushText;
    AcceptsCanonical(FRESH, text);
    if Canonical(text) {
      DecodeInverse(text);
      assert Decode(text) != [] && Encode(Decode(text)) == text;
    }
    if IsEncoding(text) {
      var b: Bytes :| b != [] && Encode(b) == text;
      EncodingCanonical(b);
    }
  }

  // The state object

  class DataImage {
    var characters: nat
    var padding: nat
    var lastSextet: Sextet

    ghost function State(): ImageState
      reads this
    {
      ImageState(characters, padding, lastSextet)
    }

    constructor ()
      ensures State() == FRESH
    {
      characters, padding, lastSextet := 0, 0, 0;
    }

    /** One character of the payload; a rejected one leaves an error, not a state. */
    method PushBase64Character(c: char) returns (ok: bool)
      modifies this
      ensures ok == PushCharacter(old(State()), c).Some?
      ensures ok ==> State() == PushCharacter(old(State()), c).value
    {
      if c == '=' {
        padding := padding + 1;
        return padding <= 2;
      }
      if !IsSextet(c) || padding != 0 {
        return false;
      }
      characters := characters + 1;
      lastSextet := SextetOf(c);
      return true;
    }

    method AssertCompleteBase64() returns (ok: bool)
      ensures ok == Complete(State())
    {
      if characters == 0
         || (padding == 0 && characters % 4 != 0)
         || (padding == 1 && (characters % 4 != 3 || lastSextet % 4 != 0))
         || (padding == 2 && (characters % 4 != 2 || lastSextet % 16 != 0)) {
        return false;
      }
      return true;
    }
  }
}
