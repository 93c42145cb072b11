/**
  The feed cursor: a sequence number as eight big-endian bytes in unpadded base64url (section 5 of
  RFC 4648) behind a version prefix.
*/
module SyncCursors {
  import opened Prelude

  const PREFIX := "v1."
  const CURSOR_BYTES: nat := 8
  const MAX_CURSOR_LENGTH := 64

  datatype CursorError = OutOfRange | Malformed

  // ---- Big-endian bytes ---------------------------------------------------------------------

  function Pow256(n: nat): nat { if n == 0 then 1 else 256 * Pow256(n - 1) }

  function ToBytes(v: nat, n: nat): Bytes
    requires v < Pow256(n)
  {
    if n == 0 then [] else ToBytes(v / 256, n - 1) + [(v % 256) as byte]
  }

  function FromBytes(b: Bytes): nat {
    if b == [] then 0 else FromBytes(b[..|b| - 1]) * 256 + b[|b| - 1] as nat
  }

  lemma {:induction false} BytesRoundTrip(v: nat, n: nat)
    requires v < Pow256(n)
    ensures |ToBytes(v, n)| == n && FromBytes(ToBytes(v, n)) == v
  {
    if n > 0 {
      BytesRoundTrip(v / 256, n - 1);
      assert ToBytes(v, n)[..n - 1] == ToBytes(v / 256, n - 1);
    }
  }

  lemma {:induction false} NumberRoundTrip(b: Bytes)
    ensures FromBytes(b) < Pow256(|b|) && ToBytes(FromBytes(b), |b|) == b
  {
    if b != [] {
      NumberRoundTrip(b[..|b| - 1]);
      assert b == b[..|b| - 1] + [b[|b| - 1]];
    }
  }

  // ---- Base64 -------------------------------------------------------------------------------

  type digit = d: int | 0 <= d < 64

  /** The URL-safe alphabet. */
  function Digit(d: digit): (c: char)
    ensures Made(c) && ValueOf(c) == d
  {
    if d < 26 then 'A' + d as char
    else if d < 52 then 'a' + (d - 26) as char
    else if d < 62 then '0' + (d - 52) as char
    else if d == 62 then '-' else '_'
  }

  /** The decoder maps the URL-safe letters to the standard ones and so accepts both. */
  predicate IsDigit(c: char) {
    'A' <= c <= 'Z' || 'a' <= c <= 'z' || '0' <= c <= '9' || c == '-' || c == '_' || c == '+' || c == '/'
  }

  /** A digit as the encoder writes it. */
  predicate Made(c: char) { IsDigit(c) && c != '+' && c != '/' }

  function ValueOf(c: char): digit
    requires IsDigit(c)
  {
    if 'A' <= c <= 'Z' then (c - 'A') as int
    else if 'a' <= c <= 'z' then (c - 'a') as int + 26
    else if '0' <= c <= '9' then (c - '0') as int + 52
    else if c == '-' || c == '+' then 62 else 63
  }

  lemma DigitOfValue(c: char)
    requires Made(c)
    ensures Digit(ValueOf(c)) == c
  {}

  // The four digits of three bytes and the three bytes of four digits.

  function P(x: byte): digit { x as int / 4 }
  function Q(x: byte, y: byte): digit { x as int % 4 * 16 + y as int / 16 }
  function R(y: byte, z: byte): digit { y as int % 16 * 4 + z as int / 64 }
  function T(z: byte): digit { z as int % 64 }

  function X(p: digit, q: digit): byte { (p * 4 + q / 16) as byte }
  function Y(q: digit, r: digit): byte { (q % 16 * 16 + r / 4) as byte }
  function Z(r: digit, t: digit): byte { (r % 4 * 64 + t) as byte }

  lemma BytesOfDigits(x: byte, y: byte, z: byte)
    ensures X(P(x), Q(x, y)) == x && Y(Q(x, y), R(y, z)) == y && Z(R(y, z), T(z)) == z
    ensures R(y, 0) % 4 == 0
  {}

  lemma DigitsOfBytes(p: digit, q: digit, r: digit, t: digit)
    ensures P(X(p, q)) == p && Q(X(p, q), Y(q, r)) == q && R(Y(q, r), Z(r, t)) == r && T(Z(r, t)) == t
    ensures r % 4 == 0 ==> R(Y(q, r), 0) == r
  {}

  /** The digits for three bytes. */
  function Group(x: byte, y: byte, z: byte): string {
    [Digit(P(x)), Digit(Q(x, y)), Digit(R(y, z)), Digit(T(z))]
  }

  /** Four digits for three bytes, padded at the end. */
  function Base64Encode(b: Bytes): string {
    if b == [] then ""
    else if |b| == 1 then Group(b[0], 0, 0)[..2] + "=="
    else if |b| == 2 then Group(b[0], b[1], 0)[..3] + "="
    else Group(b[0], b[1], b[2]) + Base64Encode(b[3..])
  }

  predicate FourDigits(s: string) {
    |s| >= 4 && IsDigit(s[0]) && IsDigit(s[1]) && IsDigit(s[2]) && IsDigit(s[3])
  }

  /** Strict decoding: padding only where it ends the text; bits left over at the end are ignored. */
  function Base64Decode(s: string): Option<Bytes> {
    if s == "" then Some([])
    else if FourDigits(s) then
      var p, q, r, t := ValueOf(s[0]), ValueOf(s[1]), ValueOf(s[2]), ValueOf(s[3]);
      var rest := Base64Decode(s[4..]);
      if rest.None? then None else Some([X(p, q), Y(q, r), Z(r, t)] + rest.value)
    else if |s| == 4 && IsDigit(s[0]) && IsDigit(s[1]) && IsDigit(s[2]) && s[3] == '=' then
      var p, q, r := ValueOf(s[0]), ValueOf(s[1]), ValueOf(s[2]);
      Some([X(p, q), Y(q, r)])
    else if |s| == 4 && IsDigit(s[0]) && IsDigit(s[1]) && s[2] == '=' && s[3] == '=' then
      Some([X(ValueOf(s[0]), ValueOf(s[1]))])
    else None
  }

  lemma {:induction false} Base64RoundTrip(b: Bytes)
    ensures Base64Decode(Base64Encode(b)) == Some(b)
  {
    hide P, Q, R, T, X, Y, Z, Digit, ValueOf;
    if |b| == 1 {
      BytesOfDigits(b[0], 0, 0);
      assert b == [b[0]];
    } else if |b| == 2 {
      BytesOfDigits(b[0], b[1], 0);
      assert b == [b[0], b[1]];
    } else if |b| > 2 {
      var s := Base64Encode(b);
      BytesOfDigits(b[0], b[1], b[2]);
      Base64RoundTrip(b[3..]);
      assert s[4..] == Base64Encode(b[3..]);
      assert b == [b[0], b[1], b[2]] + b[3..];
    }
  }

  // ---- The cursor ---------------------------------------------------------------------------

  function StripRight(s: string, c: char): string {
    if s != "" && s[|s| - 1] == c then StripRight(s[..|s| - 1], c) else s
  }

  function EncodeSyncCursor(sequence: int): Result<string, CursorError> {
    if sequence < 0 || sequence > U64_MAX then Err(OutOfRange)
    else
      U64Bytes(sequence);
      Ok(PREFIX + StripRight(Base64Encode(ToBytes(sequence, CURSOR_BYTES)), '='))
  }

  lemma U64Bytes(v: int)
    ensures Pow256(CURSOR_BYTES) == U64_MAX + 1
  {
    assert Pow256(4) == 256 * (256 * (256 * (256 * Pow256(0))));
    assert Pow256(8) == 256 * (256 * (256 * (256 * Pow256(4))));
  }

  function Padding(n: nat): string {
    if n % 4 == 0 then "" else if n % 4 == 1 then "===" else if n % 4 == 2 then "==" else "="
  }

  function DecodeSyncCursor(cursor: Option<string>): Result<nat, CursorError> {
    if cursor.None? || cursor.value == "" then Ok(0)
    else if |cursor.value| > MAX_CURSOR_LENGTH || !(PREFIX <= cursor.value) then Err(Malformed)
    else
      var encoded := cursor.value[|PREFIX|..];
      if encoded == "" then Err(Malformed)
      else
        var payload := Base64Decode(encoded + Padding(|encoded|));
        if payload.None? || |payload.value| != CURSOR_BYTES then Err(Malformed)
        else Ok(FromBytes(payload.value))
  }

  /** Eight bytes take eleven digits, the last without stray bits, and one padding sign. */
  lemma EightBytes(b: Bytes)
    requires |b| == 8
    ensures |Base64Encode(b)| == 12 && Base64Encode(b)[11] == '='
    ensures forall i :: 0 <= i < 11 ==> Made(Base64Encode(b)[i])
    ensures Made(Base64Encode(b)[10]) && ValueOf(Base64Encode(b)[10]) % 4 == 0
  {
    hide P, Q, R, T, Digit, ValueOf;
    var c, d := b[3..], b[6..];
    BytesOfDigits(0, d[1], 0);
    assert c[3..] == d;
    assert Base64Encode(b) == Group(b[0], b[1], b[2]) + (Group(c[0], c[1], c[2]) + Base64Encode(d));
  }

  /** The cursor of eight bytes. */
  lemma EncodedBytes(b: Bytes)
    requires |b| == 8
    ensures FromBytes(b) <= U64_MAX && |Base64Encode(b)| == 12
    ensures Base64Encode(b) == Base64Encode(b)[..11] + "="
    ensures EncodeSyncCursor(FromBytes(b)) == Ok(PREFIX + Base64Encode(b)[..11])
  {
    NumberRoundTrip(b);
    EightBytes(b);
    U64Bytes(FromBytes(b));
    var s := Base64Encode(b);
    assert s[..11] + "=" == s;
    assert s[..11][10] == s[10];
    assert StripRight(s, '=') == s[..11];
  }

  /** Every sequence number below 2^64, and no other, survives the trip. */
  lemma CursorRoundTrip(sequence: int)
    ensures EncodeSyncCursor(sequence).Ok? <==> 0 <= sequence <= U64_MAX
    ensures 0 <= sequence <= U64_MAX ==>
              DecodeSyncCursor(Some(EncodeSyncCursor(sequence).value)) == Ok(sequence)
  {
    if 0 <= sequence <= U64_MAX {
      U64Bytes(sequence);
      BytesRoundTrip(sequence, CURSOR_BYTES);
      BytesTravel(ToBytes(sequence, CURSOR_BYTES));
    }
  }

  lemma BytesTravel(b: Bytes)
    requires |b| == 8
    ensures EncodeSyncCursor(FromBytes(b)).Ok?
    ensures DecodeSyncCursor(Some(EncodeSyncCursor(FromBytes(b)).value)) == Ok(FromBytes(b))
  {
    hide FromBytes, EncodeSyncCursor, Base64Encode, Base64Decode;
    EncodedBytes(b);
    Base64RoundTrip(b);
    var text := Base64Encode(b)[..11];
    assert (PREFIX + text)[|PREFIX|..] == text;
  }

  // ---- What a cursor looks like -------------------------------------------------------------

  const UPPER := "ABCDEFGHIJKLMNOPQRSTUVWXYZ"
  const LOWER := "abcdefghijklmnopqrstuvwxyz"
  const OTHERS := "0123456789-_"
  const ALPHABET := UPPER + LOWER + OTHERS

  lemma UpperIs(i: nat)
    requires i < 26
    ensures |UPPER| == 26 && UPPER[i] == 'A' + i as char
  {}

  lemma LowerIs(i: nat)
    requires i < 26
    ensures |LOWER| == 26 && LOWER[i] == 'a' + i as char
  {}

  lemma OthersAre(i: nat)
    requires i < 12
    ensures |OTHERS| == 12 && OTHERS[i] == if i < 10 then '0' + i as char else if i == 10 then '-' else '_'
  {}

  lemma DigitIs(d: digit)
    ensures |ALPHABET| == 64 && Digit(d) == ALPHABET[d]
  {
    UpperIs(if d < 26 then d else 0);
    LowerIs(if 26 <= d < 52 then d - 26 else 0);
    OthersAre(if d < 52 then 0 else d - 52);
    LettersAre(d);
  }

  lemma LettersAre(i: nat)
    requires |UPPER| == 26 && |LOWER| == 26 && |OTHERS| == 12 && i < 64
    ensures |ALPHABET| == 64
    ensures ALPHABET[i] == if i < 26 then UPPER[i] else if i < 52 then LOWER[i - 26] else OTHERS[i - 52]
  {}

  /** The decoder reads each letter as its place in the alphabet, and takes the two standard letters as well. */
  lemma LettersRead(c: char)
    ensures IsDigit(c) <==> c in ALPHABET || c == '+' || c == '/'
    ensures IsDigit(c) ==> c == if c == '+' || c == '/' then c else ALPHABET[ValueOf(c)]
    ensures ValueOf('+') == 62 && ValueOf('/') == 63
  {
    if Made(c) {
      DigitIs(ValueOf(c));
      DigitOfValue(c);
      assert c == ALPHABET[ValueOf(c)];
    }
    if c in ALPHABET {
      var i :| 0 <= i < |ALPHABET| && ALPHABET[i] == c;
      DigitIs(i);
    }
  }

  function Numeral(digits: seq<nat>): nat {
    if digits == [] then 0 else Numeral(digits[..|digits| - 1]) * 64 + digits[|digits| - 1]
  }

  lemma NumeralAppend(a: seq<nat>, p: nat)
    ensures Numeral(a + [p]) == Numeral(a) * 64 + p
  {
    assert (a + [p])[..|a|] == a;
  }

  lemma NumeralOfThree(a: seq<nat>, p: nat, q: nat, r: nat)
    ensures Numeral(a + [p, q, r]) == Numeral(a) * 0x4_0000 + (p * 64 + q) * 64 + r
  {
    hide Numeral;
    NumeralAppend(a, p);
    NumeralAppend(a + [p], q);
    NumeralAppend(a + [p] + [q], r);
    assert a + [p] + [q] + [r] == a + [p, q, r];
  }

  lemma NumeralOfFour(a: seq<nat>, p: nat, q: nat, r: nat, t: nat)
    ensures Numeral(a + [p, q, r, t]) == Numeral(a) * 0x100_0000 + ((p * 64 + q) * 64 + r) * 64 + t
  {
    hide Numeral;
    NumeralOfThree(a, p, q, r);
    NumeralAppend(a + [p, q, r], t);
    assert a + [p, q, r] + [t] == a + [p, q, r, t];
  }

  /** Three bytes are one number, and so are their four digits. */
  lemma GroupIsNumber(x: byte, y: byte, z: byte)
    ensures ((P(x) * 64 + Q(x, y)) * 64 + R(y, z)) * 64 + T(z) == x as int * 0x1_0000 + y as int * 0x100 + z as int
  {}

  lemma LastByte(b: Bytes, n: nat)
    requires n < |b|
    ensures FromBytes(b[..n + 1]) == FromBytes(b[..n]) * 0x100 + b[n] as nat
  {
    assert b[..n + 1][..n] == b[..n];
  }

  lemma ThreeBytes(b: Bytes, n: nat)
    requires n + 3 <= |b|
    ensures FromBytes(b[..n + 3])
         == FromBytes(b[..n]) * 0x100_0000 + b[n] as nat * 0x1_0000 + b[n + 1] as nat * 0x100 + b[n + 2] as nat
  {
    hide FromBytes;
    LastByte(b, n);
    LastByte(b, n + 1);
    LastByte(b, n + 2);
  }

  /**
    A cursor is "v1." and eleven letters of the URL-safe alphabet (section 5 of RFC 4648): the
    sequence number as a numeral to the base of 64, with two zero bits after it.
  */
  lemma CursorIsNumeral(sequence: nat) returns (digits: seq<nat>)
    requires sequence <= U64_MAX
    ensures |digits| == 11 && Numeral(digits) == 4 * sequence
    ensures forall i :: 0 <= i < 11 ==> digits[i] < 64
    ensures var cursor := EncodeSyncCursor(sequence).value;
            && |cursor| == 14 && cursor[..3] == "v1."
            && forall i :: 0 <= i < 11 ==> cursor[3 + i] == ALPHABET[digits[i]]
  {
    hide P, Q, R, T, Digit, FromBytes, Base64Encode, Numeral, Group, EncodeSyncCursor, Pow256, ToBytes;
    U64Bytes(sequence);
    BytesRoundTrip(sequence, CURSOR_BYTES);
    var b := ToBytes(sequence, CURSOR_BYTES);
    EncodedBytes(b);
    digits := [P(b[0]), Q(b[0], b[1]), R(b[1], b[2]), T(b[2]), P(b[3]), Q(b[3], b[4]), R(b[4], b[5]), T(b[5]),
               P(b[6]), Q(b[6], b[7]), R(b[7], 0)];
    EightBytesText(b);
    EightBytesNumeral(b);
  }

  /** The eleven digits of eight bytes. */
  lemma EightBytesText(b: Bytes)
    requires |b| == 8
    ensures var digits := [P(b[0]), Q(b[0], b[1]), R(b[1], b[2]), T(b[2]),
                           P(b[3]), Q(b[3], b[4]), R(b[4], b[5]), T(b[5]),
                           P(b[6]), Q(b[6], b[7]), R(b[7], 0)];
            |Base64Encode(b)| == 12 && forall i :: 0 <= i < 11 ==> Base64Encode(b)[i] == ALPHABET[digits[i]]
  {
    hide P, Q, R, T, Group;
    var c, d := b[3..], b[6..];
    assert c[3..] == d && d == [b[6], b[7]];
    assert Base64Encode(c) == Group(b[3], b[4], b[5]) + Base64Encode(d);
    GroupLetters(b[0], b[1], b[2]);
    GroupLetters(b[3], b[4], b[5]);
    GroupLetters(b[6], b[7], 0);
  }

  lemma GroupLetters(x: byte, y: byte, z: byte)
    ensures Group(x, y, z) == [ALPHABET[P(x)], ALPHABET[Q(x, y)], ALPHABET[R(y, z)], ALPHABET[T(z)]]
  {
    hide P, Q, R, T;
    forall d: digit ensures Digit(d) == ALPHABET[d] {
      DigitIs(d);
    }
  }

  lemma EightBytesNumeral(b: Bytes)
    requires |b| == 8
    ensures Numeral([P(b[0]), Q(b[0], b[1]), R(b[1], b[2]), T(b[2]), P(b[3]), Q(b[3], b[4]), R(b[4], b[5]), T(b[5]),
                     P(b[6]), Q(b[6], b[7]), R(b[7], 0)])
         == 4 * FromBytes(b)
  {
    hide P, Q, R, T, FromBytes, Numeral;
    GroupIsNumber(b[0], b[1], b[2]);
    GroupIsNumber(b[3], b[4], b[5]);
    GroupIsNumber(b[6], b[7], 0);
    NumeralOfEleven(P(b[0]), Q(b[0], b[1]), R(b[1], b[2]), T(b[2]), P(b[3]), Q(b[3], b[4]), R(b[4], b[5]), T(b[5]),
                    P(b[6]), Q(b[6], b[7]), R(b[7], 0));
    NumberOfEight(b);
    LastDigit();
  }

  lemma LastDigit()
    ensures T(0) == 0
  {}

  lemma NoDigits()
    ensures Numeral([]) == 0
  {}

  lemma NoBytes(b: Bytes)
    ensures FromBytes(b[..0]) == 0
  {}

  lemma NumeralOfEleven(p: nat, q: nat, r: nat, t: nat, p': nat, q': nat, r': nat, t': nat,
                        p'': nat, q'': nat, r'': nat)
    ensures Numeral([p, q, r, t, p', q', r', t', p'', q'', r''])
         == ((((p * 64 + q) * 64 + r) * 64 + t) * 0x100_0000 + ((p' * 64 + q') * 64 + r') * 64 + t') * 0x4_0000
            + (p'' * 64 + q'') * 64 + r''
  {
    hide Numeral;
    var first, next := [p, q, r, t], [p', q', r', t'];
    NumeralOfFour([], p, q, r, t);
    NumeralOfFour(first, p', q', r', t');
    NumeralOfThree(first + next, p'', q'', r'');
    assert [] + first == first;
    assert first + next + [p'', q'', r''] == [p, q, r, t, p', q', r', t', p'', q'', r''];
    NoDigits();
  }

  lemma NumberOfEight(b: Bytes)
    requires |b| == 8
    ensures FromBytes(b)
         == ((b[0] as nat * 0x1_0000 + b[1] as nat * 0x100 + b[2] as nat) * 0x100_0000
             + b[3] as nat * 0x1_0000 + b[4] as nat * 0x100 + b[5] as nat) * 0x1_0000
            + b[6] as nat * 0x100 + b[7] as nat
  {
    hide FromBytes;
    ThreeBytes(b, 0);
    ThreeBytes(b, 3);
    LastByte(b, 6);
    LastByte(b, 7);
    assert b[..8] == b;
    NoBytes(b);
  }

  // ---- What the decoder accepts -------------------------------------------------------------

  /** Eleven digits of either alphabet behind the prefix, with or without the padding sign. */
  predicate WellFormed(cursor: string) {
    && (|cursor| == 14 || (|cursor| == 15 && cursor[14] == '='))
    && PREFIX <= cursor
    && forall i :: 3 <= i < 14 ==> IsDigit(cursor[i])
  }

  /** All digits but for the padding sign at the end. */
  predicate PaddedOnce(s: string) {
    |s| > 0 && |s| % 4 == 0 && s[|s| - 1] == '=' && forall i :: 0 <= i < |s| - 1 ==> IsDigit(s[i])
  }

  /** Two bytes beyond the full groups are what one padding sign stands for. */
  lemma {:induction false} DecodedLength(s: string)
    requires Base64Decode(s).Some?
    ensures |s| % 4 == 0
    ensures |s| / 4 * 3 - 2 <= |Base64Decode(s).value| <= |s| / 4 * 3
    ensures |Base64Decode(s).value| == |s| / 4 * 3 - 1 ==> PaddedOnce(s)
  {
    if FourDigits(s) {
      DecodedLength(s[4..]);
    }
  }

  lemma {:induction false} DigitsDecode(s: string)
    requires PaddedOnce(s)
    ensures Base64Decode(s).Some? && |Base64Decode(s).value| == |s| / 4 * 3 - 1
  {
    if |s| > 4 {
      DigitsDecode(s[4..]);
    }
  }

  /** The decoder accepts no cursor at all, the empty one, and exactly the well-formed ones. */
  lemma DecoderAccepts(cursor: string)
    ensures DecodeSyncCursor(None) == DecodeSyncCursor(Some("")) == Ok(0)
    ensures DecodeSyncCursor(Some(cursor)).Ok? <==> cursor == "" || WellFormed(cursor)
  {
    if PREFIX <= cursor && |cursor| > |PREFIX| {
      if WellFormed(cursor) {
        WellFormedText(cursor);
        DigitsDecode(cursor[3..14] + "=");
      }
      if DecodeSyncCursor(Some(cursor)).Ok? {
        AcceptedIsWellFormed(cursor);
      }
    }
  }

  lemma WellFormedText(cursor: string)
    requires WellFormed(cursor)
    ensures cursor[3..] + Padding(|cursor[3..]|) == cursor[3..14] + "=" && PaddedOnce(cursor[3..14] + "=")
  {}

  lemma AcceptedIsWellFormed(cursor: string)
    requires cursor != "" && DecodeSyncCursor(Some(cursor)).Ok?
    ensures WellFormed(cursor)
  {
    hide Base64Decode, FromBytes;
    var encoded := cursor[3..];
    var padded := encoded + Padding(|encoded|);
    DecodedLength(padded);
    assert |padded| == 12 && IsDigit(padded[10]);
    assert forall i :: 3 <= i < |cursor| ==> cursor[i] == padded[i - 3];
  }

  /** The spelling the encoder uses: no padding sign, URL-safe letters, no stray bits. */
  predicate Canonical(cursor: string)
    requires WellFormed(cursor)
  {
    |cursor| == 14 && ValueOf(cursor[13]) % 4 == 0 && forall i :: 3 <= i < 14 ==> Made(cursor[i])
  }

  /** Of the spellings of a number that the decoder accepts only the canonical one is the encoder's. */
  lemma CanonicalIff(cursor: string)
    requires WellFormed(cursor)
    ensures DecodeSyncCursor(Some(cursor)).Ok? && DecodeSyncCursor(Some(cursor)).value <= U64_MAX
    ensures EncodeSyncCursor(DecodeSyncCursor(Some(cursor)).value) == Ok(cursor) <==> Canonical(cursor)
  {
    hide Base64Encode, Base64Decode, FromBytes, EncodeSyncCursor, DecodeSyncCursor;
    var b := DecodedBytes(cursor);
    EncodedBytes(b);
    EncodedIsCanonical(b);
    if Canonical(cursor) {
      CanonicalText(cursor[3..14] + "=");
      assert cursor == PREFIX + (cursor[3..14] + "=")[..11];
    }
  }

  /** The eight bytes a well-formed cursor stands for. */
  lemma DecodedBytes(cursor: string) returns (b: Bytes)
    requires WellFormed(cursor)
    ensures |b| == 8 && DecodeSyncCursor(Some(cursor)) == Ok(FromBytes(b))
    ensures Base64Decode(cursor[3..14] + "=") == Some(b)
  {
    hide Base64Decode, FromBytes;
    WellFormedText(cursor);
    DigitsDecode(cursor[3..14] + "=");
    b := Base64Decode(cursor[3..14] + "=").value;
  }

  /** What the encoder makes of eight bytes is canonical. */
  lemma EncodedIsCanonical(b: Bytes)
    requires |b| == 8
    ensures |Base64Encode(b)| == 12
    ensures WellFormed(PREFIX + Base64Encode(b)[..11]) && Canonical(PREFIX + Base64Encode(b)[..11])
  {
    hide Base64Encode, ValueOf;
    EightBytes(b);
    var s := Base64Encode(b);
    var cursor := PREFIX + s[..11];
    assert forall i :: 3 <= i < 14 ==> cursor[i] == s[i - 3];
  }

  /** Text of encoder's digits without stray bits is what its bytes encode to. */
  lemma {:induction false} CanonicalText(s: string)
    requires PaddedOnce(s) && forall i :: 0 <= i < |s| - 1 ==> Made(s[i])
    requires Made(s[|s| - 2]) && ValueOf(s[|s| - 2]) % 4 == 0
    ensures Base64Decode(s).Some? && Base64Encode(Base64Decode(s).value) == s
  {
    hide P, Q, R, T, X, Y, Z, Digit, ValueOf;
    if |s| > 4 {
      CanonicalText(s[4..]);
      DigitsDecode(s[4..]);
      GroupText(s[0], s[1], s[2], s[3]);
      var b := Base64Decode(s).value;
      assert b[3..] == Base64Decode(s[4..]).value;
      assert s == [s[0], s[1], s[2], s[3]] + s[4..];
    } else {
      LastGroupText(s[0], s[1], s[2]);
      assert s == [s[0], s[1], s[2]] + "=";
    }
  }

  lemma GroupText(p: char, q: char, r: char, t: char)
    requires Made(p) && Made(q) && Made(r) && Made(t)
    ensures Group(X(ValueOf(p), ValueOf(q)), Y(ValueOf(q), ValueOf(r)), Z(ValueOf(r), ValueOf(t))) == [p, q, r, t]
  {
    hide P, Q, R, T, X, Y, Z, Digit, ValueOf;
    DigitsOfBytes(ValueOf(p), ValueOf(q), ValueOf(r), ValueOf(t));
    DigitOfValue(p);
    DigitOfValue(q);
    DigitOfValue(r);
    DigitOfValue(t);
  }

  lemma LastGroupText(p: char, q: char, r: char)
    requires Made(p) && Made(q) && Made(r) && ValueOf(r) % 4 == 0
    ensures Group(X(ValueOf(p), ValueOf(q)), Y(ValueOf(q), ValueOf(r)), 0)[..3] == [p, q, r]
  {
    hide P, Q, R, T, X, Y, Z, Digit, ValueOf;
    DigitsOfBytes(ValueOf(p), ValueOf(q), ValueOf(r), 0);
    DigitOfValue(p);
    DigitOfValue(q);
    DigitOfValue(r);
  }
}
