/** The cipher and encoder branches of the crypto playground
    (`components/crypto-playground.tsx`): Caesar and ROT13, Vigenère, and the hex and
    binary text encoders with their decoders. */
module CryptoPlayground {
  import opened Results
  import opened Digits
  import opened JsText
  import opened Bytes
  import opened RadixText

  // ---------------------------------------------------------------- Caesar

  /** JavaScript's integer quotient, truncated toward zero. */
  function JsQuot(a: int, b: int): int
    requires b > 0
  {
    if a >= 0 then a / b else -((-a) / b)
  }

  /** JavaScript's `%`: the remainder of the truncated quotient, with the dividend's sign. */
  function JsRem(a: int, b: int): (r: int)
    requires b > 0
    ensures -b < r < b
    ensures a >= 0 ==> r >= 0
    ensures a < 0 ==> r <= 0
    ensures a == JsQuot(a, b) * b + r
  {
    if a >= 0 then
      DivMod(a, b);
      a % b
    else
      DivMod(-a, b);
      -((-a) % b)
  }

  lemma DivMod(n: nat, b: int)
    requires b > 0
    ensures n == (n / b) * b + n % b
  {
  }

  /** The letter offset `((x + shift) % 26 + 26) % 26` of the source: with JavaScript's `%`
      this is the mathematical residue of `x + shift`, whatever the sign of the shift. */
  lemma JsResidue(a: int)
    ensures JsRem(JsRem(a, 26) + 26, 26) == a % 26
  {
    var r := JsRem(a, 26);
    var q := JsQuot(a, 26);
    assert a == (q - 1) * 26 + (r + 26);
    ModShift(r + 26, q - 1);
  }

  /** Adding multiples of 26 keeps the residue. */
  lemma ModShift(y: int, q: int)
    ensures (q * 26 + y) % 26 == y % 26
  {
  }

  /** The code of the first letter of a letter's alphabet: 65 for `char <= "Z"`, else 97. */
  function Base(c: char): int
  {
    if c <= 'Z' then 65 else 97
  }

  /** One letter of `caesarCipher`. */
  function ShiftLetter(c: char, shift: int): (d: char)
    requires IsAsciiLetter(c)
    ensures IsAsciiLetter(d) && IsAsciiUpper(d) == IsAsciiUpper(c)
    ensures d as int - Base(c) == (c as int - Base(c) + shift) % 26
  {
    var a := c as int - Base(c) + shift;
    JsResidue(a);
    (JsRem(JsRem(a, 26) + 26, 26) + Base(c)) as char
  }

  /** `str.replace(/[a-zA-Z]/g, ...)`: each ASCII letter shifted, everything else kept. */
  function Caesar(s: string, shift: int): (r: string)
    ensures |r| == |s|
    ensures forall i :: 0 <= i < |s| && !IsAsciiLetter(s[i]) ==> r[i] == s[i]
    ensures forall i :: 0 <= i < |s| && IsAsciiLetter(s[i]) ==>
              IsAsciiLetter(r[i]) && IsAsciiUpper(r[i]) == IsAsciiUpper(s[i])
              && r[i] as int - Base(s[i]) == (s[i] as int - Base(s[i]) + shift) % 26
  {
    seq(|s|, i requires 0 <= i < |s| => if IsAsciiLetter(s[i]) then ShiftLetter(s[i], shift) else s[i])
  }

  /** Shifting back by the same amount restores every letter. */
  lemma ShiftBack(c: char, shift: int)
    requires IsAsciiLetter(c)
    ensures ShiftLetter(ShiftLetter(c, shift), -shift) == c
  {
    var d := ShiftLetter(c, shift);
    assert Base(d) == Base(c);
    var x := c as int - Base(c);
    ResidueBack(x, shift);
    assert d as int - Base(d) == (x + shift) % 26;
    assert ShiftLetter(d, -shift) as int == c as int;
  }

  /** Subtracting the shift from the shifted residue gives the offset back. */
  lemma ResidueBack(x: int, shift: int)
    requires 0 <= x < 26
    ensures ((x + shift) % 26 + -shift) % 26 == x
  {
    var q := (x + shift) / 26;
    assert (x + shift) % 26 + -shift == (-q) * 26 + x;
    ModShift(x, -q);
  }

  /** Caesar decoding, which shifts by `-shift`, undoes encoding. */
  lemma CaesarRoundTrip(s: string, shift: int)
    ensures Caesar(Caesar(s, shift), -shift) == s
  {
    var e := Caesar(s, shift);
    forall i | 0 <= i < |s|
      ensures Caesar(e, -shift)[i] == s[i]
    {
      if IsAsciiLetter(s[i]) {
        ShiftBack(s[i], shift);
      }
    }
  }

  /** ROT13, applied in both modes, is its own inverse. */
  lemma Rot13Involution(s: string)
    ensures Caesar(Caesar(s, 13), 13) == s
  {
    var e := Caesar(s, 13);
    assert Caesar(e, 13) == Caesar(e, -13) by {
      forall i | 0 <= i < |e|
        ensures Caesar(e, 13)[i] == Caesar(e, -13)[i]
      {
        if IsAsciiLetter(e[i]) {
          ShiftPeriod(e[i], 13, -13);
        }
      }
    }
    CaesarRoundTrip(s, 13);
  }

  lemma ShiftPeriod(c: char, a: int, b: int)
    requires IsAsciiLetter(c) && (a - b) % 26 == 0
    ensures ShiftLetter(c, a) == ShiftLetter(c, b)
  {
    var x := c as int - Base(c);
    var q := (a - b) / 26;
    assert x + a == q * 26 + (x + b);
    ModShift(x + b, q);
  }

  /** `parseInt(cipherKey) || 0`: the key's number, or 0 when it is not a number. */
  function CaesarShift(key: string): int
  {
    match ParseInt(Utf16(key), 0)
    case Some(v) => v
    case None => 0
  }

  /** A key that is not a number leaves the text as it is. */
  lemma NonNumericKey(s: string, key: string)
    requires ParseInt(Utf16(key), 0).None?
    ensures Caesar(s, CaesarShift(key)) == s
  {
    assert CaesarShift(key) == 0;
    CaesarZero(s);
  }

  lemma CaesarZero(s: string)
    ensures Caesar(s, 0) == s
  {
    forall i | 0 <= i < |s| && IsAsciiLetter(s[i])
      ensures Caesar(s, 0)[i] == s[i]
    {
      assert Base(s[i]) <= s[i] as int < Base(s[i]) + 26;
    }
  }

  // ---------------------------------------------------------------- Vigenère

  /** `key.toUpperCase().replace(/[^A-Z]/g, "")` under ASCII case mapping: the key's ASCII
      letters, upper-cased. */
  function KeyLetters(key: string): (k: string)
    ensures |k| <= |key|
    ensures forall i :: 0 <= i < |k| ==> IsAsciiUpper(k[i])
    ensures |k| == 0 <==> forall i :: 0 <= i < |key| ==> !IsAsciiLetter(key[i])
  {
    if |key| == 0 then ""
    else
      var c := UpperChar(key[0]);
      var rest := KeyLetters(key[1..]);
      assert forall i :: 1 <= i < |key| ==> key[i] == key[1..][i - 1];
      if IsAsciiUpper(c) then [c] + rest else rest
  }

  /** One letter of `vigenereCipher`. */
  function VigenereLetter(c: char, shift: nat, encrypt: bool): (d: char)
    requires IsAsciiLetter(c) && shift < 26
    ensures IsAsciiLetter(d) && IsAsciiUpper(d) == IsAsciiUpper(c)
  {
    var code := c as int - Base(c);
    (if encrypt then (code + shift) % 26 + Base(c) else (code - shift + 26) % 26 + Base(c)) as char
  }

  /** The loop of `vigenereCipher` from key position `ki` on: each letter is shifted by the
      key letter at `ki` and advances `ki`; any other character is copied. */
  function VigenereFrom(s: string, keyLetters: string, ki: nat, encrypt: bool): (r: string)
    requires |keyLetters| > 0 && forall i :: 0 <= i < |keyLetters| ==> IsAsciiUpper(keyLetters[i])
    ensures |r| == |s|
    decreases |s|
  {
    if |s| == 0 then ""
    else
      var c := s[0];
      var rest := VigenereFrom(s[1..], keyLetters, if IsAsciiLetter(c) then ki + 1 else ki, encrypt);
      assert forall i :: 1 <= i < |s| ==> s[i] == s[1..][i - 1];
      if IsAsciiLetter(c) then
        var k := keyLetters[ki % |keyLetters|];
        assert IsAsciiUpper(k);
        [VigenereLetter(c, k as int - 65, encrypt)] + rest
      else [c] + rest
  }

  /** `vigenereCipher(str, key, encrypt)`: the text unchanged when the key has no ASCII
      letters. */
  function Vigenere(s: string, key: string, encrypt: bool): (r: string)
    ensures |r| == |s|
    ensures forall i :: 0 <= i < |s| ==> if IsAsciiLetter(s[i]) then IsAsciiLetter(r[i]) else r[i] == s[i]
    ensures (forall i :: 0 <= i < |key| ==> !IsAsciiLetter(key[i])) ==> r == s
  {
    if key == "" then s
    else
      var k := KeyLetters(key);
      if k == "" then s
      else
        VigenereShape(s, k, 0, encrypt);
        VigenereFrom(s, k, 0, encrypt)
  }

  /** Letters stay letters and everything else is copied. */
  lemma VigenereShape(s: string, keyLetters: string, ki: nat, encrypt: bool)
    requires |keyLetters| > 0 && forall j :: 0 <= j < |keyLetters| ==> IsAsciiUpper(keyLetters[j])
    ensures forall i :: 0 <= i < |s| ==>
              if IsAsciiLetter(s[i]) then IsAsciiLetter(VigenereFrom(s, keyLetters, ki, encrypt)[i])
              else VigenereFrom(s, keyLetters, ki, encrypt)[i] == s[i]
  {
    forall i | 0 <= i < |s|
      ensures if IsAsciiLetter(s[i]) then IsAsciiLetter(VigenereFrom(s, keyLetters, ki, encrypt)[i])
              else VigenereFrom(s, keyLetters, ki, encrypt)[i] == s[i]
    {
      VigenereKeyed(s, keyLetters, ki, encrypt, i);
    }
  }

  /** How many ASCII letters `s[..n]` holds: the key index when the loop reaches `n`. */
  function LettersBefore(s: string, n: nat): (m: nat)
    requires n <= |s|
    ensures m <= n
  {
    if n == 0 then 0 else LettersBefore(s, n - 1) + (if IsAsciiLetter(s[n - 1]) then 1 else 0)
  }

  /** What the loop writes for character `c` when the key index has reached `idx`. */
  function KeyedLetter(c: char, keyLetters: string, idx: nat, encrypt: bool): (d: char)
    requires |keyLetters| > 0 && forall j :: 0 <= j < |keyLetters| ==> IsAsciiUpper(keyLetters[j])
  {
    var k := keyLetters[idx % |keyLetters|];
    assert IsAsciiUpper(k);
    if IsAsciiLetter(c) then VigenereLetter(c, k as int - 65, encrypt) else c
  }

  /** Character by character: a letter at position i is shifted by the key letter whose
      index is the number of letters before it; any other character is copied. */
  lemma VigenereAt(s: string, keyLetters: string, ki: nat, encrypt: bool, i: nat)
    requires |keyLetters| > 0 && forall j :: 0 <= j < |keyLetters| ==> IsAsciiUpper(keyLetters[j])
    requires i < |s|
    ensures IsAsciiLetter(s[i]) ==>
              VigenereFrom(s, keyLetters, ki, encrypt)[i]
              == VigenereLetter(s[i], keyLetters[(ki + LettersBefore(s, i)) % |keyLetters|] as int - 65, encrypt)
    ensures !IsAsciiLetter(s[i]) ==> VigenereFrom(s, keyLetters, ki, encrypt)[i] == s[i]
  {
    VigenereKeyed(s, keyLetters, ki, encrypt, i);
    KeyedLetterCases(s[i], keyLetters, ki + LettersBefore(s, i), encrypt);
  }

  lemma KeyedLetterCases(c: char, keyLetters: string, idx: nat, encrypt: bool)
    requires |keyLetters| > 0 && forall j :: 0 <= j < |keyLetters| ==> IsAsciiUpper(keyLetters[j])
    ensures IsAsciiLetter(c) ==>
              KeyedLetter(c, keyLetters, idx, encrypt) == VigenereLetter(c, keyLetters[idx % |keyLetters|] as int - 65, encrypt)
    ensures !IsAsciiLetter(c) ==> KeyedLetter(c, keyLetters, idx, encrypt) == c
  {
  }

  lemma {:induction false} VigenereKeyed(s: string, keyLetters: string, ki: nat, encrypt: bool, i: nat)
    requires |keyLetters| > 0 && forall j :: 0 <= j < |keyLetters| ==> IsAsciiUpper(keyLetters[j])
    requires i < |s|
    ensures VigenereFrom(s, keyLetters, ki, encrypt)[i] == KeyedLetter(s[i], keyLetters, ki + LettersBefore(s, i), encrypt)
    decreases i
  {
    var next := if IsAsciiLetter(s[0]) then ki + 1 else ki;
    var r := VigenereFrom(s, keyLetters, ki, encrypt);
    VigenereUnfold(s, keyLetters, ki, encrypt);
    assert r[0] == KeyedLetter(s[0], keyLetters, ki, encrypt);
    if i > 0 {
      VigenereKeyed(s[1..], keyLetters, next, encrypt, i - 1);
      LettersShift(s, i);
      assert s[1..][i - 1] == s[i] && r[1..][i - 1] == r[i];
      assert next + LettersBefore(s[1..], i - 1) == ki + LettersBefore(s, i);
    }
  }

  /** One step of the loop: the first character, then the rest from the next key index. */
  lemma VigenereUnfold(s: string, keyLetters: string, ki: nat, encrypt: bool)
    requires |keyLetters| > 0 && forall j :: 0 <= j < |keyLetters| ==> IsAsciiUpper(keyLetters[j])
    requires |s| > 0
    ensures VigenereFrom(s, keyLetters, ki, encrypt)
            == [KeyedLetter(s[0], keyLetters, ki, encrypt)]
               + VigenereFrom(s[1..], keyLetters, if IsAsciiLetter(s[0]) then ki + 1 else ki, encrypt)
  {
  }

  lemma {:induction false} LettersShift(s: string, n: nat)
    requires 1 <= n <= |s|
    ensures LettersBefore(s, n) == (if IsAsciiLetter(s[0]) then 1 else 0) + LettersBefore(s[1..], n - 1)
    decreases n
  {
    if n > 1 {
      LettersShift(s, n - 1);
      assert s[1..][n - 2] == s[n - 1];
    }
  }

  /** Decrypting with the key letters a text was encrypted with restores it. */
  lemma {:induction false} VigenereFromRoundTrip(s: string, keyLetters: string, ki: nat)
    requires |keyLetters| > 0 && forall i :: 0 <= i < |keyLetters| ==> IsAsciiUpper(keyLetters[i])
    ensures VigenereFrom(VigenereFrom(s, keyLetters, ki, true), keyLetters, ki, false) == s
    decreases |s|
  {
    if |s| > 0 {
      var e := VigenereFrom(s, keyLetters, ki, true);
      var next := if IsAsciiLetter(s[0]) then ki + 1 else ki;
      assert e[1..] == VigenereFrom(s[1..], keyLetters, next, true);
      VigenereFromRoundTrip(s[1..], keyLetters, next);
      if IsAsciiLetter(s[0]) {
        var shift := keyLetters[ki % |keyLetters|] as int - 65;
        LetterRoundTrip(s[0], shift);
      }
      assert [s[0]] + s[1..] == s;
    }
  }

  lemma LetterRoundTrip(c: char, shift: nat)
    requires IsAsciiLetter(c) && shift < 26
    ensures VigenereLetter(VigenereLetter(c, shift, true), shift, false) == c
  {
    var d := VigenereLetter(c, shift, true);
    assert Base(d) == Base(c);
  }

  /** Vigenère decryption undoes encryption under the same key. */
  lemma VigenereRoundTrip(s: string, key: string)
    ensures Vigenere(Vigenere(s, key, true), key, false) == s
  {
    if key != "" && KeyLetters(key) != "" {
      VigenereFromRoundTrip(s, KeyLetters(key), 0);
    }
  }

  /** The loop of `vigenereCipher` as written: `keyIndex` counts the letters seen. */
  method VigenereLoop(s: string, keyLetters: string, encrypt: bool) returns (result: string)
    requires |keyLetters| > 0 && forall i :: 0 <= i < |keyLetters| ==> IsAsciiUpper(keyLetters[i])
    ensures result == VigenereFrom(s, keyLetters, 0, encrypt)
  {
    result := "";
    var keyIndex := 0;
    for i := 0 to |s|
      invariant result + VigenereFrom(s[i..], keyLetters, keyIndex, encrypt) == VigenereFrom(s, keyLetters, 0, encrypt)
    {
      var c := s[i];
      var out: char;
      var next: nat;
      if IsAsciiLetter(c) {
        var shift := keyLetters[keyIndex % |keyLetters|] as int - 65;
        out, next := VigenereLetter(c, shift, encrypt), keyIndex + 1;
      } else {
        out, next := c, keyIndex;
      }
      assert out == KeyedLetter(c, keyLetters, keyIndex, encrypt);
      VigenereLoopStep(s, keyLetters, encrypt, i, keyIndex, result);
      result, keyIndex := result + [out], next;
    }
    assert s[|s|..] == [];
  }

  /** One turn of the loop moves one output character from the rest into the result. */
  lemma VigenereLoopStep(s: string, keyLetters: string, encrypt: bool, i: nat, ki: nat, result: string)
    requires |keyLetters| > 0 && forall j :: 0 <= j < |keyLetters| ==> IsAsciiUpper(keyLetters[j])
    requires i < |s|
    ensures result + VigenereFrom(s[i..], keyLetters, ki, encrypt)
            == (result + [KeyedLetter(s[i], keyLetters, ki, encrypt)])
               + VigenereFrom(s[i + 1..], keyLetters, if IsAsciiLetter(s[i]) then ki + 1 else ki, encrypt)
  {
    VigenereUnfold(s[i..], keyLetters, ki, encrypt);
    assert s[i..][1..] == s[i + 1..];
  }

  // ---------------------------------------------------------------- hex and binary encoders

  /** Every character is a single byte: what the hex and binary encoders round-trip. */
  predicate IsLatin1(s: string)
  {
    forall i :: 0 <= i < |s| ==> s[i] as int < 256
  }

  function Codes(s: string): (bs: seq<byte>)
    requires IsLatin1(s)
    ensures |bs| == |s| && forall i :: 0 <= i < |s| ==> bs[i] == s[i] as int
  {
    seq(|s|, i requires 0 <= i < |s| => s[i] as int)
  }

  /** `c.charCodeAt(0)` of one element of `Array.from(input)`: the code point's first
      UTF-16 code unit. */
  function FirstUnit(c: char): CodeUnit
  {
    CharUnits(c)[0]
  }

  /** `c.charCodeAt(0).toString(16).padStart(2, "0")`. */
  function HexUnit(c: char): (h: string)
    ensures |h| >= 2
  {
    PaddedRadix(FirstUnit(c), 16, 2)
  }

  /** A single-byte character's hex spelling is its byte's pair. */
  lemma HexUnitByte(c: char)
    requires c as int < 256
    ensures HexUnit(c) == Hex2(c as int)
  {
    Hex2Padded(c as int);
  }

  /** Hex encoding: `HexUnit` per code point of `Array.from(input)`, joined. */
  function HexEncode(s: string): (r: string)
    ensures |r| >= 2 * |s|
  {
    if |s| == 0 then "" else HexUnit(s[0]) + HexEncode(s[1..])
  }

  /** `input.match(/.{1,2}/g)` on the code units: pairs of characters other than line
      terminators, a single one where a terminator or the end follows, terminators skipped. */
  function DotPairs(u: seq<CodeUnit>): (chunks: seq<seq<CodeUnit>>)
    ensures forall k :: 0 <= k < |chunks| ==> 1 <= |chunks[k]| <= 2
    decreases |u|
  {
    if |u| == 0 then []
    else if IsLineTerminator(u[0]) then DotPairs(u[1..])
    else if |u| >= 2 && !IsLineTerminator(u[1]) then [u[..2]] + DotPairs(u[2..])
    else [u[..1]] + DotPairs(u[1..])
  }

  /** Hex decoding: `String.fromCharCode(parseInt(chunk, 16))` per chunk, as code units. */
  function HexDecode(s: string): (r: seq<CodeUnit>)
    ensures |r| <= |Utf16(s)|
  {
    var chunks := DotPairs(Utf16(s));
    ChunksFewer(Utf16(s));
    seq(|chunks|, k requires 0 <= k < |chunks| => FromCharCode(ParseInt(chunks[k], 16)))
  }

  lemma {:induction false} ChunksFewer(u: seq<CodeUnit>)
    ensures |DotPairs(u)| <= |u|
    decreases |u|
  {
    if |u| > 0 {
      if IsLineTerminator(u[0]) || |u| < 2 || IsLineTerminator(u[1]) {
        ChunksFewer(u[1..]);
      } else {
        ChunksFewer(u[2..]);
      }
    }
  }

  /** On single-byte characters the hex encoding is the bytes' lower-case hex pairs. */
  lemma {:induction false} HexEncodeBytes(s: string)
    requires IsLatin1(s)
    ensures HexEncode(s) == HexJoin(Codes(s))
    decreases |s|
  {
    if |s| > 0 {
      HexUnitByte(s[0]);
      HexEncodeBytes(s[1..]);
      assert Codes(s)[1..] == Codes(s[1..]);
    }
  }

  lemma {:induction false} Utf16Append(a: string, b: string)
    ensures Utf16(a + b) == Utf16(a) + Utf16(b)
    decreases |a|
  {
    if |a| > 0 {
      assert (a + b)[1..] == a[1..] + b;
      Utf16Append(a[1..], b);
    } else {
      assert a + b == b;
    }
  }

  /** The code units of a hex run chunk into the pairs of its bytes. */
  lemma {:induction false} HexRunChunks(bs: seq<byte>)
    ensures var chunks := DotPairs(Utf16(HexJoin(bs)));
            |chunks| == |bs| && forall k :: 0 <= k < |bs| ==> chunks[k] == Utf16(Hex2(bs[k]))
    decreases |bs|
  {
    if |bs| > 0 {
      var h := Hex2(bs[0]);
      assert HexJoin(bs) == h + HexJoin(bs[1..]);
      Utf16Append(h, HexJoin(bs[1..]));
      var hu := Utf16(h);
      assert hu == [h[0] as int, h[1] as int] by {
        assert h[1..][1..] == [];
      }
      var u := hu + Utf16(HexJoin(bs[1..]));
      assert u[..2] == hu && u[2..] == Utf16(HexJoin(bs[1..]));
      HexRunChunks(bs[1..]);
    }
  }

  /** `parseInt` of a byte's pair gives the byte back. */
  lemma PairParse(b: byte)
    ensures ParseInt(Utf16(Hex2(b)), 16) == Some(b)
  {
    Hex2Value(b);
    ParseIntPair(Hex2(b), 16);
  }

  /** Hex decoding undoes hex encoding on text of single-byte characters. */
  lemma HexRoundTrip(s: string)
    requires IsLatin1(s)
    ensures HexDecode(HexEncode(s)) == Utf16(s)
  {
    HexEncodeBytes(s);
    var bs := Codes(s);
    HexRunChunks(bs);
    assert IsBmp(s);
    Utf16Bmp(s);
    forall k | 0 <= k < |bs|
      ensures HexDecode(HexEncode(s))[k] == bs[k]
    {
      PairParse(bs[k]);
    }
  }

  /** `c.charCodeAt(0).toString(2).padStart(8, '0')`. */
  function BinaryUnit(c: char): string
  {
    PaddedRadix(FirstUnit(c), 2, 8)
  }

  /** A single-byte character's binary spelling is its byte's eight bits. */
  lemma BinaryUnitByte(c: char)
    requires c as int < 256
    ensures BinaryUnit(c) == Bin8(c as int)
  {
    Bin8Padded(c as int);
  }

  /** Binary encoding: `BinaryUnit` per code point, joined with single spaces. */
  function BinaryEncode(s: string): string
  {
    Join(BinaryUnits(s), ' ')
  }

  function BinaryUnits(s: string): (parts: seq<string>)
    ensures |parts| == |s| && forall i :: 0 <= i < |s| ==> parts[i] == BinaryUnit(s[i])
  {
    seq(|s|, i requires 0 <= i < |s| => BinaryUnit(s[i]))
  }

  /** Binary decoding: `input.split(' ')`, then `String.fromCharCode(parseInt(piece, 2))`. */
  function BinaryDecode(s: string): (r: seq<CodeUnit>)
    ensures |r| == |Split(s, ' ')|
  {
    var pieces := Split(s, ' ');
    seq(|pieces|, k requires 0 <= k < |pieces| => FromCharCode(ParseInt(Utf16(pieces[k]), 2)))
  }

  /** Binary decoding undoes binary encoding on non-empty text of single-byte characters. */
  lemma BinaryRoundTrip(s: string)
    requires |s| > 0 && IsLatin1(s)
    ensures BinaryDecode(BinaryEncode(s)) == Utf16(s)
  {
    BinaryEncodeSplit(s);
    assert IsBmp(s);
    Utf16Bmp(s);
    forall k | 0 <= k < |s|
      ensures BinaryDecode(BinaryEncode(s))[k] == s[k] as int
    {
      BinaryParse(s[k] as int);
    }
  }

  /** Splitting the encoding at spaces gives each character's eight bits. */
  lemma BinaryEncodeSplit(s: string)
    requires |s| > 0 && IsLatin1(s)
    ensures |Split(BinaryEncode(s), ' ')| == |s|
    ensures forall k :: 0 <= k < |s| ==> Split(BinaryEncode(s), ' ')[k] == Bin8(s[k] as int)
  {
    var parts := BinaryUnits(s);
    forall i | 0 <= i < |s|
      ensures parts[i] == Bin8(s[i] as int) && ' ' !in parts[i]
    {
      BinaryUnitByte(s[i]);
      Bin8NoSpace(s[i] as int);
    }
    SplitJoin(parts, ' ');
  }

  // ---------------------------------------------------------------- processInput

  datatype Mode = Encode | Decode

  /** The tool selected in the playground. */
  datatype Transform = HexText | BinaryText | Rot13 | CaesarShiftKey | VigenereKey

  /** `processInput` for the modelled tools: nothing for empty input; otherwise the chosen
      encoder, decoder or cipher, as UTF-16 code units. */
  function Process(t: Transform, mode: Mode, key: string, input: string): (out: seq<CodeUnit>)
    ensures input == "" ==> out == []
    ensures t in {Rot13, CaesarShiftKey, VigenereKey} ==> |out| == |Utf16(input)|
  {
    if input == "" then []
    else
      match t
      case HexText => if mode == Encode then Utf16(HexEncode(input)) else HexDecode(input)
      case BinaryText => if mode == Encode then Utf16(BinaryEncode(input)) else BinaryDecode(input)
      case Rot13 => CipherUnits(input, Caesar(input, 13))
      case CaesarShiftKey =>
        var shift := CaesarShift(key);
        CipherUnits(input, Caesar(input, if mode == Encode then shift else -shift))
      case VigenereKey => CipherUnits(input, Vigenere(input, key, mode == Encode))
  }

  /** The code units of a cipher's output, which has as many as its input because only
      ASCII letters change. */
  function CipherUnits(input: string, output: string): (u: seq<CodeUnit>)
    requires |output| == |input|
    requires forall i :: 0 <= i < |input| ==> output[i] == input[i] || (IsAsciiLetter(input[i]) && IsAsciiLetter(output[i]))
    ensures u == Utf16(output) && |u| == |Utf16(input)|
  {
    SameWidth(input, output);
    Utf16(output)
  }

  lemma {:induction false} SameWidth(a: string, b: string)
    requires |a| == |b|
    requires forall i :: 0 <= i < |a| ==> b[i] == a[i] || (IsAsciiLetter(a[i]) && IsAsciiLetter(b[i]))
    ensures |Utf16(a)| == |Utf16(b)|
    decreases |a|
  {
    if |a| > 0 {
      SameWidth(a[1..], b[1..]);
    }
  }
}
