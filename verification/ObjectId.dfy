/** Object ids: `id/object/salt` padded to whole blocks, encrypted block by block, and written twice in base 64.
    The block cipher is any permutation of 16-byte blocks with its inverse. */
module ObjectId {
  import opened ByteText

  // ---------------------------------------------------------------- base 64 (RFC 4648, sections 4 and 5)

  const PAD: byte := 61

  /** Six bits. Shifts and masks are written as division, remainder and multiplication by powers of two. */
  type digit = x: int | 0 <= x < 64

  /** The byte standing for one six-bit digit; the URL alphabet differs in the last two. */
  function Letter(d: digit, url: bool): byte {
    if d < 26 then d + 65
    else if d < 52 then d + 71
    else if d < 62 then d - 4
    else if d == 62 then (if url then 45 else 43)
    else (if url then 95 else 47)
  }

  function Digit(b: byte, url: bool): Option<digit> {
    if 65 <= b <= 90 then Some(b - 65)
    else if 97 <= b <= 122 then Some(b - 71)
    else if 48 <= b <= 57 then Some(b + 4)
    else if b == (if url then 45 else 43) then Some(62)
    else if b == (if url then 95 else 47) then Some(63)
    else None
  }

  lemma DigitLetter(d: digit, url: bool)
    ensures Digit(Letter(d, url), url) == Some(d)
    ensures Letter(d, url) != PAD && Letter(d, url) != 10 && Letter(d, url) != 13
  {
  }

  // The four digits of three bytes, and the three bytes of four digits.

  function Digit0(a: byte): digit { a / 4 }

  function Digit1(a: byte, b: byte): digit { a % 4 * 16 + b / 16 }

  function Digit2(b: byte, c: byte): digit { b % 16 * 4 + c / 64 }

  function Digit3(c: byte): digit { c % 64 }

  function Byte0(x: digit, y: digit): byte { x * 4 + y / 16 }

  function Byte1(y: digit, z: digit): byte { y % 16 * 16 + z / 4 }

  function Byte2(z: digit, w: digit): byte { z % 4 * 64 + w }

  lemma FirstByteBack(a: byte, b: byte)
    ensures Byte0(Digit0(a), Digit1(a, b)) == a
  {
  }

  lemma SecondByteBack(a: byte, b: byte, c: byte)
    ensures Byte1(Digit1(a, b), Digit2(b, c)) == b
  {
    HighAndLow(a % 4, b / 16, 16);
    HighAndLow(b % 16, c / 64, 4);
  }

  lemma ThirdByteBack(b: byte, c: byte)
    ensures Byte2(Digit2(b, c), Digit3(c)) == c
  {
    HighAndLow(b % 16, c / 64, 4);
  }

  /** A short last group is filled with zero bits and gives two or three digits. */
  function ToDigits(s: Bytes): seq<digit> {
    if |s| == 0 then []
    else if |s| == 1 then [Digit0(s[0]), Digit1(s[0], 0)]
    else if |s| == 2 then [Digit0(s[0]), Digit1(s[0], s[1]), Digit2(s[1], 0)]
    else [Digit0(s[0]), Digit1(s[0], s[1]), Digit2(s[1], s[2]), Digit3(s[2])] + ToDigits(s[3..])
  }

  /** Spare low bits of a short last group are dropped; a single left-over digit is an error. */
  function FromDigits(d: seq<digit>): Option<Bytes> {
    if |d| == 0 then Some([])
    else if |d| == 1 then None
    else if |d| == 2 then Some([Byte0(d[0], d[1])])
    else if |d| == 3 then Some([Byte0(d[0], d[1]), Byte1(d[1], d[2])])
    else
      var rest := FromDigits(d[4..]);
      if rest.None? then None
      else Some([Byte0(d[0], d[1]), Byte1(d[1], d[2]), Byte2(d[2], d[3])] + rest.value)
  }

  function Letters(d: seq<digit>, url: bool): Bytes {
    seq(|d|, i requires 0 <= i < |d| => Letter(d[i], url))
  }

  function Digits(s: Bytes, url: bool): Option<seq<digit>> {
    if s == [] then Some([])
    else
      var rest := Digits(s[1..], url);
      if Digit(s[0], url).None? || rest.None? then None else Some([Digit(s[0], url).value] + rest.value)
  }

  /** What the standard alphabet appends after a last group of m bytes. */
  function Pads(m: nat): Bytes {
    if m == 0 then [] else if m == 1 then [PAD, PAD] else [PAD]
  }

  /** `EncodeToString`: the standard alphabet pads to whole groups, the URL alphabet does not (section 3.2). */
  function Encode64(s: Bytes, url: bool): Bytes {
    Letters(ToDigits(s), url) + if url then [] else Pads(|s| % 3)
  }

  /** Line breaks are skipped wherever they stand. */
  function StripBreaks(s: Bytes): Bytes {
    if s == [] then [] else (if s[0] == 10 || s[0] == 13 then [] else [s[0]]) + StripBreaks(s[1..])
  }

  /** The standard alphabet demands whole groups of four, the last of which may end in one or two pad bytes. */
  function WithoutPad(s: Bytes, url: bool): Option<Bytes> {
    if url then Some(s)
    else if |s| % 4 != 0 then None
    else if |s| > 0 && s[|s| - 1] == PAD then Some(s[..|s| - if s[|s| - 2] == PAD then 2 else 1])
    else Some(s)
  }

  /** `DecodeString`: a byte outside the alphabet, wrong padding or a truncated group is an error. */
  function Decode64(s: Bytes, url: bool): Option<Bytes> {
    match WithoutPad(StripBreaks(s), url)
    case None => None
    case Some(body) =>
      match Digits(body, url)
      case None => None
      case Some(d) => FromDigits(d)
  }

  function LastGroup(m: nat): nat {
    if m == 0 then 0 else m + 1
  }

  lemma {:induction false} DigitCount(s: Bytes)
    ensures |ToDigits(s)| % 4 == LastGroup(|s| % 3)
  {
    if |s| > 2 {
      DigitCount(s[3..]);
      GroupMore(|s[3..]|, |ToDigits(s[3..])|);
    }
  }

  lemma GroupMore(bytes: nat, digits: nat)
    ensures (bytes + 3) % 3 == bytes % 3 && (digits + 4) % 4 == digits % 4
  {
  }

  lemma FullGroupBack(a: byte, b: byte, c: byte, rest: seq<digit>, bytes: Bytes)
    requires FromDigits(rest) == Some(bytes)
    ensures FromDigits([Digit0(a), Digit1(a, b), Digit2(b, c), Digit3(c)] + rest) == Some([a, b, c] + bytes)
  {
    var d := [Digit0(a), Digit1(a, b), Digit2(b, c), Digit3(c)] + rest;
    FirstByteBack(a, b);
    SecondByteBack(a, b, c);
    ThirdByteBack(b, c);
    assert d[4..] == rest;
  }

  lemma OneByteGroupBack(a: byte)
    ensures FromDigits([Digit0(a), Digit1(a, 0)]) == Some([a])
  {
  }

  lemma TwoByteGroupBack(a: byte, b: byte)
    ensures FromDigits([Digit0(a), Digit1(a, b), Digit2(b, 0)]) == Some([a, b])
  {
    FirstByteBack(a, b);
    SecondByteBack(a, b, 0);
    ThreeDigits(Digit0(a), Digit1(a, b), Digit2(b, 0));
  }

  lemma ThreeDigits(x: digit, y: digit, z: digit)
    ensures FromDigits([x, y, z]) == Some([Byte0(x, y), Byte1(y, z)])
  {
  }

  lemma {:induction false} DigitsOfBytes(s: Bytes)
    ensures FromDigits(ToDigits(s)) == Some(s)
  {
    if |s| == 1 {
      OneByteGroupBack(s[0]);
      assert s == [s[0]] && ToDigits(s) == [Digit0(s[0]), Digit1(s[0], 0)];
    } else if |s| == 2 {
      TwoByteGroupBack(s[0], s[1]);
      assert s == [s[0], s[1]] && ToDigits(s) == [Digit0(s[0]), Digit1(s[0], s[1]), Digit2(s[1], 0)];
    } else if |s| > 2 {
      var rest := s[3..];
      DigitsOfBytes(rest);
      FullGroupBack(s[0], s[1], s[2], ToDigits(rest), rest);
      assert ToDigits(s) == [Digit0(s[0]), Digit1(s[0], s[1]), Digit2(s[1], s[2]), Digit3(s[2])] + ToDigits(rest);
      assert s == [s[0], s[1], s[2]] + rest;
    }
  }

  predicate Plain(s: Bytes) {
    forall i :: 0 <= i < |s| ==> s[i] != PAD && s[i] != 10 && s[i] != 13
  }

  lemma {:induction false} LettersBack(d: seq<digit>, url: bool)
    ensures Plain(Letters(d, url)) && Digits(Letters(d, url), url) == Some(d)
  {
    forall i | 0 <= i < |d|
      ensures Letters(d, url)[i] == Letter(d[i], url) && Digit(Letter(d[i], url), url) == Some(d[i])
      ensures Letter(d[i], url) != PAD && Letter(d[i], url) != 10 && Letter(d[i], url) != 13
    {
      DigitLetter(d[i], url);
    }
    if d != [] {
      LettersBack(d[1..], url);
      assert Letters(d, url)[1..] == Letters(d[1..], url);
      assert d == [d[0]] + d[1..];
    }
  }

  lemma {:induction false} StripNothing(s: Bytes)
    requires forall i :: 0 <= i < |s| ==> s[i] != 10 && s[i] != 13
    ensures StripBreaks(s) == s
  {
    if s != [] { StripNothing(s[1..]); }
  }

  lemma PadBack(body: Bytes, m: nat)
    requires Plain(body) && m < 3 && |body| % 4 == LastGroup(m)
    ensures WithoutPad(body + Pads(m), false) == Some(body)
  {
    var t := body + Pads(m);
    assert t[..|body|] == body;
    if m == 0 {
      assert t == body;
    } else if m == 1 {
      assert |t| == |body| + 2 && t[|t| - 1] == PAD && t[|t| - 2] == PAD;
    } else {
      assert |t| == |body| + 1 && t[|t| - 1] == PAD && t[|t| - 2] == body[|body| - 1];
    }
  }

  /** What the padding rules leave of an encoded text. */
  lemma EncodedBody(s: Bytes, url: bool)
    ensures WithoutPad(StripBreaks(Encode64(s, url)), url) == Some(Letters(ToDigits(s), url))
  {
    var body := Letters(ToDigits(s), url);
    LettersBack(ToDigits(s), url);
    DigitCount(s);
    StripNothing(Encode64(s, url));
    if url {
      assert Encode64(s, url) == body;
    } else {
      PadBack(body, |s| % 3);
    }
  }

  lemma Base64RoundTrip(s: Bytes, url: bool)
    ensures Decode64(Encode64(s, url), url) == Some(s)
  {
    EncodedBody(s, url);
    LettersBack(ToDigits(s), url);
    DigitsOfBytes(s);
  }

  // ---------------------------------------------------------------- padding

  /** 16 - n mod 16 copies of that number; nothing at all for a whole number of blocks. */
  function Padding(n: nat): (pad: Bytes)
    ensures (n + |pad|) % 16 == 0 && |pad| < 16
    ensures forall i :: 0 <= i < |pad| ==> pad[i] == |pad|
  {
    if n % 16 == 0 then [] else seq(16 - n % 16, i => 16 - n % 16)
  }

  function Padded(s: Bytes): (p: Bytes)
    ensures |p| % 16 == 0
  {
    s + Padding(|s|)
  }

  /** Removes as many bytes as the last byte says; `None` where the program would panic. */
  function PKCS5UnPadding(src: Bytes): Option<Bytes> {
    if |src| == 0 then None
    else
      var unpadding := src[|src| - 1];
      if unpadding > |src| then None else Some(src[..|src| - unpadding])
  }

  /** Unpadding undoes the padding for every length that is not a whole number of blocks; for a whole number it does
      so if and only if there is a last byte and it is zero. */
  lemma UnPaddingInvertsIff(s: Bytes)
    ensures PKCS5UnPadding(Padded(s)) == Some(s) <==> |s| % 16 != 0 || (|s| > 0 && s[|s| - 1] == 0)
  {
  }

  // -------------------------------------------------------------- cipher block chaining (NIST SP 800-38A, section 6.2)

  type Block = b: Bytes | |b| == 16 witness seq(16, i => 0)

  datatype Cipher = Cipher(enc: Block -> Block, dec: Block -> Block)

  ghost predicate Inverse(k: Cipher) {
    forall b: Block :: k.dec(k.enc(b)) == b
  }

  /** Exclusive or of the low n bits. */
  function XorBits(a: nat, b: nat, n: nat): (r: nat) {
    if n == 0 then 0 else (if a % 2 == b % 2 then 0 else 1) + 2 * XorBits(a / 2, b / 2, n - 1)
  }

  function Power2(n: nat): nat {
    if n == 0 then 1 else 2 * Power2(n - 1)
  }

  lemma XorBitsStep(a: nat, b: nat, n: nat)
    requires n > 0
    ensures XorBits(a, b, n) / 2 == XorBits(a / 2, b / 2, n - 1)
    ensures XorBits(a, b, n) % 2 == 1 <==> a % 2 != b % 2
  {
  }

  lemma {:induction false} XorBitsTwice(a: nat, b: nat, n: nat)
    requires a < Power2(n)
    ensures XorBits(XorBits(a, b, n), b, n) == a && XorBits(a, b, n) < Power2(n)
  {
    if n > 0 {
      XorBitsTwice(a / 2, b / 2, n - 1);
      XorBitsStep(a, b, n);
      XorBitsStep(XorBits(a, b, n), b, n);
    }
  }

  lemma EightBits()
    ensures Power2(8) == 256
  {
  }

  function XorByte(a: byte, b: byte): byte {
    EightBits();
    XorBitsTwice(a, b, 8);
    XorBits(a, b, 8)
  }

  function Xor(a: Block, b: Block): Block {
    seq(16, i requires 0 <= i < 16 => XorByte(a[i], b[i]))
  }

  lemma XorTwice(a: Block, b: Block)
    ensures Xor(Xor(a, b), b) == a
  {
    forall i | 0 <= i < 16 ensures Xor(Xor(a, b), b)[i] == a[i] { XorByteTwice(a[i], b[i]); }
  }

  lemma XorByteTwice(a: byte, b: byte)
    ensures XorByte(XorByte(a, b), b) == a
  {
    EightBits();
    XorBitsTwice(a, b, 8);
  }

  function EncryptCbc(k: Cipher, iv: Block, s: Bytes): (c: Bytes)
    ensures |s| % 16 == 0 ==> |c| == |s|
    decreases |s|
  {
    if |s| < 16 then []
    else
      var c := k.enc(Xor(s[..16], iv));
      c + EncryptCbc(k, c, s[16..])
  }

  function DecryptCbc(k: Cipher, iv: Block, s: Bytes): (p: Bytes)
    ensures |s| % 16 == 0 ==> |p| == |s|
    decreases |s|
  {
    if |s| < 16 then [] else Xor(k.dec(s[..16]), iv) + DecryptCbc(k, s[..16], s[16..])
  }

  lemma {:induction false} CbcRoundTrip(k: Cipher, iv: Block, s: Bytes)
    requires Inverse(k) && |s| % 16 == 0
    ensures DecryptCbc(k, iv, EncryptCbc(k, iv, s)) == s
    decreases |s|
  {
    if |s| >= 16 {
      var head: Block := s[..16];
      var c := k.enc(Xor(head, iv));
      var all := EncryptCbc(k, iv, s);
      assert all[..16] == c && all[16..] == EncryptCbc(k, c, s[16..]);
      CbcRoundTrip(k, c, s[16..]);
      XorTwice(head, iv);
      assert s == head + s[16..];
    }
  }

  // ---------------------------------------------------------------- ids

  function FullId(id: nat, obj: Bytes, salt: Bytes): Bytes {
    Print(id) + [SLASH] + (obj + [SLASH] + salt)
  }

  function AesEncrypted(k: Cipher, iv: Block, plaintext: Bytes): Bytes {
    Encode64(EncryptCbc(k, iv, Padded(plaintext)), false)
  }

  /** The padding is left in place. */
  function AesDecrypted(k: Cipher, iv: Block, encrypted: Bytes): Option<Bytes> {
    match Decode64(encrypted, false)
    case None => None
    case Some(c) => if |c| % 16 != 0 then None else Some(DecryptCbc(k, iv, c))
  }

  function Encode(k: Cipher, iv: Block, id: nat, obj: Bytes, salt: Bytes): Bytes {
    Encode64(AesEncrypted(k, iv, FullId(id, obj, salt)), true)
  }

  /** Anything malformed gives (0, ""). */
  function Decode(k: Cipher, iv: Block, encoded: Bytes): (nat, Bytes) {
    match Decode64(encoded, true)
    case None => (0, [])
    case Some(text) =>
      match AesDecrypted(k, iv, text)
      case None => (0, [])
      case Some(plain) =>
        var parts := Split(plain, SLASH);
        if |parts| != 3 then (0, [])
        else
          match ParseUint(parts[0])
          case None => (0, [])
          case Some(id) => (id, parts[1])
  }

  lemma AesRoundTrip(k: Cipher, iv: Block, s: Bytes)
    requires Inverse(k)
    ensures AesDecrypted(k, iv, AesEncrypted(k, iv, s)) == Some(Padded(s))
  {
    Base64RoundTrip(EncryptCbc(k, iv, Padded(s)), false);
    CbcRoundTrip(k, iv, Padded(s));
  }

  lemma PaddingFree(n: nat)
    ensures Free(Padding(n), SLASH)
  {
  }

  lemma PlainParts(id: nat, obj: Bytes, salt: Bytes)
    ensures var parts := Split(Padded(FullId(id, obj, salt)), SLASH);
            && (|parts| == 3 <==> Free(obj, SLASH) && Free(salt, SLASH))
            && (|parts| == 3 ==> parts[0] == Print(id) && parts[1] == obj)
  {
    var full := FullId(id, obj, salt);
    var pad := Padding(|full|);
    var tail := salt + pad;
    assert Padded(full) == Print(id) + [SLASH] + (obj + [SLASH] + tail);
    DigitsFree(id);
    PaddingFree(|full|);
    SplitAtSeparator(Print(id), obj + [SLASH] + tail, SLASH);
    CountFree(obj, SLASH);
    CountFree(salt, SLASH);
    CountFree(pad, SLASH);
    CountConcat(salt, pad, SLASH);
    CountConcat(obj, [SLASH] + tail, SLASH);
    assert obj + [SLASH] + tail == obj + ([SLASH] + tail);
    assert Count([SLASH] + tail, SLASH) == 1 + Count(tail, SLASH) by { assert ([SLASH] + tail)[1..] == tail; }
    if Free(obj, SLASH) {
      SplitAtSeparator(obj, tail, SLASH);
    }
  }

  /** What comes back from any id: the id and object if neither object nor salt contains a separator, else nothing. */
  lemma DecodeEncode(k: Cipher, iv: Block, id: nat, obj: Bytes, salt: Bytes)
    requires Inverse(k) && id < UINT64_LIMIT
    ensures Decode(k, iv, Encode(k, iv, id, obj, salt))
         == if Free(obj, SLASH) && Free(salt, SLASH) then (id, obj) else (0, [])
  {
    var full := FullId(id, obj, salt);
    Base64RoundTrip(AesEncrypted(k, iv, full), true);
    AesRoundTrip(k, iv, full);
    PlainParts(id, obj, salt);
    ParsePrint(id);
  }

  /** Decoding undoes encoding if and only if object and salt contain no separator, the empty answer apart. */
  lemma RoundTripIff(k: Cipher, iv: Block, id: nat, obj: Bytes, salt: Bytes)
    requires Inverse(k) && id < UINT64_LIMIT
    ensures Decode(k, iv, Encode(k, iv, id, obj, salt)) == (id, obj)
       <==> (Free(obj, SLASH) && Free(salt, SLASH)) || (id == 0 && obj == [])
  {
    DecodeEncode(k, iv, id, obj, salt);
  }

  // ---------------------------------------------------------------- distinct ids stay distinct

  /** Two texts are padded alike only if they are equal, or the longer one already ends in the shorter one's padding. */
  lemma PaddedEqualIff(a: Bytes, b: Bytes)
    requires |a| <= |b|
    ensures Padded(a) == Padded(b) <==> a == b || b == a + Padding(|a|)
  {
    if Padded(a) == Padded(b) {
      if |b| % 16 == 0 {
        assert Padded(b) == b;
      } else {
        assert Padded(b)[|Padded(b)| - 1] == |Padding(|b|)| && Padded(a)[|Padded(a)| - 1] == |Padding(|a|)|;
        assert a == Padded(a)[..|a|] && b == Padded(b)[..|b|];
      }
    }
    if b == a + Padding(|a|) { assert Padded(b) == b; }
  }

  lemma EncodeDeterminesPadded(k: Cipher, iv: Block, s: Bytes, t: Bytes)
    requires Inverse(k)
    ensures Encode64(AesEncrypted(k, iv, s), true) == Encode64(AesEncrypted(k, iv, t), true) <==> Padded(s) == Padded(t)
  {
    Base64RoundTrip(AesEncrypted(k, iv, s), true);
    Base64RoundTrip(AesEncrypted(k, iv, t), true);
    AesRoundTrip(k, iv, s);
    AesRoundTrip(k, iv, t);
  }

  /** One text is the other, or the other with its padding. */
  predicate AlikePadded(s: Bytes, t: Bytes) {
    s == t || t == s + Padding(|s|) || s == t + Padding(|t|)
  }

  lemma PaddedAlike(s: Bytes, t: Bytes)
    ensures Padded(s) == Padded(t) <==> AlikePadded(s, t)
  {
    if |s| <= |t| { PaddedEqualIff(s, t); } else { PaddedEqualIff(t, s); }
  }

  /** Exactly which ids are equal, whatever the parts. */
  lemma EncodeEqualIff(k: Cipher, iv: Block, id1: nat, obj1: Bytes, salt1: Bytes, id2: nat, obj2: Bytes, salt2: Bytes)
    requires Inverse(k)
    ensures Encode(k, iv, id1, obj1, salt1) == Encode(k, iv, id2, obj2, salt2)
       <==> AlikePadded(FullId(id1, obj1, salt1), FullId(id2, obj2, salt2))
  {
    EncodeDeterminesPadded(k, iv, FullId(id1, obj1, salt1), FullId(id2, obj2, salt2));
    PaddedAlike(FullId(id1, obj1, salt1), FullId(id2, obj2, salt2));
  }

  /** The salt, or the salt that continues it with the padding of the whole id. */
  predicate SaltsAlike(id: nat, obj: Bytes, salt1: Bytes, salt2: Bytes) {
    salt1 == salt2 || salt2 == salt1 + Padding(|FullId(id, obj, salt1)|)
      || salt1 == salt2 + Padding(|FullId(id, obj, salt2)|)
  }

  lemma SameHead(id: nat, obj: Bytes, salt: Bytes, other: Bytes, tail: Bytes)
    ensures FullId(id, obj, other) == FullId(id, obj, salt) + tail <==> other == salt + tail
  {
    var head := Print(id) + [SLASH] + (obj + [SLASH]);
    assert FullId(id, obj, other) == head + other && FullId(id, obj, salt) + tail == head + (salt + tail);
    if FullId(id, obj, other) == FullId(id, obj, salt) + tail {
      assert other == (head + other)[|head|..] && salt + tail == (head + (salt + tail))[|head|..];
    }
  }

  /** For separator-free parts: two ids are equal if and only if number and object are, and one salt is the other or the
      other continued by the padding. */
  lemma EncodePartsEqualIff(k: Cipher, iv: Block, id1: nat, obj1: Bytes, salt1: Bytes, id2: nat, obj2: Bytes,
                            salt2: Bytes)
    requires Inverse(k) && id1 < UINT64_LIMIT && id2 < UINT64_LIMIT
    requires Free(obj1, SLASH) && Free(salt1, SLASH) && Free(obj2, SLASH) && Free(salt2, SLASH)
    ensures Encode(k, iv, id1, obj1, salt1) == Encode(k, iv, id2, obj2, salt2)
       <==> id1 == id2 && obj1 == obj2 && SaltsAlike(id1, obj1, salt1, salt2)
  {
    EncodeEqualIff(k, iv, id1, obj1, salt1, id2, obj2, salt2);
    DecodeEncode(k, iv, id1, obj1, salt1);
    DecodeEncode(k, iv, id2, obj2, salt2);
    if id1 == id2 && obj1 == obj2 { AlikeIsSaltsAlike(id1, obj1, salt1, salt2); }
  }

  lemma AlikeIsSaltsAlike(id: nat, obj: Bytes, salt1: Bytes, salt2: Bytes)
    ensures AlikePadded(FullId(id, obj, salt1), FullId(id, obj, salt2)) <==> SaltsAlike(id, obj, salt1, salt2)
  {
    SameHead(id, obj, salt1, salt2, []);
    assert FullId(id, obj, salt1) + [] == FullId(id, obj, salt1) && salt1 + [] == salt1;
    SameHead(id, obj, salt1, salt2, Padding(|FullId(id, obj, salt1)|));
    SameHead(id, obj, salt2, salt1, Padding(|FullId(id, obj, salt2)|));
  }

  predicate AtLeast16(s: Bytes) {
    forall i :: 0 <= i < |s| ==> s[i] >= 16
  }

  lemma NoPaddingInside(salt: Bytes, pad: Bytes)
    requires forall i :: 0 <= i < |pad| ==> pad[i] < 16
    ensures AtLeast16(salt + pad) ==> salt + pad == salt
  {
    if |pad| > 0 { assert (salt + pad)[|salt|] == pad[0]; }
  }

  /** Salts of printable bytes: ids are equal if and only if all parts are. */
  lemma EncodeInjective(k: Cipher, iv: Block, id1: nat, obj1: Bytes, salt1: Bytes, id2: nat, obj2: Bytes, salt2: Bytes)
    requires Inverse(k) && id1 < UINT64_LIMIT && id2 < UINT64_LIMIT
    requires Free(obj1, SLASH) && Free(salt1, SLASH) && Free(obj2, SLASH) && Free(salt2, SLASH)
    requires AtLeast16(salt1) && AtLeast16(salt2)
    ensures Encode(k, iv, id1, obj1, salt1) == Encode(k, iv, id2, obj2, salt2)
       <==> id1 == id2 && obj1 == obj2 && salt1 == salt2
  {
    EncodePartsEqualIff(k, iv, id1, obj1, salt1, id2, obj2, salt2);
    NoPaddingInside(salt1, Padding(|FullId(id1, obj1, salt1)|));
    NoPaddingInside(salt2, Padding(|FullId(id1, obj1, salt2)|));
  }

  /** The text of a UUID, as stored salts are (a file's is followed by its extension): lower-case hexadecimal and
      dashes. */
  predicate UuidText(s: Bytes) {
    forall i :: 0 <= i < |s| ==> s[i] == DASH || 48 <= s[i] <= 57 || 97 <= s[i] <= 102
  }

  lemma UuidIdsDistinct(k: Cipher, iv: Block, id1: nat, obj1: Bytes, salt1: Bytes, id2: nat, obj2: Bytes, salt2: Bytes)
    requires Inverse(k) && id1 < UINT64_LIMIT && id2 < UINT64_LIMIT
    requires Free(obj1, SLASH) && Free(obj2, SLASH) && UuidText(salt1) && UuidText(salt2)
    ensures Encode(k, iv, id1, obj1, salt1) == Encode(k, iv, id2, obj2, salt2)
       <==> id1 == id2 && obj1 == obj2 && salt1 == salt2
  {
    EncodeInjective(k, iv, id1, obj1, salt1, id2, obj2, salt2);
  }

  /** Without the bound on salt bytes two different salts can give the same id. No UUID has such bytes. */
  lemma SmallSaltBytesCollide(k: Cipher, iv: Block, obj: Bytes)
    requires |obj| == 5
    ensures var salt: Bytes := [65, 65, 65, 65, 65, 65, 65];
            Encode(k, iv, 7, obj, salt) == Encode(k, iv, 7, obj, salt + [1])
  {
    var salt: Bytes := [65, 65, 65, 65, 65, 65, 65];
    assert Print(7) == [55];
    assert |FullId(7, obj, salt)| == 15 && |FullId(7, obj, salt + [1])| == 16;
    assert Padding(15) == [1] && Padding(16) == [];
    assert Padded(FullId(7, obj, salt)) == FullId(7, obj, salt) + [1] == FullId(7, obj, salt + [1]);
    assert Padded(FullId(7, obj, salt + [1])) == FullId(7, obj, salt + [1]);
  }

  // ---------------------------------------------------------------- the buffers

  /** One more block of ciphertext. */
  lemma EncryptStep(k: Cipher, previous: Block, src: Bytes, i: nat)
    requires i + 16 <= |src|
    ensures var c := k.enc(Xor(src[i..i + 16], previous));
            EncryptCbc(k, previous, src[i..]) == c + EncryptCbc(k, c, src[i + 16..])
  {
    assert src[i..][..16] == src[i..i + 16] && src[i..][16..] == src[i + 16..];
  }

  lemma Regroup(a: Bytes, b: Bytes, c: Bytes)
    ensures (a + b) + c == a + (b + c)
  {
  }

  lemma EncryptMore(k: Cipher, previous: Block, done: Bytes, src: Bytes, i: nat)
    requires i + 16 <= |src|
    ensures var c := k.enc(Xor(src[i..i + 16], previous));
            (done + c) + EncryptCbc(k, c, src[i + 16..]) == done + EncryptCbc(k, previous, src[i..])
  {
    EncryptStep(k, previous, src, i);
    var c := k.enc(Xor(src[i..i + 16], previous));
    Regroup(done, c, EncryptCbc(k, c, src[i + 16..]));
  }

  lemma RoomForBlock(i: nat, n: nat)
    requires i < n && i % 16 == 0 && n % 16 == 0
    ensures i + 16 <= n && (i + 16) % 16 == 0
  {
  }

  method EncryptBlock(k: Cipher, previous: Block, dst: array<byte>, at: nat, plain: Block) returns (c: Block)
    requires at + 16 <= dst.Length
    modifies dst
    ensures c == k.enc(Xor(plain, previous))
    ensures dst[..at + 16] == old(dst[..at]) + c
  {
    c := k.enc(Xor(plain, previous));
    ghost var done, tail := dst[..at], dst[at + 16..];
    CopyInto(dst, at, c);
    assert dst[..] == done + c + tail;
    assert dst[..at + 16] == dst[..][..at + 16];
  }

  /** The library's encrypter: block by block from the front into a second buffer. */
  method EncryptBlocks(k: Cipher, iv: Block, dst: array<byte>, src: Bytes)
    requires dst.Length == |src| && |src| % 16 == 0
    modifies dst
    ensures dst[..] == EncryptCbc(k, iv, src)
  {
    var previous: Block := iv;
    var i := 0;
    ghost var done: Bytes := [];
    assert src[0..] == src && dst[..0] == [] && done + EncryptCbc(k, iv, src) == EncryptCbc(k, iv, src);
    while i < |src|
      invariant 0 <= i <= |src| && i % 16 == 0
      invariant dst[..i] == done
      invariant done + EncryptCbc(k, previous, src[i..]) == EncryptCbc(k, iv, src)
    {
      RoomForBlock(i, |src|);
      EncryptMore(k, previous, done, src, i);
      previous := EncryptBlock(k, previous, dst, i, src[i..i + 16]);
      done := done + previous;
      i := i + 16;
    }
    assert src[i..] == [] && dst[..i] == dst[..] && done + [] == done;
  }

  /** Go's `copy`. */
  method CopyInto(dst: array<byte>, at: nat, src: Bytes)
    requires at + |src| <= dst.Length
    modifies dst
    ensures dst[..] == old(dst[..at]) + src + old(dst[at + |src|..])
  {
    for j := 0 to |src|
      invariant dst[..] == old(dst[..at]) + src[..j] + old(dst[at + j..])
    {
      ghost var before := dst[..];
      dst[at + j] := src[j];
      assert dst[..] == before[at + j := src[j]];
      assert src[..j + 1] == src[..j] + [src[j]];
    }
    assert src[..|src|] == src;
  }

  /** One block of the in-place decryption; everything before it is still ciphertext. */
  method DecryptBlock(k: Cipher, iv: Block, a: array<byte>, at: nat, ghost was: Bytes)
    requires at + 16 <= a.Length == |was| && at % 16 == 0 && a[..at + 16] == was[..at + 16]
    modifies a
    ensures a[..at] == was[..at]
    ensures a[at..] == Xor(k.dec(was[at..at + 16]), PreviousBlock(was, iv, at)) + old(a[at + 16..])
  {
    var block: Block := a[at..at + 16];
    var previous: Block := if at == 0 then iv else a[at - 16..at];
    forall j | 0 <= j < at + 16 ensures a[j] == was[j] { assert a[..at + 16][j] == was[..at + 16][j]; }
    assert block == was[at..at + 16];
    assert previous == PreviousBlock(was, iv, at);
    ghost var front, tail := a[..at], a[at + 16..];
    assert front == a[..at + 16][..at];
    var plain := Xor(k.dec(block), previous);
    CopyInto(a, at, plain);
    assert a[..] == front + plain + tail;
    assert a[..at] == front && a[at..] == plain + tail;
  }

  /** The library's decrypter on one buffer: from the last block to the first, so the previous ciphertext block is
      still there when it is needed. */
  method DecryptBlocksInPlace(k: Cipher, iv: Block, a: array<byte>)
    requires a.Length % 16 == 0
    modifies a
    ensures a[..] == DecryptCbc(k, iv, old(a[..]))
  {
    ghost var was := a[..];
    var end := a.Length;
    assert was[end..] == [];
    while end > 0
      invariant 0 <= end <= a.Length == |was| && end % 16 == 0
      invariant a[..end] == was[..end]
      invariant a[end..] == DecryptCbc(k, PreviousBlock(was, iv, end), was[end..])
    {
      var at := end - 16;
      ghost var tail := a[end..];
      DecryptBlock(k, iv, a, at, was);
      DecryptStep(k, iv, was, at);
      end := at;
    }
    assert a[0..] == a[..] && was[0..] == was;
  }

  /** The tail from one block on, in terms of the tail from the next block on. */
  lemma DecryptStep(k: Cipher, iv: Block, was: Bytes, at: nat)
    requires at + 16 <= |was| && at % 16 == 0
    ensures DecryptCbc(k, PreviousBlock(was, iv, at), was[at..])
         == Xor(k.dec(was[at..at + 16]), PreviousBlock(was, iv, at))
            + DecryptCbc(k, PreviousBlock(was, iv, at + 16), was[at + 16..])
  {
    assert was[at..][..16] == was[at..at + 16] && was[at..][16..] == was[at + 16..];
  }

  function PreviousBlock(s: Bytes, iv: Block, at: nat): Block
    requires at <= |s| && at % 16 == 0
  {
    if at == 0 then iv else s[at - 16..at]
  }

  method GetAESEncrypted(k: Cipher, iv: Block, plaintext: Bytes) returns (text: Bytes)
    ensures text == AesEncrypted(k, iv, plaintext)
  {
    var length := |plaintext|;
    var plainTextBlock: array<byte>;
    if length % 16 != 0 {
      var extendBlock := 16 - length % 16;
      plainTextBlock := new byte[length + extendBlock](i => 0);
      CopyInto(plainTextBlock, length, seq(extendBlock, i => extendBlock));
      assert plainTextBlock[length..] == Padding(length);
    } else {
      plainTextBlock := new byte[length](i => 0);
      assert plainTextBlock[length..] == Padding(length);
    }
    CopyInto(plainTextBlock, 0, plaintext);
    assert plainTextBlock[..] == Padded(plaintext);
    var ciphertext := new byte[plainTextBlock.Length](i => 0);
    EncryptBlocks(k, iv, ciphertext, plainTextBlock[..]);
    text := Encode64(ciphertext[..], false);
  }

  method GetAESDecrypted(k: Cipher, iv: Block, encrypted: Bytes) returns (plain: Option<Bytes>)
    ensures plain == AesDecrypted(k, iv, encrypted)
  {
    var decoded := Decode64(encrypted, false);
    if decoded.None? { return None; }
    var bytes := decoded.value;
    if |bytes| % 16 != 0 { return None; }
    var ciphertext := new byte[|bytes|](i => 0);
    CopyInto(ciphertext, 0, bytes);
    assert ciphertext[..] == bytes;
    DecryptBlocksInPlace(k, iv, ciphertext);
    plain := Some(ciphertext[..]);
  }
}
