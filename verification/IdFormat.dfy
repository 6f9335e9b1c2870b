/** What an object id is made of, bit by bit and letter by letter. */
module IdFormat {
  import opened ByteText
  import opened ObjectId

  // ---------------------------------------------------------------- bits

  function Bit(x: nat, i: nat): (b: nat)
    ensures b < 2
  {
    PowerPositive(i);
    x / Power2(i) % 2
  }

  lemma {:induction false} PowerPositive(i: nat)
    ensures Power2(i) > 0
  {
    if i > 0 { PowerPositive(i - 1); }
  }

  lemma HalfThen(x: nat, p: nat)
    requires p > 0
    ensures x / (2 * p) == x / 2 / p
  {
    var q, r := x / 2 / p, x / 2 % p;
    assert x == 2 * (q * p + r) + x % 2;
    assert x == (2 * p) * q + (2 * r + x % 2) && 2 * r + x % 2 < 2 * p;
    Quotient(x, 2 * p, q, 2 * r + x % 2);
  }

  lemma BitOfHalf(x: nat, i: nat)
    requires i > 0
    ensures Bit(x, i) == Bit(x / 2, i - 1)
  {
    PowerPositive(i - 1);
    HalfThen(x, Power2(i - 1));
  }

  lemma LowBit(x: nat)
    ensures Bit(x, 0) == x % 2
  {
  }

  lemma {:induction false} XorBitsBit(a: nat, b: nat, n: nat, i: nat)
    requires i < n
    ensures Bit(XorBits(a, b, n), i) == 1 <==> Bit(a, i) != Bit(b, i)
    decreases n
  {
    XorBitsStep(a, b, n);
    if i == 0 {
      LowBit(XorBits(a, b, n));
      LowBit(a);
      LowBit(b);
    } else {
      XorBitsBit(a / 2, b / 2, n - 1, i - 1);
      BitOfHalf(XorBits(a, b, n), i);
      BitOfHalf(a, i);
      BitOfHalf(b, i);
    }
  }

  /** The byte operation is the exclusive or: a bit of the result is set exactly where the arguments differ. */
  lemma XorByteBit(a: byte, b: byte, i: nat)
    requires i < 8
    ensures Bit(XorByte(a, b), i) == 1 <==> Bit(a, i) != Bit(b, i)
  {
    XorBitsBit(a, b, 8, i);
  }

  lemma {:induction false} XorBitsUnits(a: nat, n: nat)
    requires a < Power2(n)
    ensures XorBits(a, 0, n) == a && XorBits(a, a, n) == 0
  {
    if n > 0 { XorBitsUnits(a / 2, n - 1); }
  }

  lemma XorByteUnits(a: byte)
    ensures XorByte(a, 0) == a && XorByte(a, a) == 0
  {
    EightBits();
    XorBitsUnits(a, 8);
  }

  lemma {:induction false} BitsDecide(x: nat, y: nat, n: nat)
    requires x < Power2(n) && y < Power2(n) && forall i :: 0 <= i < n ==> Bit(x, i) == Bit(y, i)
    ensures x == y
  {
    if n > 0 {
      assert Bit(x, 0) == Bit(y, 0);
      forall i | 0 <= i < n - 1 ensures Bit(x / 2, i) == Bit(y / 2, i) {
        BitOfHalf(x, i + 1);
        BitOfHalf(y, i + 1);
        assert Bit(x, i + 1) == Bit(y, i + 1);
      }
      BitsDecide(x / 2, y / 2, n - 1);
    }
  }

  lemma ZeroBit(i: nat)
    ensures Bit(0, i) == 0
  {
    PowerPositive(i);
    Quotient(0, Power2(i), 0, 0);
  }

  // ---------------------------------------------------------------- blocks

  /** Every bit of the block is set exactly where the two others differ. */
  ghost predicate Differs(q: Block, a: Block, b: Block) {
    forall j, i :: 0 <= j < 16 && 0 <= i < 8 ==> (Bit(q[j], i) == 1 <==> Bit(a[j], i) != Bit(b[j], i))
  }

  lemma DiffersIsXor(q: Block, a: Block, b: Block)
    ensures Differs(q, a, b) <==> q == Xor(a, b)
  {
    var x := Xor(a, b);
    forall j, i | 0 <= j < 16 && 0 <= i < 8 ensures Bit(x[j], i) == 1 <==> Bit(a[j], i) != Bit(b[j], i) {
      XorByteBit(a[j], b[j], i);
    }
    if Differs(q, a, b) {
      EightBits();
      forall j | 0 <= j < 16 ensures q[j] == x[j] { BitsDecide(q[j], x[j], 8); }
    }
  }

  lemma SliceOfTail<T>(s: seq<T>, from: nat, a: nat, b: nat)
    requires from <= |s| && a <= b <= |s| - from
    ensures s[from..][a..b] == s[from + a..from + b] && s[from..][a..] == s[from + a..]
  {
  }

  lemma SamePrevious(s: Bytes, iv: Block, at: nat)
    requires 16 <= at <= |s| && at % 16 == 0
    ensures PreviousBlock(s[16..], s[..16], at - 16) == PreviousBlock(s, iv, at)
  {
    if at > 16 { SliceOfTail(s, 16, at - 32, at - 16); }
  }

  lemma {:induction false} EncryptedBlock(k: Cipher, iv: Block, s: Bytes, at: nat)
    requires |s| % 16 == 0 && at % 16 == 0 && at < |s|
    ensures var c := EncryptCbc(k, iv, s);
            |c| == |s| && c[at..at + 16] == k.enc(Xor(s[at..at + 16], PreviousBlock(c, iv, at)))
    decreases |s|
  {
    var first := k.enc(Xor(s[..16], iv));
    var c, rest := EncryptCbc(k, iv, s), EncryptCbc(k, first, s[16..]);
    assert c == first + rest && c[..16] == first;
    if at > 0 {
      EncryptedBlock(k, first, s[16..], at - 16);
      assert c[16..] == rest;
      SliceOfTail(s, 16, at - 16, at);
      SliceOfTail(c, 16, at - 16, at);
      SamePrevious(c, iv, at);
    }
  }

  lemma {:induction false} DecryptedBlock(k: Cipher, iv: Block, s: Bytes, at: nat)
    requires |s| % 16 == 0 && at % 16 == 0 && at < |s|
    ensures var p := DecryptCbc(k, iv, s);
            |p| == |s| && p[at..at + 16] == Xor(k.dec(s[at..at + 16]), PreviousBlock(s, iv, at))
    decreases |s|
  {
    var first, rest := Xor(k.dec(s[..16]), iv), DecryptCbc(k, s[..16], s[16..]);
    var p := DecryptCbc(k, iv, s);
    assert p == first + rest;
    if at > 0 {
      DecryptedBlock(k, s[..16], s[16..], at - 16);
      SliceOfTail(s, 16, at - 16, at);
      SliceOfTail(p, 16, at - 16, at);
      assert p[16..] == rest;
      SamePrevious(s, iv, at);
    }
  }

  /** Cipher block chaining: each block of ciphertext is the cipher of the plaintext block with the bits of the
      ciphertext block before it, or of the vector, flipped in. */
  lemma CbcEncrypts(k: Cipher, iv: Block, s: Bytes, at: nat, q: Block)
    requires |s| % 16 == 0 && at % 16 == 0 && at < |s|
    requires Differs(q, s[at..at + 16], if at == 0 then iv else EncryptCbc(k, iv, s)[at - 16..at])
    ensures EncryptCbc(k, iv, s)[at..at + 16] == k.enc(q)
  {
    EncryptedBlock(k, iv, s, at);
    DiffersIsXor(q, s[at..at + 16], PreviousBlock(EncryptCbc(k, iv, s), iv, at));
  }

  /** And back: each plaintext block is the decrypted block with the same bits flipped. */
  lemma CbcDecrypts(k: Cipher, iv: Block, s: Bytes, at: nat)
    requires |s| % 16 == 0 && at % 16 == 0 && at < |s|
    ensures |DecryptCbc(k, iv, s)| == |s|
    ensures Differs(DecryptCbc(k, iv, s)[at..at + 16], k.dec(s[at..at + 16]), if at == 0 then iv else s[at - 16..at])
  {
    DecryptedBlock(k, iv, s, at);
    DiffersIsXor(DecryptCbc(k, iv, s)[at..at + 16], k.dec(s[at..at + 16]), PreviousBlock(s, iv, at));
  }

  /** With an all-zero vector one block is just ciphered, and an equal neighbour is chained through its ciphertext. */
  lemma ZeroVector(k: Cipher, p: Block, q: Block)
    requires Differs(q, p, k.enc(p))
    ensures EncryptCbc(k, seq(16, i => 0), p) == k.enc(p)
    ensures EncryptCbc(k, seq(16, i => 0), p + p) == k.enc(p) + k.enc(q)
  {
    var zero: Block := seq(16, i => 0);
    forall j, i | 0 <= j < 16 && 0 <= i < 8 ensures Bit(p[j], i) == 1 <==> Bit(p[j], i) != Bit(zero[j], i) {
      ZeroBit(i);
    }
    CbcEncrypts(k, zero, p, 0, p);
    assert p[0..16] == p && (p + p)[0..16] == p && (p + p)[16..32] == p;
    var c := EncryptCbc(k, zero, p + p);
    CbcEncrypts(k, zero, p + p, 0, p);
    CbcEncrypts(k, zero, p + p, 16, q);
    assert c == c[0..16] + c[16..32];
  }

  // ---------------------------------------------------------------- base64

  /** The alphabets of sections 4 and 5 of RFC 4648. */
  lemma Alphabet(d: digit, url: bool)
    ensures d < 26 ==> Letter(d, url) == 'A' as int + d
    ensures 26 <= d < 52 ==> Letter(d, url) == 'a' as int + (d - 26)
    ensures 52 <= d < 62 ==> Letter(d, url) == '0' as int + (d - 52)
    ensures d == 62 ==> Letter(d, url) == (if url then '-' else '+') as int
    ensures d == 63 ==> Letter(d, url) == (if url then '_' else '/') as int
  {
  }

  /** Digits in any base, most significant first. */
  function Number(d: seq<nat>, base: nat): nat {
    if d == [] then 0 else Number(d[..|d| - 1], base) * base + d[|d| - 1]
  }

  lemma NumberNext(d: seq<nat>, x: nat, base: nat)
    ensures Number(d + [x], base) == Number(d, base) * base + x
  {
    assert (d + [x])[..|d|] == d;
  }

  lemma Number2(a: nat, b: nat, base: nat)
    ensures Number([a], base) == a && Number([a, b], base) == a * base + b
  {
    NumberNext([], a, base);
    NumberNext([a], b, base);
    assert [] + [a] == [a] && [a] + [b] == [a, b];
  }

  lemma Number3(a: nat, b: nat, c: nat, base: nat)
    ensures Number([a, b, c], base) == (a * base + b) * base + c
  {
    Number2(a, b, base);
    NumberNext([a, b], c, base);
    assert [a, b] + [c] == [a, b, c];
  }

  lemma Number4(a: nat, b: nat, c: nat, d: nat, base: nat)
    ensures Number([a, b, c, d], base) == ((a * base + b) * base + c) * base + d
  {
    Number3(a, b, c, base);
    NumberNext([a, b, c], d, base);
    assert [a, b, c] + [d] == [a, b, c, d];
  }

  /** The letters carry exactly the bits of the bytes, followed by `spare` zero bits. */
  ghost predicate Carries(letters: Bytes, bytes: Bytes, spare: nat, url: bool) {
    exists d: seq<digit> :: Letters(d, url) == letters && Number(d, 64) == Number(bytes, 256) * spare
  }

  lemma GroupCarries(a: byte, b: byte, c: byte, url: bool)
    ensures Carries(Letters([Digit0(a), Digit1(a, b), Digit2(b, c), Digit3(c)], url), [a, b, c], 1, url)
  {
    var d: seq<digit> := [Digit0(a), Digit1(a, b), Digit2(b, c), Digit3(c)];
    Number4(d[0], d[1], d[2], d[3], 64);
    Number3(a, b, c, 256);
    assert Number(d, 64) == Number([a, b, c], 256) * 1;
  }

  lemma TwoCarry(a: byte, b: byte, url: bool)
    ensures Carries(Letters([Digit0(a), Digit1(a, b), Digit2(b, 0)], url), [a, b], 4, url)
  {
    var d: seq<digit> := [Digit0(a), Digit1(a, b), Digit2(b, 0)];
    Number3(d[0], d[1], d[2], 64);
    Number2(a, b, 256);
    assert Number(d, 64) == Number([a, b], 256) * 4;
  }

  lemma OneCarries(a: byte, url: bool)
    ensures Carries(Letters([Digit0(a), Digit1(a, 0)], url), [a], 16, url)
  {
    var d: seq<digit> := [Digit0(a), Digit1(a, 0)];
    Number2(d[0], d[1], 64);
    Number2(a, 0, 256);
    assert Number(d, 64) == Number([a], 256) * 16;
  }

  lemma LettersJoin(d: seq<digit>, e: seq<digit>, url: bool)
    ensures Letters(d + e, url) == Letters(d, url) + Letters(e, url)
  {
  }

  lemma SameRest(s: Bytes)
    requires |s| >= 3
    ensures |s| % 3 == |s[3..]| % 3
  {
    assert |s| == |s[3..]| + 3;
  }

  /** Three bytes more are four letters more. */
  lemma EncodeCons(s: Bytes, url: bool)
    requires |s| >= 3
    ensures Carries(Encode64(s, url)[..4], s[..3], 1, url) && Encode64(s, url)[4..] == Encode64(s[3..], url)
  {
    var d: seq<digit> := [Digit0(s[0]), Digit1(s[0], s[1]), Digit2(s[1], s[2]), Digit3(s[2])];
    var pads: Bytes := if url then [] else Pads(|s| % 3);
    SameRest(s);
    LettersJoin(d, ToDigits(s[3..]), url);
    Regroup(Letters(d, url), Letters(ToDigits(s[3..]), url), pads);
    assert Encode64(s, url) == Letters(d, url) + Encode64(s[3..], url);
    assert Encode64(s, url)[..4] == Letters(d, url) && s[..3] == [s[0], s[1], s[2]];
    GroupCarries(s[0], s[1], s[2], url);
  }

  /** The letters for one or two bytes, which the standard alphabet fills up with equals signs to four. */
  lemma EncodeLast(s: Bytes, url: bool)
    requires |s| == 1 || |s| == 2
    ensures var e := Encode64(s, url); |e| == (if url then |s| + 1 else 4)
    ensures var e := Encode64(s, url); Carries(e[..|s| + 1], s, if |s| == 1 then 16 else 4, url)
    ensures forall i :: |s| < i < |Encode64(s, url)| ==> Encode64(s, url)[i] == '=' as int
  {
    var e, d := Encode64(s, url), ToDigits(s);
    assert e[..|s| + 1] == Letters(d, url);
    if |s| == 1 {
      OneCarries(s[0], url);
      assert s == [s[0]];
    } else {
      TwoCarry(s[0], s[1], url);
      assert s == [s[0], s[1]];
    }
  }

  /** The text falls into four letters for each three bytes, in order, and the letters of what is left. */
  lemma {:induction false} EncodeGroups(s: Bytes, url: bool, g: nat)
    requires 3 * g <= |s|
    ensures |Encode64(s, url)| >= 4 * g && Encode64(s, url)[4 * g..] == Encode64(s[3 * g..], url)
    decreases g
  {
    var e := Encode64(s, url);
    if g == 0 {
      assert s[0..] == s && e[0..] == e;
    } else {
      EncodeGroups(s, url, g - 1);
      EncodeCons(s[3 * (g - 1)..], url);
      OneGroupOn(s, e, Encode64(s[3 * (g - 1)..], url), g);
    }
  }

  lemma OneGroupOn(s: Bytes, e: Bytes, rest: Bytes, g: nat)
    requires 0 < g && 3 * g <= |s| && 4 <= |rest| && 4 * (g - 1) <= |e| && e[4 * (g - 1)..] == rest
    ensures 4 * g <= |e| && e[4 * g..] == rest[4..] && s[3 * (g - 1)..][3..] == s[3 * g..]
  {
    SliceOfTail(s, 3 * (g - 1), 3, |s| - 3 * (g - 1));
    SliceOfTail(e, 4 * (g - 1), 4, |rest|);
  }

  /** Letters 4g to 4g+3 carry bytes 3g to 3g+2. */
  lemma GroupAt(s: Bytes, url: bool, g: nat)
    requires 3 * g + 3 <= |s|
    ensures |Encode64(s, url)| >= 4 * g + 4
    ensures Carries(Encode64(s, url)[4 * g..4 * g + 4], s[3 * g..3 * g + 3], 1, url)
  {
    var e := Encode64(s, url);
    EncodeGroups(s, url, g);
    EncodeCons(s[3 * g..], url);
    SliceOfTail(s, 3 * g, 0, 3);
    SliceOfTail(e, 4 * g, 0, 4);
  }

  // ---------------------------------------------------------------- reading base64

  predicate InAlphabet(b: byte, url: bool) {
    || 'A' as int <= b <= 'Z' as int || 'a' as int <= b <= 'z' as int || '0' as int <= b <= '9' as int
    || b == (if url then '-' else '+') as int || b == (if url then '_' else '/') as int
  }

  predicate AllLetters(s: Bytes, url: bool) {
    forall i :: 0 <= i < |s| ==> InAlphabet(s[i], url)
  }

  lemma LetterOfDigit(b: byte, url: bool)
    ensures Digit(b, url).Some? <==> InAlphabet(b, url)
    ensures Digit(b, url).Some? ==> Letter(Digit(b, url).value, url) == b
  {
  }

  lemma {:induction false} DigitsOfLetters(s: Bytes, url: bool)
    ensures Digits(s, url).Some? <==> AllLetters(s, url)
    ensures Digits(s, url).Some? ==> Letters(Digits(s, url).value, url) == s
  {
    if s != [] {
      LetterOfDigit(s[0], url);
      DigitsOfLetters(s[1..], url);
      assert AllLetters(s, url) <==> InAlphabet(s[0], url) && AllLetters(s[1..], url) by {
        assert forall i :: 1 <= i < |s| ==> s[i] == s[1..][i - 1];
      }
      if Digits(s, url).Some? { assert s == [s[0]] + s[1..]; }
    }
  }

  lemma FourLess(n: nat)
    requires n >= 4
    ensures n % 4 == (n - 4) % 4
  {
  }

  lemma FromCons(d: seq<digit>)
    requires |d| >= 4
    ensures FromDigits(d).Some? <==> FromDigits(d[4..]).Some?
    ensures var group: Bytes := [Byte0(d[0], d[1]), Byte1(d[1], d[2]), Byte2(d[2], d[3])];
            FromDigits(d).Some? ==> FromDigits(d).value == group + FromDigits(d[4..]).value
  {
  }

  lemma {:induction false} WholeGroups(d: seq<digit>)
    ensures FromDigits(d).Some? <==> |d| % 4 != 1
  {
    if |d| >= 4 {
      WholeGroups(d[4..]);
      FourLess(|d|);
      FromCons(d);
    }
  }

  predicate NoBreaks(s: Bytes) {
    forall i :: 0 <= i < |s| ==> s[i] != '\n' as int && s[i] != '\r' as int
  }

  lemma {:induction false} NothingStripped(s: Bytes)
    requires NoBreaks(s)
    ensures StripBreaks(s) == s
  {
    if s != [] { NothingStripped(s[1..]); }
  }

  lemma StripCons(b: byte, s: Bytes)
    ensures StripBreaks([b] + s) == (if b == 10 || b == 13 then [] else [b]) + StripBreaks(s)
  {
    assert ([b] + s)[1..] == s;
  }

  lemma {:induction false} StripJoin(a: Bytes, b: Bytes)
    ensures StripBreaks(a + b) == StripBreaks(a) + StripBreaks(b)
  {
    if a == [] {
      assert a + b == b;
    } else {
      var head: Bytes := if a[0] == 10 || a[0] == 13 then [] else [a[0]];
      StripJoin(a[1..], b);
      StripCons(a[0], a[1..]);
      StripCons(a[0], a[1..] + b);
      assert a == [a[0]] + a[1..] && a + b == [a[0]] + (a[1..] + b);
      Regroup(head, StripBreaks(a[1..]), StripBreaks(b));
    }
  }

  /** Line breaks are skipped wherever they stand. */
  lemma BreaksIgnored(a: Bytes, c: Bytes, url: bool, b: byte)
    requires b == '\n' as int || b == '\r' as int
    ensures Decode64(a + [b] + c, url) == Decode64(a + c, url)
  {
    StripJoin(a + [b], c);
    StripJoin(a, [b]);
    StripJoin(a, c);
    assert [b][1..] == [] && StripBreaks([b]) == [];
    assert StripBreaks(a) + [] == StripBreaks(a);
  }

  /** How many equals signs the text ends with, as far as the decoder looks. */
  function Filling(s: Bytes, url: bool): (n: nat)
    ensures n <= |s|
  {
    if url || |s| % 4 != 0 || s == [] || s[|s| - 1] != '=' as int then 0
    else if s[|s| - 2] != '=' as int then 1
    else 2
  }

  lemma Unfilled(s: Bytes, url: bool)
    ensures WithoutPad(s, url) == if url || |s| % 4 == 0 then Some(s[..|s| - Filling(s, url)]) else None
  {
    assert s[..|s|] == s;
  }

  /** Exactly what is read: without line breaks, letters of the alphabet that do not leave one over; for the standard
      alphabet a multiple of four, of which the last one or two may be equals signs. Anything else is refused. */
  lemma Decode64Iff(s: Bytes, url: bool)
    requires NoBreaks(s)
    ensures Decode64(s, url).Some? <==>
              && (if url then |s| % 4 != 1 else |s| % 4 == 0)
              && AllLetters(s[..|s| - Filling(s, url)], url)
  {
    NothingStripped(s);
    Unfilled(s, url);
    var body := s[..|s| - Filling(s, url)];
    DigitsOfLetters(body, url);
    if Digits(body, url).Some? {
      WholeGroups(Digits(body, url).value);
      assert |Digits(body, url).value| == |Letters(Digits(body, url).value, url)| == |body|;
    }
  }

  /** The letters of the bytes read, against the letters read. */
  ghost predicate SameButSpare(d: seq<digit>, again: seq<digit>) {
    && |again| == |d|
    && (forall i :: 0 <= i < |d| && (i < |d| - 1 || |d| % 4 == 0) ==> again[i] == d[i])
    && (|d| % 4 == 2 ==> again[|d| - 1] == d[|d| - 1] / 16 * 16)
    && (|d| % 4 == 3 ==> again[|d| - 1] == d[|d| - 1] / 4 * 4)
  }

  lemma DigitsOfGroup(x: digit, y: digit, z: digit, w: digit)
    ensures var a, b, c := Byte0(x, y), Byte1(y, z), Byte2(z, w);
            Digit0(a) == x && Digit1(a, b) == y && Digit2(b, c) == z && Digit3(c) == w
  {
    HighAndLow(x, y / 16, 4);
    HighAndLow(y % 16, z / 4, 16);
    HighAndLow(z % 4, w, 64);
  }

  lemma FewDigitsAgain(d: seq<digit>, b: Bytes)
    requires |d| < 4 && FromDigits(d) == Some(b)
    ensures SameButSpare(d, ToDigits(b)) && |b| == (if |d| == 0 then 0 else |d| - 1)
  {
    if |d| == 2 {
      HighAndLow(d[0], d[1] / 16, 4);
    } else if |d| == 3 {
      DigitsOfGroup(d[0], d[1], d[2], 0);
    }
  }

  lemma SpareCons(head: seq<digit>, d: seq<digit>, again: seq<digit>)
    requires |head| == 4 && SameButSpare(d, again)
    ensures SameButSpare(head + d, head + again)
  {
    FourLess(|head + d|);
  }

  lemma ThreeMore(n: nat)
    ensures (n + 3) % 3 == n % 3
  {
  }

  lemma {:induction false} DigitsAgain(d: seq<digit>, b: Bytes)
    requires FromDigits(d) == Some(b)
    ensures SameButSpare(d, ToDigits(b)) && |b| % 3 == (if |d| % 4 == 0 then 0 else |d| % 4 - 1)
    decreases |d|
  {
    if |d| < 4 {
      FewDigitsAgain(d, b);
    } else {
      FromCons(d);
      var head, rest := d[..4], FromDigits(d[4..]).value;
      assert b[3..] == rest && d == head + d[4..];
      DigitsAgain(d[4..], rest);
      DigitsOfGroup(d[0], d[1], d[2], d[3]);
      assert ToDigits(b) == head + ToDigits(rest);
      SpareCons(head, d[4..], ToDigits(rest));
      FourLess(|d|);
      ThreeMore(|rest|);
    }
  }

  /** What is read is what the letters say: encoding it gives the text back, but for bits of the last letter that no
      byte has room for. */
  lemma DecodeThenEncode(s: Bytes, url: bool, b: Bytes) returns (d: seq<digit>, again: seq<digit>)
    requires NoBreaks(s) && Decode64(s, url) == Some(b)
    ensures s[..|s| - Filling(s, url)] == Letters(d, url) && SameButSpare(d, again)
    ensures Encode64(b, url) == Letters(again, url) + s[|s| - Filling(s, url)..]
  {
    d := DecodedFrom(s, url, b);
    again := ToDigits(b);
    DigitsAgain(d, b);
    LettersLength(d, s[..|s| - Filling(s, url)], url);
    FilledAgain(s, url, |b|);
  }

  lemma DecodedFrom(s: Bytes, url: bool, b: Bytes) returns (d: seq<digit>)
    requires NoBreaks(s) && Decode64(s, url) == Some(b)
    ensures FromDigits(d) == Some(b) && s[..|s| - Filling(s, url)] == Letters(d, url)
    ensures (url || |s| % 4 == 0) && |d| % 4 != 1
  {
    NothingStripped(s);
    Unfilled(s, url);
    DigitsOfLetters(s[..|s| - Filling(s, url)], url);
    d := Digits(s[..|s| - Filling(s, url)], url).value;
    WholeGroups(d);
  }

  lemma LettersLength(d: seq<digit>, s: Bytes, url: bool)
    requires Letters(d, url) == s
    ensures |d| == |s|
  {
  }

  /** The equals signs are as many as the encoder writes. */
  lemma FilledAgain(s: Bytes, url: bool, m: nat)
    requires url || |s| % 4 == 0
    requires var n := |s| - Filling(s, url); m % 3 == (if n % 4 == 0 then 0 else n % 4 - 1)
    requires (|s| - Filling(s, url)) % 4 != 1
    ensures (if url then [] else Pads(m % 3)) == s[|s| - Filling(s, url)..]
  {
    var n := |s| - Filling(s, url);
    if !url && s != [] {
      FourLess(|s|);
      if Filling(s, url) == 2 { assert s[n..] == ['=' as int, '=' as int]; }
    }
  }

  // ---------------------------------------------------------------- ids

  /** The text of a number, a kind and a salt between slashes, filled up to whole blocks by as many bytes as are
      missing, each saying how many, then ciphered and written in the standard alphabet, and that in the other: that is
      an id. */
  lemma IdPlaintext(k: Cipher, iv: Block, id: nat, obj: Bytes, salt: Bytes) returns (pad: Bytes)
    ensures |pad| < 16 && forall i :: 0 <= i < |pad| ==> pad[i] == |pad|
    ensures var plain := Print(id) + Ascii("/") + obj + Ascii("/") + salt + pad;
            && |plain| % 16 == 0
            && Encode(k, iv, id, obj, salt) == Encode64(Encode64(EncryptCbc(k, iv, plain), false), true)
  {
    var full := FullId(id, obj, salt);
    pad := Padding(|full|);
    assert Ascii("/") == [SLASH];
    assert Padded(full) == Print(id) + Ascii("/") + obj + Ascii("/") + salt + pad;
  }

  /** What an id decrypts to, if it is so written and whole blocks are. */
  function Decrypted(k: Cipher, iv: Block, e: Bytes): Option<Bytes> {
    match Decode64(e, true)
    case None => None
    case Some(text) =>
      match Decode64(text, false)
      case None => None
      case Some(c) => if |c| % 16 == 0 then Some(DecryptCbc(k, iv, c)) else None
  }

  ghost predicate InParts(plain: Bytes, number: Bytes, obj: Bytes, rest: Bytes) {
    && plain == number + Ascii("/") + obj + Ascii("/") + rest
    && Free(number, SLASH) && Free(obj, SLASH) && Free(rest, SLASH)
  }

  /** Reading an id whose text is in three parts gives the number and the second part if the first is a numeral below
      2^64, and nothing otherwise. */
  lemma DecodeParts(k: Cipher, iv: Block, e: Bytes, number: Bytes, obj: Bytes, rest: Bytes)
    requires Decrypted(k, iv, e).Some? && InParts(Decrypted(k, iv, e).value, number, obj, rest)
    ensures Decode(k, iv, e)
         == if Decimal(number) && Numeral(number) < UINT64_LIMIT then (Numeral(number), obj) else (0, [])
  {
    assert Ascii("/") == [SLASH];
    ThreeParts(Decrypted(k, iv, e).value, number, obj, rest);
    NumeralOrNot(number);
  }

  /** Reading anything else, or what does not decrypt, gives nothing. */
  lemma DecodeOnlyParts(k: Cipher, iv: Block, e: Bytes) returns (number: Bytes, obj: Bytes, rest: Bytes)
    requires Decode(k, iv, e) != (0, [])
    ensures Decrypted(k, iv, e).Some? && InParts(Decrypted(k, iv, e).value, number, obj, rest)
  {
    number, obj, rest := SplitInThree(Decrypted(k, iv, e).value);
  }

  lemma SplitInThree(plain: Bytes) returns (number: Bytes, obj: Bytes, rest: Bytes)
    requires |Split(plain, SLASH)| == 3
    ensures InParts(plain, number, obj, rest)
  {
    var parts := Split(plain, SLASH);
    SplitIsBetween(plain, SLASH);
    number, obj, rest := parts[0], parts[1], parts[2];
    assert number in parts && obj in parts && rest in parts;
    JoinedThree(parts);
    assert Ascii("/") == [SLASH];
    FromTheRight(number, obj, rest, [SLASH]);
  }

  lemma JoinedThree(parts: seq<Bytes>)
    requires |parts| == 3
    ensures Joined(parts, SLASH) == parts[0] + [SLASH] + (parts[1] + [SLASH] + parts[2])
  {
    var tail := parts[1..];
    assert Joined(tail[1..], SLASH) == tail[1];
    assert Joined(tail, SLASH) == tail[0] + [SLASH] + tail[1];
  }

  lemma FromTheRight(a: Bytes, b: Bytes, c: Bytes, x: Bytes)
    ensures a + x + b + x + c == a + x + (b + x + c)
  {
  }

  lemma ThreeParts(s: Bytes, a: Bytes, b: Bytes, c: Bytes)
    requires s == a + [SLASH] + b + [SLASH] + c && Free(a, SLASH) && Free(b, SLASH) && Free(c, SLASH)
    ensures Split(s, SLASH) == [a, b, c]
  {
    var tail := b + [SLASH] + c;
    FromTheRight(a, b, c, [SLASH]);
    SplitFree(c, SLASH);
    SplitAtSeparator(b, c, SLASH);
    SplitAtSeparator(a, tail, SLASH);
    assert [a] + ([b] + [c]) == [a, b, c];
  }

  lemma NumeralOrNot(s: Bytes)
    ensures ParseUint(s).Some? <==> Decimal(s) && Numeral(s) < UINT64_LIMIT
    ensures ParseUint(s).Some? ==> ParseUint(s).value == Numeral(s)
  {
    if AllDigits(s) { NumeralIsValue(s); }
  }
}
