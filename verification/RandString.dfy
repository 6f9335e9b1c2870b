/** Random letters: ten six-bit digits per source word, digits of 52 or more rejected, the buffer filled from the
    back. */
module RandString {
  import opened ByteText

  function LetterByte(d: nat): byte
    requires d < 52
  {
    if d < 26 then 97 + d else 39 + d
  }

  /** The word after its k low digits have been shifted out. */
  function Shifted(word: nat, k: nat): nat {
    if k == 0 then word else Shifted(word, k - 1) / 64
  }

  function Pow64(k: nat): nat {
    if k == 0 then 1 else 64 * Pow64(k - 1)
  }

  /** The number that the first k digits of the word make, low digit first. */
  function FromDigits(word: nat, k: nat): nat {
    if k == 0 then 0 else FromDigits(word, k - 1) + Pow64(k - 1) * (Shifted(word, k - 1) % 64)
  }

  /** The digits are the word's own six-bit groups: with what is left above them they make up the word. */
  lemma {:induction false} DigitsMakeTheWord(word: nat, k: nat)
    ensures word == FromDigits(word, k) + Pow64(k) * Shifted(word, k)
  {
    if k > 0 {
      DigitsMakeTheWord(word, k - 1);
      LowestDigitOut(Pow64(k - 1), Shifted(word, k - 1));
    }
  }

  lemma LowestDigitOut(p: nat, w: nat)
    ensures p * w == p * (w % 64) + (64 * p) * (w / 64)
  {
    var q, r := w / 64, w % 64;
    assert w == 64 * q + r;
    assert p * (64 * q + r) == (64 * p) * q + p * r;
  }

  /** The p-th digit of the source: words in order, low digits first. Six bits per letter, so a 63-bit word holds ten
      digits; its top three bits are not used. */
  function Digit(words: seq<nat>, p: nat): (d: nat)
    requires p < 10 * |words|
    ensures d < 64
  {
    if p < 10 then Shifted(words[0], p) % 64 else Digit(words[1..], p - 10)
  }

  lemma {:induction false} DigitPlace(words: seq<nat>, w: nat, k: nat)
    requires w < |words| && k < 10
    ensures Digit(words, 10 * w + k) == Shifted(words[w], k) % 64
  {
    if w > 0 { DigitPlace(words[1..], w - 1, k); }
  }

  lemma {:induction false} DigitOfPrefix(words: seq<nat>, used: nat, p: nat)
    requires used <= |words| && p < 10 * used
    ensures Digit(words[..used], p) == Digit(words, p)
  {
    if p >= 10 {
      DigitOfPrefix(words[1..], used - 1, p - 10);
      assert words[..used][1..] == words[1..][..used - 1];
    }
  }

  /** The digits below 52 among the first k. */
  function Accepted(words: seq<nat>, k: nat): (a: seq<nat>)
    requires k <= 10 * |words|
    ensures |a| <= k
  {
    if k == 0 then []
    else if Digit(words, k - 1) < 52 then Accepted(words, k - 1) + [Digit(words, k - 1)]
    else Accepted(words, k - 1)
  }

  /** All accepted digits of a run of words. */
  function AcceptedOf(words: seq<nat>): (a: seq<nat>) {
    Accepted(words, 10 * |words|)
  }

  lemma {:induction false} AcceptedPrefix(words: seq<nat>, i: nat, k: nat)
    requires i <= k <= 10 * |words|
    ensures Accepted(words, i) <= Accepted(words, k)
  {
    if i < k { AcceptedPrefix(words, i, k - 1); }
  }

  lemma {:induction false} AcceptedOfPrefix(words: seq<nat>, used: nat, k: nat)
    requires used <= |words| && k <= 10 * used
    ensures Accepted(words[..used], k) == Accepted(words, k)
  {
    if k > 0 {
      AcceptedOfPrefix(words, used, k - 1);
      DigitOfPrefix(words, used, k - 1);
    }
  }

  /** The source has handed out the digits that were accepted into taken; remain of the used-th word's digits are still
      in cache, and before that word was drawn fewer than n had been accepted. */
  ghost predicate At(words: seq<nat>, n: nat, used: nat, cache: nat, remain: nat, taken: seq<nat>) {
    && 1 <= used <= |words| && remain <= 10
    && cache == Shifted(words[used - 1], 10 - remain)
    && taken == Accepted(words, 10 * used - remain)
    && (used > 1 ==> |Accepted(words, 10 * (used - 1))| < n)
  }

  lemma WordDrawn(words: seq<nat>, n: nat, used: nat, cache: nat, taken: seq<nat>)
    requires At(words, n, used, cache, 0, taken) && |taken| < n <= |AcceptedOf(words)|
    ensures used < |words| && At(words, n, used + 1, words[used], 10, taken)
  {
  }

  lemma DigitTaken(words: seq<nat>, n: nat, used: nat, cache: nat, remain: nat, taken: seq<nat>, idx: nat, rest: nat)
    requires remain > 0 && At(words, n, used, cache, remain, taken) && idx == cache % 64 && rest == cache / 64
    ensures At(words, n, used, rest, remain - 1, if idx < 52 then taken + [idx] else taken)
  {
    DigitPlace(words, used - 1, 10 - remain);
  }

  /** The next six bits of the source, drawing a new word when the current one is used up. */
  method NextDigit(words: seq<nat>, ghost n: nat, used0: nat, cache0: nat, remain0: nat, ghost taken: seq<nat>)
    returns (idx: nat, used: nat, cache: nat, remain: nat)
    requires At(words, n, used0, cache0, remain0, taken) && |taken| < n <= |AcceptedOf(words)|
    ensures At(words, n, used, cache, remain, if idx < 52 then taken + [idx] else taken)
    ensures if remain0 == 0 then used == used0 + 1 else used == used0 && remain < remain0
  {
    used, cache, remain := used0, cache0, remain0;
    if remain == 0 {
      WordDrawn(words, n, used, cache, taken);
      cache, remain := words[used], 10;
      used := used + 1;
    }
    DigitTaken(words, n, used, cache, remain, taken, cache % 64, cache / 64);
    idx, cache, remain := cache % 64, cache / 64, remain - 1;
  }

  /** The buffer's end holds the accepted digits' letters, last digit first. */
  ghost predicate Filled(b: seq<byte>, accepted: seq<nat>) {
    && |accepted| <= |b|
    && forall j :: 0 <= j < |accepted| ==> accepted[j] < 52 && b[|b| - 1 - j] == LetterByte(accepted[j])
  }

  method Put(b: array<byte>, i: nat, d: nat, ghost accepted: seq<nat>)
    requires i < b.Length && i == b.Length - 1 - |accepted| && d < 52 && Filled(b[..], accepted)
    modifies b
    ensures Filled(b[..], accepted + [d])
  {
    b[i] := LetterByte(d);
  }

  /** The generated string is the first n accepted digits of the source, last one first, and no more words are drawn
      than it takes to see them. */
  method RandString(n: nat, words: seq<nat>) returns (s: Bytes, used: nat)
    requires |words| > 0 && |AcceptedOf(words)| >= n
    ensures |s| == n
    ensures forall j :: 0 <= j < n ==> AcceptedOf(words)[j] < 52 && s[n - 1 - j] == LetterByte(AcceptedOf(words)[j])
    ensures 1 <= used <= |words| && |AcceptedOf(words[..used])| >= n
    ensures used > 1 ==> |AcceptedOf(words[..used - 1])| < n
  {
    var b := new byte[n];
    var i := n - 1;
    var cache: nat, remain: nat := words[0], 10;
    used := 1;
    ghost var taken := [];
    while i >= 0
      invariant -1 <= i < n && |taken| == n - 1 - i
      invariant At(words, n, used, cache, remain, taken)
      invariant Filled(b[..], taken)
      decreases |words| - used, remain
    {
      var idx: nat;
      idx, used, cache, remain := NextDigit(words, n, used, cache, remain, taken);
      if idx < 52 {
        Put(b, i, idx, taken);
        i := i - 1;
        taken := taken + [idx];
      }
    }
    s := b[..];
    AtEnd(words, n, used, cache, remain, taken);
  }

  lemma AllOfPrefix(words: seq<nat>, used: nat)
    requires used <= |words|
    ensures AcceptedOf(words[..used]) == Accepted(words, 10 * used)
  {
    AcceptedOfPrefix(words, used, 10 * used);
  }

  lemma FirstAccepted(words: seq<nat>, used: nat, pos: nat)
    requires used <= |words| && pos <= 10 * used
    ensures Accepted(words, pos) <= AcceptedOf(words) && Accepted(words, pos) <= AcceptedOf(words[..used])
  {
    AcceptedPrefix(words, pos, 10 * used);
    AcceptedPrefix(words, pos, 10 * |words|);
    AllOfPrefix(words, used);
  }

  lemma AtEnd(words: seq<nat>, n: nat, used: nat, cache: nat, remain: nat, taken: seq<nat>)
    requires At(words, n, used, cache, remain, taken)
    ensures taken <= AcceptedOf(words) && taken <= AcceptedOf(words[..used])
    ensures used > 1 ==> |AcceptedOf(words[..used - 1])| < n
  {
    FirstAccepted(words, used, 10 * used - remain);
    AllOfPrefix(words, used - 1);
  }

  // ---------------------------------------------------------------- digits and letters, one by one

  lemma {:induction false} PowPositive(k: nat)
    ensures Pow64(k) > 0
  {
    if k > 0 { PowPositive(k - 1); }
  }

  /** The p-th six bits of the source: ten groups a word, the lowest first. */
  function SixBits(words: seq<nat>, p: nat): nat
    requires p < 10 * |words|
  {
    PowPositive(p % 10);
    words[p / 10] / Pow64(p % 10) % 64
  }

  lemma {:induction false} LowDigitsFit(word: nat, k: nat)
    ensures FromDigits(word, k) < Pow64(k)
  {
    if k > 0 {
      LowDigitsFit(word, k - 1);
      OneMore(FromDigits(word, k - 1), Pow64(k - 1), Shifted(word, k - 1) % 64);
    }
  }

  lemma OneMore(low: nat, p: nat, d: nat)
    requires low < p && d < 64
    ensures low + p * d < 64 * p
  {
    assert p * d <= p * 63;
  }

  lemma ShiftedIs(word: nat, k: nat)
    ensures Pow64(k) > 0 && Shifted(word, k) == word / Pow64(k)
  {
    DigitsMakeTheWord(word, k);
    LowDigitsFit(word, k);
    Quotient(word, Pow64(k), Shifted(word, k), FromDigits(word, k));
  }

  lemma DigitIsSixBits(words: seq<nat>, p: nat)
    requires p < 10 * |words|
    ensures Digit(words, p) == SixBits(words, p)
  {
    DigitPlace(words, p / 10, p % 10);
    ShiftedIs(words[p / 10], p % 10);
  }

  /** How many of the first k groups are below 52. */
  function Below(words: seq<nat>, k: nat): (n: nat)
    requires k <= 10 * |words|
    ensures n <= k
  {
    if k == 0 then 0 else Below(words, k - 1) + if SixBits(words, k - 1) < 52 then 1 else 0
  }

  /** The accepted digits are exactly the groups below 52, in the order of the source: there are as many, and the p-th
      group, if below 52, comes after as many digits as there are such groups before it. */
  lemma {:induction false} AcceptedInOrder(words: seq<nat>, k: nat, p: nat)
    requires k <= 10 * |words|
    ensures |Accepted(words, k)| == Below(words, k)
    ensures p < k && SixBits(words, p) < 52 ==>
              Below(words, p) < |Accepted(words, k)| && Accepted(words, k)[Below(words, p)] == SixBits(words, p)
  {
    if k > 0 {
      AcceptedInOrder(words, k - 1, p);
      DigitIsSixBits(words, k - 1);
    }
  }

  /** The alphabet: the small letters, then the capitals. */
  lemma LetterIs(d: nat)
    requires d < 52
    ensures LetterByte(d) == if d < 26 then 'a' as int + d else 'A' as int + (d - 26)
  {
  }
}
