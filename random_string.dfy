/**
 * `randomString(length)` in src/modules/crypto.js: one base-32 digit per
 * random byte. The buffer `window.crypto.getRandomValues` fills is the
 * parameter `buf`; its length is the requested length.
 */
module RandomString {
  import opened Types
  import opened JsNumber

  const BASE: nat := 32

  /** The characters `toString(32)` can produce for a single digit. */
  predicate IsBase32Char(c: char)
  {
    ('0' <= c <= '9') || ('a' <= c <= 'v')
  }

  /** The loop of `randomString` over the filled buffer, appending one rendered digit per byte. */
  method RandomString(buf: seq<Byte>) returns (result: string)
    ensures |result| == |buf|
    ensures forall i | 0 <= i < |result| :: IsBase32Char(result[i])
    ensures forall i | 0 <= i < |result| :: DigitValue(result[i]) == buf[i] % BASE
  {
    result := "";
    for i := 0 to |buf|
      invariant |result| == i
      invariant forall k | 0 <= k < i :: IsBase32Char(result[k]) && DigitValue(result[k]) == buf[k] % BASE
    {
      var digit := ToRadixString(buf[i] % BASE, BASE);
      SingleDigit(buf[i] % BASE, BASE);
      result := result + digit;
    }
  }

  /** Two strings from the same buffer are equal: the contract of `RandomString` fixes its result. */
  lemma {:induction false} DigitsDetermineString(s: string, t: string)
    requires |s| == |t|
    requires forall i | 0 <= i < |s| :: IsBase32Char(s[i]) && IsBase32Char(t[i])
    requires forall i | 0 <= i < |s| :: DigitValue(s[i]) == DigitValue(t[i])
    ensures s == t
  {
    forall i | 0 <= i < |s|
      ensures s[i] == t[i]
    {
      if '0' <= s[i] <= '9' {
        assert '0' <= t[i] <= '9';
      } else {
        assert 'a' <= t[i] <= 'v';
      }
    }
  }
}
