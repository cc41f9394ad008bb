/** The 32-bit additive checksum behind CalculateSum32 (EDK2 BaseLib): the
    wrap-around sum of a buffer taken as consecutive UINT32 words. */
module Checksum {

  const TwoTo32: int := 0x1_0000_0000

  /** A UINT32 value. */
  type Word = x: int | 0 <= x < 0x1_0000_0000

  /** The exact (unbounded) sum of the words of s. */
  function Total(s: seq<Word>): int
  {
    if |s| == 0 then 0 else Total(s[..|s| - 1]) + s[|s| - 1]
  }

  /** The UINT32 sum of the words of s, as CalculateSum32 computes it with
      wrap-around on every addition. */
  function Sum32(s: seq<Word>): Word
  {
    Total(s) % TwoTo32
  }

  /** Adding modulo 2^32 step by step is the same as reducing the exact sum once. */
  lemma AddWraps(a: int, x: int)
    ensures (a % TwoTo32 + x) % TwoTo32 == (a + x) % TwoTo32
  {
  }

  /** The exact sum of a concatenation is the sum of the sums. */
  lemma {:induction false} TotalAppend(s: seq<Word>, t: seq<Word>)
    ensures Total(s + t) == Total(s) + Total(t)
  {
    if |t| == 0 {
      assert s + t == s;
    } else {
      var t' := t[..|t| - 1];
      assert (s + t)[..|s + t| - 1] == s + t';
      TotalAppend(s, t');
    }
  }

  /** Words that are all zero add nothing. */
  lemma {:induction false} TotalOfZeros(s: seq<Word>)
    requires forall i :: 0 <= i < |s| ==> s[i] == 0
    ensures Total(s) == 0
  {
    if |s| > 0 {
      TotalOfZeros(s[..|s| - 1]);
    }
  }

  /** Replacing one word changes the exact sum by exactly the difference of
      the two words. */
  lemma {:induction false} TotalUpdate(s: seq<Word>, i: nat, v: Word)
    requires i < |s|
    ensures Total(s[i := v]) == Total(s) - s[i] + v
  {
    var pre, post := s[..i], s[i + 1..];
    assert s == (pre + [s[i]]) + post;
    assert s[i := v] == (pre + [v]) + post;
    TotalAppend(pre + [s[i]], post);
    TotalAppend(pre + [v], post);
    TotalAppend(pre, [s[i]]);
    TotalAppend(pre, [v]);
    assert [s[i]][..0] == [] && [v][..0] == [];
  }

  /** Replacing one word by a different one always changes the 32-bit sum:
      a single corrupted word is detected. */
  lemma Sum32Update(s: seq<Word>, i: nat, v: Word)
    requires i < |s|
    ensures Sum32(s[i := v]) == (Sum32(s) - s[i] + v) % TwoTo32
    ensures Sum32(s[i := v]) == Sum32(s) <==> v == s[i]
  {
    TotalUpdate(s, i, v);
    var t := Total(s);
    AddWraps(t - s[i], v);
    assert (t % TwoTo32 - s[i] + v) % TwoTo32 == (t - s[i] + v) % TwoTo32;
    if Sum32(s[i := v]) == Sum32(s) {
      assert (t - s[i] + v) % TwoTo32 == t % TwoTo32;
      DifferenceBelowModulus(t - s[i] + v, t);
    }
  }

  /** Two integers closer than 2^32 that agree modulo 2^32 are equal. */
  lemma DifferenceBelowModulus(a: int, b: int)
    requires -TwoTo32 < a - b < TwoTo32
    requires a % TwoTo32 == b % TwoTo32
    ensures a == b
  {
    var qa, qb := a / TwoTo32, b / TwoTo32;
    assert a == qa * TwoTo32 + a % TwoTo32;
    assert b == qb * TwoTo32 + b % TwoTo32;
    assert a - b == (qa - qb) * TwoTo32;
  }

  /** CalculateSum32: sums length / 4 UINT32 words from the start of buffer,
      wrapping around on every addition, as a release build does (the DEBUG
      assertion that length is a multiple of four is not enforced). The
      routine cannot know the buffer's size; reading only words that exist
      is the caller's obligation and the precondition here. */
  method CalculateSum32(buffer: array<Word>, length: nat) returns (sum: Word)
    requires length / 4 <= buffer.Length
    ensures sum == Sum32(buffer[..length / 4])
  {
    var total := length / 4;
    sum := 0;
    var count := 0;
    while count < total
      invariant 0 <= count <= total
      invariant sum == Sum32(buffer[..count])
    {
      assert buffer[..count + 1][..count] == buffer[..count];
      AddWraps(Total(buffer[..count]), buffer[count]);
      sum := (sum + buffer[count]) % TwoTo32;
      count := count + 1;
    }
  }
}
