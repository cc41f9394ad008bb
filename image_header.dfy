/** Validation of the Marvell boot-image prolog header (MV_FIRMWARE_IMAGE_HEADER).
    The image buffer is taken as a sequence of UINT32 words; the header's
    first three words are Magic, PrologSize (in bytes) and PrologChecksum.
    The remaining header fields are opaque payload that only enters the sum. */
module ImageHeader {
  import opened Efi
  import opened Checksum

  /** MAIN_HDR_MAGIC */
  const MainHdrMagic: Word := 0xB105B002

  /** Word indices of the three fields the check interprets. */
  const MagicIndex: nat := 0
  const PrologSizeIndex: nat := 1
  const PrologChecksumIndex: nat := 2

  /** The words a PrologSize makes CalculateSum32 read all exist in a buffer
      of the given number of words. Nothing in the source checks this. */
  predicate SumRangeOk(prologSize: Word, words: nat) {
    prologSize / 4 <= words
  }

  /** What CheckImageHeader needs of the caller's buffer to stay inside it:
      the three header words exist, and whenever the checksum is computed
      (the magic is right) the words PrologSize covers exist. */
  predicate Admissible(h: seq<Word>) {
    |h| >= 3 && (h[MagicIndex] == MainHdrMagic ==> SumRangeOk(h[PrologSizeIndex], |h|))
  }

  /** Number of words the checksum covers. */
  function CoveredWords(h: seq<Word>): nat
    requires |h| >= 2
  {
    h[PrologSizeIndex] / 4
  }

  /** The checksum the header must carry: the 32-bit sum of the first
      PrologSize bytes with the PrologChecksum word counted as zero. */
  function ExpectedChecksum(h: seq<Word>): Word
    requires |h| >= 3 && SumRangeOk(h[PrologSizeIndex], |h|)
  {
    Sum32(h[PrologChecksumIndex := 0][..CoveredWords(h)])
  }

  /** A header CheckImageHeader accepts. */
  predicate HeaderValid(h: seq<Word>)
    requires Admissible(h)
  {
    h[MagicIndex] == MainHdrMagic && ExpectedChecksum(h) == h[PrologChecksumIndex]
  }

  /** The expected checksum, stated without the in-place zeroing: the sum of
      the covered words minus the stored checksum when that word is covered. */
  lemma ExpectedChecksumWithoutZeroing(h: seq<Word>)
    requires |h| >= 3 && SumRangeOk(h[PrologSizeIndex], |h|)
    ensures ExpectedChecksum(h) ==
      (Total(h[..CoveredWords(h)]) - (if CoveredWords(h) > 2 then h[2] else 0)) % TwoTo32
  {
    var n := CoveredWords(h);
    if n > 2 {
      assert h[2 := 0][..n] == h[..n][2 := 0];
      TotalUpdate(h[..n], 2, 0);
    } else {
      assert h[2 := 0][..n] == h[..n];
    }
  }

  /** When the checksum word is covered, a header is valid exactly when the
      sum of its covered words, checksum included, is twice the checksum
      modulo 2^32. */
  lemma ValidIffSumIsTwiceChecksum(h: seq<Word>)
    requires Admissible(h) && h[MagicIndex] == MainHdrMagic && CoveredWords(h) > 2
    ensures HeaderValid(h) <==> Sum32(h[..CoveredWords(h)]) == (2 * h[2]) % TwoTo32
  {
    ExpectedChecksumWithoutZeroing(h);
    var t := Total(h[..CoveredWords(h)]);
    var c: int := h[2];
    AddWraps(t, -c);
    AddWraps(t - c, c);
    AddWraps(2 * c, -c);
  }

  /** Sealing a header: storing in PrologChecksum the checksum computed with
      that word zeroed, as the image producer does. */
  function Seal(h: seq<Word>): (r: seq<Word>)
    requires |h| >= 3 && SumRangeOk(h[PrologSizeIndex], |h|)
    ensures |r| == |h|
    ensures forall i :: 0 <= i < |h| && i != PrologChecksumIndex ==> r[i] == h[i]
  {
    h[PrologChecksumIndex := ExpectedChecksum(h)]
  }

  /** Every sealed header with the right magic and an acceptable PrologSize
      passes the check, whatever its other words hold. */
  lemma SealedHeaderValid(h: seq<Word>)
    requires |h| >= 3 && h[MagicIndex] == MainHdrMagic && SumRangeOk(h[PrologSizeIndex], |h|)
    ensures Admissible(Seal(h)) && HeaderValid(Seal(h))
  {
    assert Seal(h)[2 := 0] == h[2 := 0];
  }

  /** A valid header is its own seal: the stored checksum is the only one
      that passes. */
  lemma ValidHeaderIsSealed(h: seq<Word>)
    requires Admissible(h) && HeaderValid(h)
    ensures Seal(h) == h
  {
  }

  /** Changing any single covered word of a valid header, other than
      PrologSize (which moves the covered range) and PrologChecksum itself,
      makes the check fail. */
  lemma CorruptedWordDetected(h: seq<Word>, i: nat, v: Word)
    requires Admissible(h) && HeaderValid(h)
    requires i < CoveredWords(h) && i != PrologSizeIndex && i != PrologChecksumIndex
    requires v != h[i]
    ensures Admissible(h[i := v]) && !HeaderValid(h[i := v])
  {
    var h' := h[i := v];
    if i != MagicIndex {
      var n := CoveredWords(h);
      assert h'[2 := 0][..n] == h[2 := 0][..n][i := v];
      Sum32Update(h[2 := 0][..n], i, v);
    }
  }

  /** CheckImageHeader: checks the magic, zeroes PrologChecksum in place,
      sums PrologSize bytes and compares with the saved checksum. The saved
      checksum is written back only when the sums agree. */
  method CheckImageHeader(imageHeader: array<Word>) returns (status: EfiStatus)
    requires Admissible(imageHeader[..])
    modifies imageHeader
    ensures status == EfiSuccess || status == EfiDeviceError
    ensures status == EfiSuccess <==> HeaderValid(old(imageHeader[..]))
    ensures old(imageHeader[MagicIndex]) != MainHdrMagic ==> imageHeader[..] == old(imageHeader[..])
    ensures HeaderValid(old(imageHeader[..])) ==> imageHeader[..] == old(imageHeader[..])
    ensures old(imageHeader[MagicIndex]) == MainHdrMagic && !HeaderValid(old(imageHeader[..])) ==>
              imageHeader[..] == old(imageHeader[..])[PrologChecksumIndex := 0]
  {
    var headerLength := imageHeader[PrologSizeIndex];
    var checksumBackup := imageHeader[PrologChecksumIndex];

    if imageHeader[MagicIndex] != MainHdrMagic {
      return EfiDeviceError;
    }

    // The checksum field is left out of the sum.
    imageHeader[PrologChecksumIndex] := 0;

    var checksum := CalculateSum32(imageHeader, headerLength);
    if checksum != checksumBackup {
      return EfiDeviceError;
    }

    imageHeader[PrologChecksumIndex] := checksumBackup;
    assert imageHeader[..] == old(imageHeader[..]);
    return EfiSuccess;
  }

  /** A 64-byte header holding only the magic, PrologSize 64 and its
      checksum; every other header word is zero. */
  function MinimalHeader(): (h: seq<Word>)
    ensures |h| == 16 && h[MagicIndex] == MainHdrMagic && h[PrologSizeIndex] == 64
  {
    [MainHdrMagic, 64, MainHdrMagic + 64] + seq(13, _ => 0)
  }

  /** The minimal header, followed by any payload, passes the check: its
      checksum is the magic plus the prolog size. */
  lemma MinimalHeaderValid(payload: seq<Word>)
    ensures Admissible(MinimalHeader() + payload) && HeaderValid(MinimalHeader() + payload)
  {
    var h := MinimalHeader() + payload;
    var first: seq<Word> := [MainHdrMagic, 64, 0];
    var zeros: seq<Word> := seq(13, _ => 0);
    assert h[2 := 0][..16] == first + zeros;
    TotalAppend(first, zeros);
    TotalOfZeros(zeros);
    assert first[..2] == [MainHdrMagic, 64] && first[..2][..1] == [MainHdrMagic];
    assert [MainHdrMagic][..0] == [];
    assert Total([MainHdrMagic]) == MainHdrMagic;
    assert Total([MainHdrMagic, 64]) == MainHdrMagic + 64;
    assert Total(first) == MainHdrMagic + 64;
    assert CoveredWords(h) == 16;
    assert ExpectedChecksum(h) == (MainHdrMagic + 64) % TwoTo32;
  }
}
