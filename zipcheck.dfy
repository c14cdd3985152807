/** Classification of the extracted bytes as a ZIP archive by its leading
    signature, and the best-effort repairs tried when none is found
    (`validateAndCompleteExtraction` and `attemptAutoCorrection`,
    logic.js:739-778 and 818-848). The three signatures are those of the
    PKWARE ZIP File Format Specification (APPNOTE.TXT): the local file
    header (section 4.3.7), the end of central directory record (section
    4.3.16) and the data descriptor signature that opens a split or spanned
    archive (section 8.5). */
module ZipCheck {
  import opened Bits
  import opened Results

  const LOCAL_FILE_HEADER: seq<bv8> := [0x50, 0x4B, 0x03, 0x04]
  const END_OF_CENTRAL_DIRECTORY: seq<bv8> := [0x50, 0x4B, 0x05, 0x06]
  const SPANNING_MARKER: seq<bv8> := [0x50, 0x4B, 0x07, 0x08]

  datatype ZipError =
    | TooSmall          // fewer than 4 bytes
    | NoZipSignature    // no signature, and no repair applies

  predicate HasZipSignature(data: seq<bv8>)
    requires |data| >= 4
  {
    data[..4] == LOCAL_FILE_HEADER || data[..4] == END_OF_CENTRAL_DIRECTORY ||
    data[..4] == SPANNING_MARKER
  }

  /** `testData[0] === 0x50 && testData[1] === 0x4B`; reading past the end
      of a typed array yields `undefined`, which is never equal. */
  predicate StartsWithPK(t: seq<bv8>)
  {
    |t| >= 2 && t[0] == 0x50 && t[1] == 0x4B
  }

  /** `testData` for a shift `offset` in -2..2 other than 0: a zeroed array
      of `|data| + |offset|` bytes holding `data` from position `offset`
      for a positive offset, or `data.slice(-offset)` from position 0 for a
      negative one. */
  function ShiftCandidate(data: seq<bv8>, offset: int): (t: seq<bv8>)
    requires -2 <= offset <= 2 && offset != 0
    ensures |t| == |data| + (if offset < 0 then -offset else offset)
  {
    if offset > 0 then Zeros(offset) + data
    else
      var k := -offset;
      var kept := if k <= |data| then data[k..] else [];
      kept + Zeros(|data| + k - |kept|)
  }

  /** A positive shift never repairs anything, because byte 0 of the
      candidate is padding; a negative shift by `k` repairs exactly when
      bytes `k` and `k + 1` are "PK". */
  lemma ShiftCandidateCheck(data: seq<bv8>, offset: int)
    requires -2 <= offset <= 2 && offset != 0
    ensures offset > 0 ==> !StartsWithPK(ShiftCandidate(data, offset))
    ensures offset < 0 ==>
      (StartsWithPK(ShiftCandidate(data, offset)) <==>
        |data| >= 2 - offset && data[-offset] == 0x50 && data[1 - offset] == 0x4B)
    ensures offset < 0 && -offset <= |data| ==>
      ShiftCandidate(data, offset) == data[-offset..] + Zeros(-2 * offset)
  {
    if offset < 0 {
      var k := -offset;
      var t := ShiftCandidate(data, offset);
      if k <= |data| && |data| < k + 2 {
        assert t[1] == Zeros(|data| + k - (|data| - k))[1 - (|data| - k)];
      }
    }
  }

  /** Number of bytes up to and including the last non-zero one. */
  function ContentLength(s: seq<bv8>): (n: nat)
    ensures n <= |s|
  {
    if |s| == 0 then 0
    else if s[|s| - 1] == 0 then ContentLength(s[..|s| - 1])
    else |s|
  }

  lemma {:induction false} ContentLengthPadded(s: seq<bv8>, m: nat)
    ensures ContentLength(s + Zeros(m)) == ContentLength(s)
  {
    if m > 0 {
      var t := s + Zeros(m);
      assert t[..|t| - 1] == s + Zeros(m - 1);
      ContentLengthPadded(s, m - 1);
    } else {
      assert s + Zeros(0) == s;
    }
  }

  lemma {:induction false} ContentLengthDropped(s: seq<bv8>, k: nat)
    requires k < |s| && s[k] != 0
    ensures k < ContentLength(s) && ContentLength(s[k..]) == ContentLength(s) - k
  {
    if s[|s| - 1] == 0 {
      var s' := s[..|s| - 1];
      assert k < |s'| && s'[k] == s[k];
      ContentLengthDropped(s', k);
      assert s[k..][..|s[k..]| - 1] == s'[k..];
    }
  }

  /** The repairs of `attemptAutoCorrection` in the order they are tried:
      shift by -2, by -1 (+1 and +2 never apply), then prepend the local
      file header signature. Every repaired buffer is longer than the input
      and starts with "PK"; one without a valid signature has fewer
      content bytes, which bounds the recursion of the validator. No
      repair is offered only when byte 0 is 0x50 or there are at most 4
      bytes. */
  function AutoCorrection(data: seq<bv8>): (r: Option<seq<bv8>>)
    ensures r.Some? ==> |r.value| > |data| && StartsWithPK(r.value)
    ensures r.Some? && |r.value| >= 4 && !HasZipSignature(r.value) ==>
      ContentLength(r.value) < ContentLength(data)
    ensures r.None? ==> |data| <= 4 || data[0] == 0x50
  {
    if |data| >= 4 && data[2] == 0x50 && data[3] == 0x4B then
      ContentLengthPadded(data[2..], 4);
      ContentLengthDropped(data, 2);
      Some(data[2..] + Zeros(4))
    else if |data| >= 3 && data[1] == 0x50 && data[2] == 0x4B then
      ContentLengthPadded(data[1..], 2);
      ContentLengthDropped(data, 1);
      Some(data[1..] + Zeros(2))
    else if (|data| == 0 || data[0] != 0x50) && |data| > 4 then
      Some(LOCAL_FILE_HEADER + data)
    else
      None
  }

  /** The array `attemptAutoCorrection` builds for one shift: zeroed,
      `|fileData| + |offset|` bytes, with `fileData` set at `offset`, or
      `fileData.slice(-offset)` set at 0 (logic.js:823-830). */
  method ShiftedCopy(fileData: seq<bv8>, offset: int) returns (testData: array<bv8>)
    requires -2 <= offset <= 2 && offset != 0
    ensures fresh(testData) && testData[..] == ShiftCandidate(fileData, offset)
  {
    var shift := if offset < 0 then -offset else offset;
    testData := new bv8[|fileData| + shift](_ => 0);
    if offset > 0 {
      SetAt(testData, fileData, offset);
    } else {
      var kept := if shift <= |fileData| then fileData[shift..] else [];
      SetAt(testData, kept, 0);
    }
    assert testData[..] == ShiftCandidate(fileData, offset);
  }

  /** `attemptAutoCorrection`: tries the offsets -2, -1, 1, 2 on freshly
      built arrays, then the prepend repair. */
  method AttemptAutoCorrection(fileData: seq<bv8>) returns (r: Option<seq<bv8>>)
    ensures r == AutoCorrection(fileData)
  {
    var offset := -2;
    while offset <= 2
      invariant -2 <= offset <= 3
      invariant forall o :: -2 <= o < offset && o != 0 ==> !StartsWithPK(ShiftCandidate(fileData, o))
    {
      if offset != 0 {
        var testData := ShiftedCopy(fileData, offset);
        ShiftCandidateCheck(fileData, offset);
        if testData.Length >= 2 && testData[0] == 0x50 && testData[1] == 0x4B {
          return Some(testData[..]);
        }
      }
      offset := offset + 1;
    }
    ShiftCandidateCheck(fileData, -2);
    ShiftCandidateCheck(fileData, -1);
    if (|fileData| == 0 || fileData[0] != 0x50) && |fileData| > 4 {
      var fixedData := LOCAL_FILE_HEADER + fileData;
      if fixedData[0] == 0x50 && fixedData[1] == 0x4B {
        return Some(fixedData);
      }
    }
    return None;
  }

  /** `validateAndCompleteExtraction`: data of fewer than 4 bytes is
      rejected; data that starts with one of the three signatures is
      accepted as it is; otherwise a repair is validated again, and with
      none the data is rejected. Accepted data always carries a signature
      and is at least as long as the extracted bytes; it comes back
      unchanged exactly when it already had a signature, since every repair
      lengthens it. */
  function ValidateAndCompleteExtraction(fileData: seq<bv8>): (r: Result<seq<bv8>, ZipError>)
    ensures r.Success? ==> |r.value| >= 4 && HasZipSignature(r.value)
    ensures r.Success? ==> |r.value| >= |fileData|
    ensures r == Success(fileData) <==> |fileData| >= 4 && HasZipSignature(fileData)
    ensures r == Failure(TooSmall) <==> |fileData| < 4
    decreases if |fileData| >= 4 && HasZipSignature(fileData) then 0 else 1, ContentLength(fileData)
  {
    if |fileData| < 4 then Failure(TooSmall)
    else if HasZipSignature(fileData) then Success(fileData)
    else
      match AutoCorrection(fileData)
      case None => Failure(NoZipSignature)
      case Some(corrected) => ValidateAndCompleteExtraction(corrected)
  }

  /** An archive that lost its leading local file header signature, and
      whose next bytes offer no "PK" to shift to, is recovered by the
      prepend repair. */
  lemma PrependRecovers(rest: seq<bv8>)
    requires |rest| > 4 && rest[0] != 0x50
    requires !(rest[1] == 0x50 && rest[2] == 0x4B) && !(rest[2] == 0x50 && rest[3] == 0x4B)
    ensures ValidateAndCompleteExtraction(rest) == Success(LOCAL_FILE_HEADER + rest)
  {
    assert (LOCAL_FILE_HEADER + rest)[..4] == LOCAL_FILE_HEADER;
  }

  /** Data that starts with 0x50 but carries no signature, and offers no
      "PK" to shift to, is rejected: no repair applies. */
  lemma UnrepairableRejected(data: seq<bv8>)
    requires |data| >= 4 && data[0] == 0x50 && !HasZipSignature(data)
    requires !(data[1] == 0x50 && data[2] == 0x4B) && !(data[2] == 0x50 && data[3] == 0x4B)
    ensures ValidateAndCompleteExtraction(data) == Failure(NoZipSignature)
  {
  }
}
