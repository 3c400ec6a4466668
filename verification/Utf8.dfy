/** Finding UTF-8 character boundaries by scanning backwards, against parsing forwards. */
module Utf8 {

  type Bytes = seq<bv8>

  predicate IsSingleByte(c: bv8) { c < 0x80 }

  predicate IsFirstOfMultibyte(c: bv8) { c >= 0xC2 && c < 0xF5 }

  predicate IsContinuation(c: bv8) { c & 0xC0 == 0x80 }

  /** Number of continuation bytes after a first byte. */
  function ContinuationBytes(c: bv8): nat {
    if c < 0xC0 then 0 else [1, 1, 2, 3][((c & 0x30) >> 4) as int]
  }

  /** A complete character in the sense of `isValid`: the right number of bytes of the right shape. */
  predicate IsCharacter(s: Bytes) {
    && |s| > 0
    && (IsSingleByte(s[0]) || IsFirstOfMultibyte(s[0]))
    && |s| == 1 + ContinuationBytes(s[0])
    && forall i :: 1 <= i < |s| ==> IsContinuation(s[i])
  }

  predicate CharacterAt(s: Bytes, i: nat, n: nat) {
    i + n <= |s| && IsCharacter(s[i..i + n])
  }

  /** The length of a character is fixed by its first byte. */
  lemma CharacterLength(s: Bytes, i: nat, n: nat)
    requires CharacterAt(s, i, n)
    ensures i < |s| && n == 1 + ContinuationBytes(s[i])
    ensures IsSingleByte(s[i]) || IsFirstOfMultibyte(s[i])
  {
    assert s[i..i + n][0] == s[i];
  }

  /** The three classes of bytes that valid text is made of exclude each other. */
  lemma ByteClasses(c: bv8)
    ensures IsSingleByte(c) <==> c <= 0x7F
    ensures IsContinuation(c) <==> 0x80 <= c <= 0xBF
    ensures IsFirstOfMultibyte(c) <==> 0xC2 <= c <= 0xF4
    ensures IsSingleByte(c) || IsFirstOfMultibyte(c) ==> !IsContinuation(c)
    ensures IsSingleByte(c) ==> ContinuationBytes(c) == 0
    ensures IsFirstOfMultibyte(c) ==> ContinuationBytes(c) == if c < 0xE0 then 1 else if c < 0xF0 then 2 else 3
  {
  }

  /** The complete characters byte by byte: the continuation bytes that the ranges of first bytes call for. */
  lemma CharacterForms(s: Bytes)
    ensures IsCharacter(s) <==>
              && 1 <= |s| <= 4 && (forall i :: 1 <= i < |s| ==> 0x80 <= s[i] <= 0xBF)
              && (|s| == 1 ==> s[0] <= 0x7F) && (|s| == 2 ==> 0xC2 <= s[0] <= 0xDF)
              && (|s| == 3 ==> 0xE0 <= s[0] <= 0xEF) && (|s| == 4 ==> 0xF0 <= s[0] <= 0xF4)
  {
    if |s| > 0 {
      ByteClasses(s[0]);
    }
    forall i | 1 <= i < |s|
      ensures 0x80 <= s[i] <= 0xBF <==> IsContinuation(s[i])
    {
      ByteClasses(s[i]);
    }
  }

  /** What it takes for a character to start at a position and end in time, byte by byte. */
  lemma AcceptedBytes(s: Bytes, start: nat, buflen: int)
    requires start < |s| && start + buflen <= |s|
    ensures IsSingleByte(s[start]) || (exists n: nat :: n <= buflen && CharacterAt(s, start, n)) <==>
              || s[start] <= 0x7F
              || (0xC2 <= s[start] <= 0xDF && 2 <= buflen && 0x80 <= s[start + 1] <= 0xBF)
              || (0xE0 <= s[start] <= 0xEF && 3 <= buflen
                  && 0x80 <= s[start + 1] <= 0xBF && 0x80 <= s[start + 2] <= 0xBF)
              || (0xF0 <= s[start] <= 0xF4 && 4 <= buflen
                  && 0x80 <= s[start + 1] <= 0xBF && 0x80 <= s[start + 2] <= 0xBF && 0x80 <= s[start + 3] <= 0xBF)
  {
    ByteClasses(s[start]);
    var n := 1 + ContinuationBytes(s[start]);
    if m: nat :| m <= buflen && CharacterAt(s, start, m) {
      CharacterLength(s, start, m);
    }
    if n <= buflen {
      var piece := s[start..start + n];
      CharacterForms(piece);
      assert piece[0] == s[start];
      assert forall i :: 1 <= i < n ==> piece[i] == s[start + i];
      assert CharacterAt(s, start, n) <==> IsCharacter(piece);
    }
  }

  /** Looks at the character starting at `start`, with `buflen` bytes left. A single byte is accepted
      without looking at the length. */
  method IsValid(buf: array<bv8>, start: nat, buflen: int) returns (valid: bool)
    requires start < buf.Length && start + buflen <= buf.Length
    ensures valid <==> IsSingleByte(buf[start]) ||
                       exists n: nat :: n <= buflen && CharacterAt(buf[..], start, n)
    ensures valid <==>
              || buf[start] <= 0x7F
              || (0xC2 <= buf[start] <= 0xDF && 2 <= buflen && 0x80 <= buf[start + 1] <= 0xBF)
              || (0xE0 <= buf[start] <= 0xEF && 3 <= buflen
                  && 0x80 <= buf[start + 1] <= 0xBF && 0x80 <= buf[start + 2] <= 0xBF)
              || (0xF0 <= buf[start] <= 0xF4 && 4 <= buflen
                  && 0x80 <= buf[start + 1] <= 0xBF && 0x80 <= buf[start + 2] <= 0xBF
                  && 0x80 <= buf[start + 3] <= 0xBF)
  {
    AcceptedBytes(buf[..], start, buflen);
    forall n: nat | CharacterAt(buf[..], start, n)
      ensures n == 1 + ContinuationBytes(buf[start])
      ensures IsSingleByte(buf[start]) || IsFirstOfMultibyte(buf[start])
    {
      CharacterLength(buf[..], start, n);
    }
    ByteClasses(buf[start]);
    if IsSingleByte(buf[start]) { return true; }
    if !IsFirstOfMultibyte(buf[start]) { return false; }
    var charContinuationBytes := ContinuationBytes(buf[start]);
    if buflen < charContinuationBytes + 1 { return false; }
    ghost var character := buf[start..start + charContinuationBytes + 1];
    assert buf[..][start..start + (charContinuationBytes + 1)] == character;
    var p, i := start, charContinuationBytes;
    while i > 0
      invariant 0 <= i && p == start + charContinuationBytes - i
      invariant forall k :: 1 <= k <= charContinuationBytes - i ==> IsContinuation(character[k])
    {
      p := p + 1;
      if !IsContinuation(buf[p]) {
        assert !IsContinuation(character[charContinuationBytes - i + 1]);
        assert !IsCharacter(character);
        return false;
      }
      i := i - 1;
    }
    assert CharacterAt(buf[..], start, charContinuationBytes + 1);
    return true;
  }

  // ----- scanning backwards -----

  /** The first byte of the character that contains position i. */
  function CharacterStartFrom(s: Bytes, i: int, rewound: nat): (start: int)
    requires i < |s| || i <= 0
    requires rewound <= 5 && (rewound == 0 || rewound <= i)
    ensures i - 5 <= start <= i - rewound
    ensures i >= 0 ==> start >= 0
    ensures i <= 0 ==> start == i - rewound
    decreases 5 - rewound
  {
    if rewound < i && rewound < 5 && IsContinuation(s[i - rewound])
    then CharacterStartFrom(s, i, rewound + 1)
    else i - rewound
  }

  method CharacterStart(buf: array<bv8>, startingIndex: int) returns (start: int)
    requires startingIndex < buf.Length || startingIndex <= 0
    ensures start == CharacterStartFrom(buf[..], startingIndex, 0)
  {
    var charContinuationBytes := 0;
    while charContinuationBytes < startingIndex
          && charContinuationBytes < 5
          && IsContinuation(buf[startingIndex - charContinuationBytes])
      invariant 0 <= charContinuationBytes <= 5
      invariant charContinuationBytes == 0 || charContinuationBytes <= startingIndex
      invariant CharacterStartFrom(buf[..], startingIndex, charContinuationBytes)
             == CharacterStartFrom(buf[..], startingIndex, 0)
    {
      charContinuationBytes := charContinuationBytes + 1;
    }
    return startingIndex - charContinuationBytes;
  }

  /** On any input the scan passes only continuation bytes, and stops at the first byte that is not
      one, at the start of the buffer, or after five. */
  lemma {:induction false} ScanStops(s: Bytes, i: nat, rewound: nat)
    requires i < |s| && rewound <= 5 && rewound <= i
    ensures var start := CharacterStartFrom(s, i, rewound);
            && (forall k :: start < k <= i - rewound ==> IsContinuation(s[k]))
            && (start == 0 || start == i - 5 || !IsContinuation(s[start]))
    decreases 5 - rewound
  {
    if rewound < i && rewound < 5 && IsContinuation(s[i - rewound]) {
      ScanStops(s, i, rewound + 1);
    }
  }

  // ----- parsing forwards -----

  function Concat(cs: seq<Bytes>): Bytes {
    if cs == [] then [] else cs[0] + Concat(cs[1..])
  }

  /** Where the k-th character begins. */
  function Offset(cs: seq<Bytes>, k: nat): nat
    requires k <= |cs|
  {
    if k == 0 then 0 else |cs[0]| + Offset(cs[1..], k - 1)
  }

  predicate AllCharacters(cs: seq<Bytes>) {
    forall k :: 0 <= k < |cs| ==> IsCharacter(cs[k])
  }

  lemma {:induction false} Segment(cs: seq<Bytes>, k: nat)
    requires k < |cs|
    ensures Offset(cs, k + 1) == Offset(cs, k) + |cs[k]| <= |Concat(cs)|
    ensures Concat(cs)[Offset(cs, k)..Offset(cs, k + 1)] == cs[k]
    decreases k
  {
    if k == 0 {
      assert Offset(cs[1..], 0) == 0;
    } else {
      Segment(cs[1..], k - 1);
      var o, n := Offset(cs, k), Offset(cs, k + 1);
      assert Concat(cs)[o..n] == Concat(cs[1..])[o - |cs[0]|..n - |cs[0]|];
    }
  }

  /** Every position belongs to a character. */
  lemma {:induction false} Containing(cs: seq<Bytes>, i: nat) returns (k: nat)
    requires i < |Concat(cs)|
    ensures k < |cs|
    ensures Offset(cs, k) <= i < Offset(cs, k + 1)
  {
    if i < |cs[0]| {
      k := 0;
      assert Offset(cs[1..], 0) == 0;
    } else {
      k := Containing(cs[1..], i - |cs[0]|);
      k := k + 1;
    }
  }

  /** The bytes of the k-th character as they lie in the buffer. */
  lemma CharacterBytes(cs: seq<Bytes>, k: nat)
    requires AllCharacters(cs) && k < |cs|
    ensures Offset(cs, k) < Offset(cs, k + 1) <= |Concat(cs)| && Offset(cs, k + 1) <= Offset(cs, k) + 4
    ensures !IsContinuation(Concat(cs)[Offset(cs, k)])
    ensures forall j :: Offset(cs, k) < j < Offset(cs, k + 1) ==> IsContinuation(Concat(cs)[j])
  {
    Segment(cs, k);
    ByteClasses(cs[k][0]);
    var o, n := Offset(cs, k), Offset(cs, k + 1);
    var piece := Concat(cs)[o..n];
    assert piece[0] == Concat(cs)[o];
    forall j | o < j < n
      ensures IsContinuation(Concat(cs)[j])
    {
      assert piece[j - o] == Concat(cs)[j];
    }
  }

  /** Self-synchronisation: from any position of valid text the backward scan finds the start of the
      character that the forward parse puts there. */
  lemma ScanFindsStart(cs: seq<Bytes>, k: nat, i: nat)
    requires AllCharacters(cs) && k < |cs|
    requires Offset(cs, k) <= i < Offset(cs, k + 1)
    ensures i < |Concat(cs)|
    ensures CharacterStartFrom(Concat(cs), i, 0) == Offset(cs, k)
  {
    CharacterBytes(cs, k);
    ScanStops(Concat(cs), i, 0);
  }

  predicate IsBoundary(cs: seq<Bytes>, i: nat) {
    exists k :: 0 <= k < |cs| && Offset(cs, k) == i
  }

  /** A position is a boundary of the forward parse exactly when the scan stays there, exactly when its
      byte is not a continuation byte, and exactly when a character can be read from it. */
  lemma Boundaries(cs: seq<Bytes>, i: nat)
    requires AllCharacters(cs) && i < |Concat(cs)|
    ensures IsBoundary(cs, i) <==> CharacterStartFrom(Concat(cs), i, 0) == i
    ensures IsBoundary(cs, i) <==> !IsContinuation(Concat(cs)[i])
    ensures IsBoundary(cs, i) <==> exists n: nat :: CharacterAt(Concat(cs), i, n)
  {
    var k := Containing(cs, i);
    CharacterBytes(cs, k);
    ScanFindsStart(cs, k, i);
    var o, n := Offset(cs, k), Offset(cs, k + 1);
    if i == o {
      Segment(cs, k);
      assert CharacterAt(Concat(cs), i, n - o);
    } else {
      if j: nat :| j < |cs| && Offset(cs, j) == i {
        CharacterBytes(cs, j);
      }
      if m: nat :| CharacterAt(Concat(cs), i, m) {
        CharacterLength(Concat(cs), i, m);
        ByteClasses(Concat(cs)[i]);
      }
    }
  }

  /** No character is a proper prefix of what follows from another, so text splits in one way only. */
  lemma {:induction false} UniqueParse(cs: seq<Bytes>, ds: seq<Bytes>)
    requires AllCharacters(cs) && AllCharacters(ds)
    requires Concat(cs) == Concat(ds)
    ensures cs == ds
  {
    NonEmpty(cs);
    NonEmpty(ds);
    if cs != [] {
      assert IsCharacter(cs[0]) && IsCharacter(ds[0]);
      assert cs[0][0] == Concat(cs)[0] == Concat(ds)[0] == ds[0][0];
      assert cs[0] == Concat(cs)[..|cs[0]|] && ds[0] == Concat(ds)[..|ds[0]|];
      assert Concat(cs[1..]) == Concat(cs)[|cs[0]|..] && Concat(ds[1..]) == Concat(ds)[|ds[0]|..];
      UniqueParse(cs[1..], ds[1..]);
      assert cs == [cs[0]] + cs[1..] && ds == [ds[0]] + ds[1..];
    }
  }

  lemma NonEmpty(cs: seq<Bytes>)
    requires AllCharacters(cs)
    ensures Concat(cs) == [] <==> cs == []
  {
    if cs != [] {
      assert IsCharacter(cs[0]);
    }
  }

  // ----- the standard -----

  /** UTF8-char of section 4 of RFC 3629. */
  predicate IsUtf8Char(s: Bytes) {
    (|s| == 1 && s[0] <= 0x7F)
    || (|s| == 2 && 0xC2 <= s[0] <= 0xDF && IsTail(s[1]))
    || (|s| == 3 && IsTail(s[2])
        && ((s[0] == 0xE0 && 0xA0 <= s[1] <= 0xBF) || (0xE1 <= s[0] <= 0xEC && IsTail(s[1]))
            || (s[0] == 0xED && 0x80 <= s[1] <= 0x9F) || (0xEE <= s[0] <= 0xEF && IsTail(s[1]))))
    || (|s| == 4 && IsTail(s[2]) && IsTail(s[3])
        && ((s[0] == 0xF0 && 0x90 <= s[1] <= 0xBF) || (0xF1 <= s[0] <= 0xF3 && IsTail(s[1]))
            || (s[0] == 0xF4 && 0x80 <= s[1] <= 0x8F)))
  }

  predicate IsTail(c: bv8) { 0x80 <= c <= 0xBF }

  /** What the shape check lets through is limited to the second byte after E0, ED, F0 and F4. */
  lemma StrictlyValid(s: Bytes)
    ensures IsUtf8Char(s) <==>
              IsCharacter(s)
              && (s[0] == 0xE0 ==> s[1] >= 0xA0) && (s[0] == 0xED ==> s[1] <= 0x9F)
              && (s[0] == 0xF0 ==> s[1] >= 0x90) && (s[0] == 0xF4 ==> s[1] <= 0x8F)
  {
    if |s| > 0 {
      ByteClasses(s[0]);
    }
    forall i | 1 <= i < |s|
      ensures IsTail(s[i]) <==> IsContinuation(s[i])
    {
      ByteClasses(s[i]);
    }
    if 2 <= |s| <= 4 {
      assert IsCharacter(s) ==> IsContinuation(s[1]) && IsContinuation(s[|s| - 1]);
    }
  }

  /** The forms that are accepted beyond the standard: overlong ones, surrogates, and numbers past 10FFFF. */
  lemma FormsBeyondStandard(s: Bytes)
    ensures IsCharacter(s) && !IsUtf8Char(s) <==>
              && 3 <= |s| <= 4 && (forall i :: 1 <= i < |s| ==> 0x80 <= s[i] <= 0xBF)
              && (|s| == 3 ==> (s[0] == 0xE0 && s[1] <= 0x9F) || (s[0] == 0xED && 0xA0 <= s[1]))
              && (|s| == 4 ==> (s[0] == 0xF0 && s[1] <= 0x8F) || (s[0] == 0xF4 && 0x90 <= s[1]))
  {
    StrictlyValid(s);
    CharacterForms(s);
  }

  lemma OverlongFormAccepted()
    ensures IsCharacter([0xE0, 0x80, 0x80]) && !IsUtf8Char([0xE0, 0x80, 0x80])
  {
    ByteClasses(0xE0);
  }
}
