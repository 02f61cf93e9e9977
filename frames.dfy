/** Six-frame codon enumeration: GetReadingFramesAsCodons in bio.cpp, proved
    against an explicit-offset definition of the six reading frames. */
module Frames {
  import opened CppStd
  import opened Dna

  /** A codon: three RNA bases. */
  predicate IsRnaCodon(c: string) {
    |c| == 3 && IsRnaBase(c[0]) && IsRnaBase(c[1]) && IsRnaBase(c[2])
  }

  /** Consecutive non-overlapping triplets of `s` from its start; one or two
      trailing characters that do not fill a triplet are discarded. */
  function Codons(s: string): seq<string> {
    if |s| < 3 then [] else [s[..3]] + Codons(s[3..])
  }

  /** `s` holds |s|/3 codons, the i-th being characters 3i, 3i+1, 3i+2. */
  lemma {:induction false} CodonsAt(s: string)
    ensures |Codons(s)| == |s| / 3
    ensures forall i :: 0 <= i < |s| / 3 ==> Codons(s)[i] == s[3 * i .. 3 * i + 3]
  {
    if |s| >= 3 {
      CodonsAt(s[3..]);
      forall i | 1 <= i < |s| / 3
        ensures Codons(s)[i] == s[3 * i .. 3 * i + 3]
      {
        assert Codons(s)[i] == Codons(s[3..])[i - 1];
        assert s[3..][3 * (i - 1) .. 3 * (i - 1) + 3] == s[3 * i .. 3 * i + 3];
      }
    }
  }

  /** The six reading frames by explicit offsets. Frames 0, 1, 2 cut the RNA
      transcript after dropping its first 0, 1, 2 characters; frames 3, 4, 5 cut the
      input itself in the RNA alphabet (T replaced by U, no reversal, no complement)
      after dropping its first 0, 1, 2 characters. */
  function ReadingFrames(dna: string): seq<seq<string>>
    requires IsValidDNASequence(dna) && |dna| >= 3
  {
    TranscriptOfPrefix(dna, 0);
    var t := Transcript(dna);
    var a := ReplaceTWithU(dna);
    [Codons(t), Codons(t[1..]), Codons(t[2..]), Codons(a), Codons(a[1..]), Codons(a[2..])]
  }

  /** The six frames, indexed by frame number rather than listed. */
  lemma ReadingFramesByOffset(dna: string)
    requires IsValidDNASequence(dna) && |dna| >= 3
    ensures |Transcript(dna)| == |dna| && |ReadingFrames(dna)| == 6
    ensures forall f :: 0 <= f < 3 ==> ReadingFrames(dna)[f] == Codons(Transcript(dna)[f..])
    ensures forall f :: 0 <= f < 3 ==> ReadingFrames(dna)[3 + f] == Codons(ReplaceTWithU(dna)[f..])
  {
    TranscriptOfPrefix(dna, 0);
  }

  /** Valid DNA written in the RNA alphabet is RNA. */
  lemma RnaOfValid(dna: string)
    requires IsValidDNASequence(dna)
    ensures forall k :: 0 <= k < |ReplaceTWithU(dna)| ==> IsRnaBase(ReplaceTWithU(dna)[k])
  {
  }

  /** Every codon cut from RNA text is an RNA codon. */
  lemma CodonsOfRna(s: string)
    requires forall k :: 0 <= k < |s| ==> IsRnaBase(s[k])
    ensures forall c :: c in Codons(s) ==> IsRnaCodon(c)
  {
    CodonsAt(s);
    forall c | c in Codons(s)
      ensures IsRnaCodon(c)
    {
      var i :| 0 <= i < |Codons(s)| && Codons(s)[i] == c;
      assert c == s[3 * i .. 3 * i + 3];
      assert c[0] == s[3 * i] && c[1] == s[3 * i + 1] && c[2] == s[3 * i + 2];
    }
  }

  /** The text frame f is cut from: the transcript for f < 3, the input in the
      RNA alphabet otherwise. */
  function FrameSource(dna: string, f: nat): string {
    if f < 3 then Transcript(dna) else ReplaceTWithU(dna)
  }

  /** How many leading characters of its source frame f skips. */
  function FrameOffset(f: nat): nat {
    if f < 3 then f else f - 3
  }

  /** Frame f holds (n - f%3)/3 codons; codon i is the triplet at offset f%3 + 3i of
      the frame's source text, and is three RNA bases. */
  lemma {:induction false} ReadingFrameAt(dna: string, f: nat)
    requires IsValidDNASequence(dna) && |dna| >= 3 && f < 6
    ensures |FrameSource(dna, f)| == |dna|
    ensures |ReadingFrames(dna)| == 6
    ensures |ReadingFrames(dna)[f]| == (|dna| - FrameOffset(f)) / 3
    ensures 3 * |ReadingFrames(dna)[f]| <= |dna| - FrameOffset(f) < 3 * |ReadingFrames(dna)[f]| + 3
    ensures forall i :: 0 <= i < |ReadingFrames(dna)[f]| ==>
      FrameOffset(f) + 3 * i + 3 <= |dna| &&
      ReadingFrames(dna)[f][i] == FrameSource(dna, f)[FrameOffset(f) + 3 * i .. FrameOffset(f) + 3 * i + 3]
    ensures forall c :: c in ReadingFrames(dna)[f] ==> IsRnaCodon(c)
  {
    var whole := FrameSource(dna, f);
    assert |whole| == |dna| && forall k :: 0 <= k < |whole| ==> IsRnaBase(whole[k]) by {
      TranscriptOfPrefix(dna, 0);
      TranscriptAlphabet(dna);
      RnaOfValid(dna);
    }
    assert ReadingFrames(dna)[f] == Codons(whole[FrameOffset(f)..]) by {
      ReadingFramesByOffset(dna);
    }
    CodonsFrom(whole, FrameOffset(f));
  }

  /** The codons of RNA text read from offset `off`: (n - off)/3 of them, codon i
      being the triplet at off + 3i, each three RNA bases. */
  lemma CodonsFrom(whole: string, off: nat)
    requires off <= |whole|
    requires forall k :: 0 <= k < |whole| ==> IsRnaBase(whole[k])
    ensures |Codons(whole[off..])| == (|whole| - off) / 3
    ensures forall i :: 0 <= i < |Codons(whole[off..])| ==>
      off + 3 * i + 3 <= |whole| &&
      Codons(whole[off..])[i] == whole[off + 3 * i .. off + 3 * i + 3]
    ensures forall c :: c in Codons(whole[off..]) ==> IsRnaCodon(c)
  {
    var src := whole[off..];
    CodonsAt(src);
    CodonsOfRna(src);
    forall i | 0 <= i < |src| / 3
      ensures off + 3 * i + 3 <= |whole|
      ensures Codons(src)[i] == whole[off + 3 * i .. off + 3 * i + 3]
    {
      SliceOfSuffix(whole, off, 3 * i, 3 * i + 3);
    }
  }

  /** There are exactly six frames; frames k and 3+k hold (n-k)/3 codons each,
      and every codon of every frame is three RNA bases. */
  lemma ReadingFramesShape(dna: string)
    requires IsValidDNASequence(dna) && |dna| >= 3
    ensures |ReadingFrames(dna)| == 6
    ensures forall k :: 0 <= k < 3 ==> |ReadingFrames(dna)[k]| == (|dna| - k) / 3
    ensures forall k :: 3 <= k < 6 ==> |ReadingFrames(dna)[k]| == (|dna| - (k - 3)) / 3
    ensures forall f, c :: 0 <= f < 6 && c in ReadingFrames(dna)[f] ==> IsRnaCodon(c)
  {
    forall f | 0 <= f < 6
      ensures |ReadingFrames(dna)[f]| == (|dna| - FrameOffset(f)) / 3
      ensures forall c :: c in ReadingFrames(dna)[f] ==> IsRnaCodon(c)
    {
      ReadingFrameAt(dna, f);
    }
    ReadingFrameAt(dna, 0);
  }

  /** One pass of `while (iss >> character)` in the antiparallel half of bio.cpp:
      each character read is appended to the partial `codon`, which is emitted and
      cleared once it holds three. Reads the whole of `chars` after whatever partial
      codon was carried in; returns the codons emitted and the partial codon left. */
  method ReadCodons(chars: string, codon: string) returns (innerVector: seq<string>, codon': string)
    requires |codon| < 3
    ensures innerVector == Codons(codon + chars)
    ensures 3 * |innerVector| + |codon'| == |codon| + |chars| && |codon'| < 3
    ensures codon' == (codon + chars)[3 * |innerVector|..]
  {
    ghost var w := codon + chars;
    ghost var start := 0;
    innerVector, codon' := [], codon;
    var j := 0;
    while j < |chars|
      invariant 0 <= j <= |chars|
      invariant start == 3 * |innerVector| && |codon| + j == start + |codon'| && |codon'| < 3
      invariant codon' == w[start..|codon| + j]
      invariant forall q :: 0 <= q < |innerVector| ==> innerVector[q] == w[3 * q .. 3 * q + 3]
    {
      codon' := codon' + [chars[j]];
      assert codon' == w[start..|codon| + j + 1];
      if |codon'| == 3 {
        innerVector := innerVector + [codon'];
        codon' := "";
        start := start + 3;
        assert w[start..|codon| + j + 1] == codon';
      }
      j := j + 1;
    }
    CodonsAt(w);
  }

  /** A complete codon of the forward half: appended to the frame's list, the
      partial codon cleared, and two more characters erased from the transcript
      copy `offsetTranscript'` derived from `offsetTranscript`. */
  method EmitCodonErasing(ghost w: string, innerVector: seq<string>, codon: string,
                          ghost offsetTranscript: string, offsetTranscript': string)
    returns (innerVector': seq<string>, codon': string, offsetTranscript'': string)
    requires 3 * |innerVector| + 3 <= |w| && codon == w[3 * |innerVector|..3 * |innerVector| + 3]
    requires forall q :: 0 <= q < |innerVector| ==> innerVector[q] == w[3 * q .. 3 * q + 3]
    requires offsetTranscript' == Erase(offsetTranscript, 0, 2 * |innerVector|)
    ensures innerVector' == innerVector + [codon] && codon' == ""
    ensures forall q :: 0 <= q < |innerVector'| ==> innerVector'[q] == w[3 * q .. 3 * q + 3]
    ensures offsetTranscript'' == Erase(offsetTranscript, 0, 2 * |innerVector'|)
  {
    innerVector' := innerVector + [codon];
    codon' := "";
    EraseFrontTwice(offsetTranscript, 2 * |innerVector|, 2);
    offsetTranscript'' := Erase(offsetTranscript', 0, 2);
  }

  /** The same pass in the forward half, which also erases the first two characters
      of `offsetTranscript` after every codon emitted: erasing two characters k times
      removes the first 2k of them, or all when fewer remain. The stream reads its
      own copy `chars`, so the erasing does not change what is read. */
  method ReadCodonsErasing(chars: string, codon: string, offsetTranscript: string)
    returns (innerVector: seq<string>, codon': string, offsetTranscript': string)
    requires |codon| < 3
    ensures innerVector == Codons(codon + chars)
    ensures 3 * |innerVector| + |codon'| == |codon| + |chars| && |codon'| < 3
    ensures codon' == (codon + chars)[3 * |innerVector|..]
    ensures offsetTranscript' == Erase(offsetTranscript, 0, 2 * |innerVector|)
  {
    ghost var w := codon + chars;
    ghost var start := 0;
    innerVector, codon', offsetTranscript' := [], codon, offsetTranscript;
    var j := 0;
    while j < |chars|
      invariant 0 <= j <= |chars|
      invariant start == 3 * |innerVector| && |codon| + j == start + |codon'| && |codon'| < 3
      invariant codon' == w[start..|codon| + j]
      invariant forall q :: 0 <= q < |innerVector| ==> innerVector[q] == w[3 * q .. 3 * q + 3]
      invariant offsetTranscript' == Erase(offsetTranscript, 0, 2 * |innerVector|)
    {
      codon' := codon' + [chars[j]];
      assert codon' == w[start..|codon| + j + 1];
      if |codon'| == 3 {
        innerVector, codon', offsetTranscript' :=
          EmitCodonErasing(w, innerVector, codon', offsetTranscript, offsetTranscript');
        start := start + 3;
        assert w[start..|codon| + j + 1] == codon';
      }
      j := j + 1;
    }
    CodonsAt(w);
  }

  /** One pass of the first loop of the frame enumeration: transcribe `offset`,
      drop the partial codon unless the transcript equals `oldOffset`, and read the
      transcript's codons, erasing two characters of it per codon. */
  method ReadTranscriptPass(offset: string, codon: string, oldOffset: string)
    returns (innerVector: seq<string>, codon': string, offsetTranscript: string)
    requires IsValidDNASequence(offset) && |codon| < 3 && |oldOffset| != |offset|
    ensures innerVector == Codons(Transcript(offset))
    ensures |codon'| < 3
    ensures offsetTranscript == Erase(Transcript(offset), 0, 2 * |innerVector|)
    ensures |offsetTranscript| <= |offset| && |offsetTranscript| + 1 != |offset|
  {
    offsetTranscript := GetRNATranscript(offset);
    assert |offsetTranscript| == |offset| by {
      TranscriptOfPrefix(offset, 0);
    }
    var c := codon;
    if offsetTranscript != oldOffset {
      c := "";
    }
    var chars := Extracted(offsetTranscript);
    assert chars == offsetTranscript by {
      TranscriptAlphabet(offset);
      ExtractedNoBlanks(offsetTranscript);
    }
    assert c + chars == chars;
    innerVector, codon', offsetTranscript := ReadCodonsErasing(chars, c, offsetTranscript);
    CodonsAt(chars);
  }

  /** One pass of the second loop: drop the partial codon unless `offset` equals
      `oldOffset`, and read the codons of `offset`. */
  method ReadRnaPass(offset: string, codon: string, oldOffset: string)
    returns (innerVector: seq<string>, codon': string)
    requires forall k :: 0 <= k < |offset| ==> IsRnaBase(offset[k])
    requires |codon| < 3 && |oldOffset| != |offset|
    ensures innerVector == Codons(offset)
    ensures |codon'| < 3
  {
    var c := codon;
    if offset != oldOffset {
      c := "";
    }
    var chars := Extracted(offset);
    assert chars == offset by {
      ExtractedNoBlanks(offset);
    }
    assert c + chars == chars;
    innerVector, codon' := ReadCodons(chars, c);
  }

  /** The first loop of the frame enumeration: three passes over the transcripts
      of the input shortened by 0, 1 and 2 bases from the end (`pop_back`), which
      are the transcript with its first 0, 1, 2 characters dropped. Also returns the
      partial codon and `oldOffset` that the second loop starts from. */
  method ReadTranscriptFrames(input: string)
    returns (mainVector: seq<seq<string>>, codon: string, oldOffset: string)
    requires IsValidDNASequence(input) && |input| >= 3
    ensures |mainVector| == 3 && |Transcript(input)| == |input|
    ensures forall f :: 0 <= f < 3 ==> mainVector[f] == Codons(Transcript(input)[f..])
    ensures |codon| < 3 && |oldOffset| < |input|
  {
    ghost var n := |input|;
    ghost var t := Transcript(input);
    assert |t| == n by {
      TranscriptOfPrefix(input, 0);
    }
    var offsetTranscript, innerVector := "", [];
    codon, oldOffset := "", "";
    var offset := input;
    mainVector := [];
    var i := 0;
    while i <= 2
      invariant 0 <= i <= 3
      invariant offset == input[..n - i]
      invariant |mainVector| == i
      invariant forall f :: 0 <= f < i ==> mainVector[f] == Codons(t[f..])
      invariant |codon| < 3
      invariant |oldOffset| != |offset| && |oldOffset| <= |offset| + 1
    {
      innerVector, codon, offsetTranscript := ReadTranscriptPass(offset, codon, oldOffset);
      assert innerVector == Codons(t[i..]) by {
        TranscriptOfPrefix(input, i);
      }
      mainVector := mainVector + [innerVector];
      oldOffset := offsetTranscript;
      PrefixOfPrefix(input, n - i, n - i - 1);
      offset := offset[..|offset| - 1];
      innerVector := [];
      i := i + 1;
    }
  }

  /** Builds the six codon lists as bio.cpp does: three passes over transcripts of
      the input shortened from the end (`pop_back`), then three passes over the input
      in the RNA alphabet shortened from the front (`erase(0, 1)`). A partial codon is
      kept across passes only when the new text equals `oldOffset`; on valid input the
      two always differ in length, so every pass starts from an empty codon, and the
      `erase(0, 2)` inside the first passes changes only what `oldOffset` becomes. */
  method GetReadingFramesAsCodons(input: string) returns (mainVector: seq<seq<string>>)
    requires IsValidDNASequence(input) && |input| >= 3
    ensures mainVector == ReadingFrames(input)
  {
    var codon, oldOffset;
    mainVector, codon, oldOffset := ReadTranscriptFrames(input);
    var antiparallel := ReplaceTWithU(input);
    assert forall k :: 0 <= k < |antiparallel| ==> IsRnaBase(antiparallel[k]) by {
      RnaOfValid(input);
    }
    var offset := antiparallel;
    var innerVector: seq<string> := [];
    var i := 0;
    while i <= 2
      invariant 0 <= i <= 3
      invariant offset == antiparallel[i..]
      invariant |mainVector| == 3 + i
      invariant forall f :: 0 <= f < 3 ==> mainVector[f] == Codons(Transcript(input)[f..])
      invariant forall f :: 3 <= f < 3 + i ==> mainVector[f] == Codons(antiparallel[f - 3..])
      invariant |codon| < 3
      invariant |oldOffset| != |offset|
    {
      innerVector, codon := ReadRnaPass(offset, codon, oldOffset);
      mainVector := mainVector + [innerVector];
      oldOffset := offset;
      offset := Erase(offset, 0, 1);
      assert offset == antiparallel[i + 1..];
      innerVector := [];
      i := i + 1;
    }
    ReadingFramesByOffset(input);
    assert forall f :: 3 <= f < 6 ==> ReadingFrames(input)[f] == Codons(antiparallel[f - 3..]);
  }
}
