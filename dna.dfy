/** The DNA side of bio.cpp: alphabet validation, reverse complement and RNA
    transcript. Each operation that the source builds in a loop is a method proved
    against a specification function, except IsValidDNASequence: a read-only scan
    with an early return, stated as a recursive predicate with an if-and-only-if
    contract. The lemmas say what the specification functions mean. */
module Dna {
  import opened CppStd

  /** One of the four DNA bases. */
  predicate IsBase(c: char) {
    c == 'A' || c == 'T' || c == 'C' || c == 'G'
  }

  /** One of the four RNA bases. */
  predicate IsRnaBase(c: char) {
    c == 'A' || c == 'C' || c == 'G' || c == 'U'
  }

  /** True exactly when every character is a DNA base; no blanks, lower case or
      other letters. The empty string is valid, since no character breaks the rule. */
  function IsValidDNASequence(s: string): (r: bool)
    ensures r <==> forall k :: 0 <= k < |s| ==> IsBase(s[k])
  {
    |s| == 0 || (IsBase(s[0]) && IsValidDNASequence(s[1..]))
  }

  /** The complementary base: A pairs with T, C pairs with G. */
  function Pair(c: char): (p: char)
    requires IsBase(c)
    ensures IsBase(p) && p != c
  {
    if c == 'A' then 'T' else if c == 'T' then 'A' else if c == 'C' then 'G' else 'C'
  }

  /** What the complement `switch` appends for one character: the partner of a
      base, and nothing for any other character (the switch has no default). */
  function Complement(c: char): (r: string)
    ensures |r| <= 1
    ensures |r| == 1 <==> IsBase(c)
    ensures IsValidDNASequence(r)
    ensures forall k :: 0 <= k < |r| ==> r[k] != c
  {
    if IsBase(c) then [Pair(c)] else []
  }

  /** The complement of every character of `s`, in order, non-bases dropped. */
  function ComplementAll(s: string): string {
    if |s| == 0 then [] else Complement(s[0]) + ComplementAll(s[1..])
  }

  /** The bases of `s`, in order, everything else dropped. */
  function Bases(s: string): string {
    if |s| == 0 then [] else (if IsBase(s[0]) then [s[0]] else []) + Bases(s[1..])
  }

  /** The reverse complement: reverse the text, then complement each character. */
  function ReverseComplement(s: string): string {
    ComplementAll(Reverse(s))
  }

  /** `std::replace(begin, end, 'T', 'U')` on a copy of `s`: every T becomes U,
      every other character is kept in place. */
  function ReplaceTWithU(s: string): (r: string)
    ensures |r| == |s|
  {
    seq(|s|, k requires 0 <= k < |s| => if s[k] == 'T' then 'U' else s[k])
  }

  /** The RNA transcript: the reverse complement written in the RNA alphabet. */
  function Transcript(s: string): string {
    ReplaceTWithU(ReverseComplement(s))
  }

  /** Pairing twice gives the base back. */
  lemma PairInvolutive(c: char)
    requires IsBase(c)
    ensures Pair(Pair(c)) == c
  {
  }

  lemma {:induction false} ComplementAllAppend(a: string, b: string)
    ensures ComplementAll(a + b) == ComplementAll(a) + ComplementAll(b)
  {
    if |a| > 0 {
      assert (a + b)[1..] == a[1..] + b;
      ComplementAllAppend(a[1..], b);
    } else {
      assert a + b == b;
    }
  }

  /** Complementing the first j + 1 characters: the first j, then character j. */
  lemma ComplementAllPrefix(s: string, j: nat)
    requires j < |s|
    ensures ComplementAll(s[..j + 1]) == ComplementAll(s[..j]) + Complement(s[j])
  {
    assert s[..j + 1] == s[..j] + [s[j]];
    ComplementAllAppend(s[..j], [s[j]]);
    assert ComplementAll([s[j]]) == Complement(s[j]) + ComplementAll([]);
  }

  lemma {:induction false} BasesAppend(a: string, b: string)
    ensures Bases(a + b) == Bases(a) + Bases(b)
  {
    if |a| > 0 {
      assert (a + b)[1..] == a[1..] + b;
      BasesAppend(a[1..], b);
    } else {
      assert a + b == b;
    }
  }

  /** On valid input the complement keeps the length and pairs position by position. */
  lemma {:induction false} ComplementAllOfValid(s: string)
    requires IsValidDNASequence(s)
    ensures |ComplementAll(s)| == |s|
    ensures forall k :: 0 <= k < |s| ==> ComplementAll(s)[k] == Pair(s[k])
  {
    if |s| > 0 {
      ComplementAllOfValid(s[1..]);
    }
  }

  /** The complement of any text is valid DNA holding one base per base of the
      input: non-bases are dropped, and only they are. */
  lemma {:induction false} ComplementAllDropsNonBases(s: string)
    ensures ComplementAll(s) == ComplementAll(Bases(s))
    ensures |ComplementAll(s)| == |Bases(s)|
    ensures IsValidDNASequence(ComplementAll(s))
  {
    if |s| > 0 {
      ComplementAllDropsNonBases(s[1..]);
      var head := if IsBase(s[0]) then [s[0]] else [];
      ComplementAllAppend(head, Bases(s[1..]));
      if IsBase(s[0]) {
        assert ComplementAll(head) == Complement(s[0]) + ComplementAll([]);
      }
    }
  }

  /** Blanks are not bases, so the blank-skipping stream read does not change
      what the complement produces. */
  lemma {:induction false} ComplementAllSkipsBlanks(s: string)
    ensures ComplementAll(Extracted(s)) == ComplementAll(s)
  {
    if |s| > 0 {
      ComplementAllSkipsBlanks(s[1..]);
      var head := if IsBlank(s[0]) then [] else [s[0]];
      ComplementAllAppend(head, Extracted(s[1..]));
      if !IsBlank(s[0]) {
        assert ComplementAll(head) == Complement(s[0]) + ComplementAll([]);
      }
    }
  }

  /** Reversing and complementing commute. */
  lemma {:induction false} ReverseComplementIsReversedComplement(s: string)
    ensures ReverseComplement(s) == Reverse(ComplementAll(s))
  {
    if |s| > 0 {
      ReverseComplementIsReversedComplement(s[1..]);
      ComplementAllAppend(Reverse(s[1..]), [s[0]]);
      assert ComplementAll([s[0]]) == Complement(s[0]) + ComplementAll([]);
      ReverseAppend(Complement(s[0]), ComplementAll(s[1..]));
      assert Reverse(Complement(s[0])) == Complement(s[0]);
    }
  }

  /** For valid input, position j of the reverse complement is the partner of
      input position n-1-j, and the result is itself valid and as long as the input. */
  lemma ReverseComplementAt(s: string)
    requires IsValidDNASequence(s)
    ensures |ReverseComplement(s)| == |s|
    ensures forall j :: 0 <= j < |s| ==> ReverseComplement(s)[j] == Pair(s[|s| - 1 - j])
    ensures IsValidDNASequence(ReverseComplement(s))
  {
    ComplementAllOfValid(s);
    ReverseComplementIsReversedComplement(s);
  }

  /** Taking the reverse complement twice gives valid input back. */
  lemma ReverseComplementInvolutive(s: string)
    requires IsValidDNASequence(s)
    ensures ReverseComplement(ReverseComplement(s)) == s
  {
    var r := ReverseComplement(s);
    ReverseComplementAt(s);
    ReverseComplementAt(r);
    forall j | 0 <= j < |s|
      ensures ReverseComplement(r)[j] == s[j]
    {
      PairInvolutive(s[j]);
    }
  }

  /** Characters other than A, T, C, G are dropped: the reverse complement of any
      text is that of its bases alone, valid, and one character per base. */
  lemma ReverseComplementDropsNonBases(s: string)
    ensures ReverseComplement(s) == ReverseComplement(Bases(s))
    ensures |ReverseComplement(s)| == |Bases(s)|
    ensures IsValidDNASequence(ReverseComplement(s))
  {
    ReverseComplementIsReversedComplement(s);
    ReverseComplementIsReversedComplement(Bases(s));
    ComplementAllDropsNonBases(s);
    var r := ReverseComplement(s);
    assert forall k :: 0 <= k < |r| ==> IsBase(r[k]);
  }

  /** The transcript is RNA (A, C, G, U only) with one base per DNA base of the
      input. */
  lemma TranscriptAlphabet(s: string)
    ensures |Transcript(s)| == |Bases(s)|
    ensures forall k :: 0 <= k < |Transcript(s)| ==> IsRnaBase(Transcript(s)[k])
  {
    ReverseComplementDropsNonBases(s);
  }

  /** The reverse complement of a text split in two: that of the second part,
      then that of the first. */
  lemma ReverseComplementSplit(s: string, k: nat)
    requires k <= |s|
    ensures ReverseComplement(s) ==
      ReverseComplement(s[|s| - k..]) + ReverseComplement(s[..|s| - k])
  {
    var p, q := s[..|s| - k], s[|s| - k..];
    assert s == p + q;
    ReverseAppend(p, q);
    ComplementAllAppend(Reverse(q), Reverse(p));
  }

  /** The reverse complement of either part of valid DNA is as long as that part. */
  lemma ReverseComplementPartLengths(s: string, k: nat)
    requires IsValidDNASequence(s)
    requires k <= |s|
    ensures |ReverseComplement(s[|s| - k..])| == k
    ensures |ReverseComplement(s[..|s| - k])| == |s| - k
  {
    assert IsValidDNASequence(s[|s| - k..]) && IsValidDNASequence(s[..|s| - k]);
    assert |ReverseComplement(s[|s| - k..])| == k by {
      ReverseComplementAt(s[|s| - k..]);
    }
    assert |ReverseComplement(s[..|s| - k])| == |s| - k by {
      ReverseComplementAt(s[..|s| - k]);
    }
  }

  /** Dropping the last k bases of valid input drops the first k characters of
      its reverse complement. */
  lemma ReverseComplementOfPrefix(s: string, k: nat)
    requires IsValidDNASequence(s)
    requires k <= |s|
    ensures |ReverseComplement(s)| == |s|
    ensures ReverseComplement(s[..|s| - k]) == ReverseComplement(s)[k..]
  {
    ReverseComplementSplit(s, k);
    ReverseComplementPartLengths(s, k);
    DropFirstPart(ReverseComplement(s[|s| - k..]), ReverseComplement(s[..|s| - k]), k);
  }

  /** After the replacement no T is left, every U stands where a T or a U was,
      and every other character is where it was. */
  lemma ReplaceTWithUAt(s: string)
    ensures forall k :: 0 <= k < |s| ==> ReplaceTWithU(s)[k] != 'T'
    ensures forall k :: 0 <= k < |s| ==> (ReplaceTWithU(s)[k] == 'U' <==> s[k] in "TU")
    ensures forall k :: 0 <= k < |s| && s[k] !in "TU" ==> ReplaceTWithU(s)[k] == s[k]
  {
  }

  /** Replacing T by U commutes with dropping a prefix. */
  lemma ReplaceTWithUDrop(s: string, k: nat)
    requires k <= |s|
    ensures ReplaceTWithU(s[k..]) == ReplaceTWithU(s)[k..]
  {
  }

  /** Dropping the last k bases of valid input drops the first k characters of
      its transcript. */
  lemma TranscriptOfPrefix(s: string, k: nat)
    requires IsValidDNASequence(s)
    requires k <= |s|
    ensures |Transcript(s)| == |s|
    ensures Transcript(s[..|s| - k]) == Transcript(s)[k..]
  {
    ReverseComplementOfPrefix(s, k);
    ReplaceTWithUDrop(ReverseComplement(s), k);
  }

  /** Appends the reverse complement of `input` to the text `output` already
      holds; the C++ writes through a pointer, modelled here as the text before
      (`output`) and after (`output'`). Blanks are skipped by the stream read and
      every other non-base by the switch. */
  method GetReverseComplementSequence(input: string, output: string) returns (output': string)
    ensures output' == output + ReverseComplement(input)
  {
    var reverse := Reverse(input);
    var chars := Extracted(reverse);
    output' := output;
    var j := 0;
    while j < |chars|
      invariant 0 <= j <= |chars|
      invariant output' == output + ComplementAll(chars[..j])
    {
      var x := chars[j];
      match x {
        case 'A' => output' := output' + "T";
        case 'T' => output' := output' + "A";
        case 'C' => output' := output' + "G";
        case 'G' => output' := output' + "C";
        case _ =>
      }
      ComplementAllPrefix(chars, j);
      j := j + 1;
    }
    assert chars[..j] == chars;
    ComplementAllSkipsBlanks(reverse);
  }

  /** The reverse complement with every T replaced by U. */
  method GetRNATranscript(input: string) returns (rnaTranscript: string)
    ensures rnaTranscript == Transcript(input)
  {
    var reverseComplement := GetReverseComplementSequence(input, "");
    assert reverseComplement == ReverseComplement(input);
    var chars := Extracted(reverseComplement);
    rnaTranscript := "";
    var j := 0;
    while j < |chars|
      invariant 0 <= j <= |chars|
      invariant |rnaTranscript| == j
      invariant forall k :: 0 <= k < j ==> rnaTranscript[k] == if chars[k] == 'T' then 'U' else chars[k]
    {
      if chars[j] == 'T' {
        rnaTranscript := rnaTranscript + "U";
      } else {
        rnaTranscript := rnaTranscript + [chars[j]];
      }
      j := j + 1;
    }
    ReverseComplementDropsNonBases(input);
    ExtractedNoBlanks(reverseComplement);
  }
}
