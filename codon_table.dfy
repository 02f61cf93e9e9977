/** Translation of codons into one-letter amino-acid codes: Translate in bio.cpp,
    which looks each codon up in a pair of parallel vectors. The vectors are checked
    here against an independent definition of the standard genetic code. */
module CodonTable {
  import opened CppStd
  import opened Dna
  import opened Frames

  /** The lookup keys of bio.cpp's `codon_list`, row by row as written there. */
  const CodonList: seq<string> :=
    ["GCU", "GCC", "GCA", "GCG", "CGU", "CGC", "CGA", "CGG", "AGA", "AGG"] +
    ["AAU", "AAC", "GAU", "GAC", "UGU", "UGC", "CAA", "CAG", "GAA", "GAG"] +
    ["GGU", "GGC", "GGA", "GGG", "CAU", "CAC", "AUU", "AUC", "AUA", "UUA"] +
    ["UUG", "CUU", "CUC", "CUA", "CUG", "AAA", "AAG", "AUG", "UUU", "UUC"] +
    ["CCU", "CCC", "CCA", "CCG", "UCU", "UCC", "UCA", "UCG", "AGU", "AGC"] +
    ["ACU", "ACC", "ACA", "ACG", "UGG", "UAU", "UAC", "GUU", "GUC", "GUA"] +
    ["GUG", "UAG", "UGA", "UAA"]

  /** The values of bio.cpp's `corresponding_codons`: entry i is the amino acid
      (or `*` for stop) of entry i of `CodonList`. */
  const CorrespondingCodons: seq<string> :=
    ["A", "A", "A", "A", "R", "R", "R", "R", "R", "R", "N", "N", "D", "D"] +
    ["C", "C", "Q", "Q", "E", "E", "G", "G", "G", "G", "H", "H", "I", "I"] +
    ["I", "L", "L", "L", "L", "L", "L", "K", "K", "M", "F", "F", "P", "P"] +
    ["P", "P", "S", "S", "S", "S", "S", "S", "T", "T", "T", "T", "W", "Y"] +
    ["Y", "V", "V", "V", "V", "*", "*", "*"]

  /** U or C in the third position, where most of the code does not care which. */
  predicate IsPyrimidine(b: char) {
    b == 'U' || b == 'C'
  }

  /** The standard genetic code, laid out as the usual 4 x 4 grid on the first
      two bases with the third base splitting a cell where it matters. */
  function StandardCode(c: string): char
    requires IsRnaCodon(c)
  {
    var x, y, z := c[0], c[1], c[2];
    if x == 'U' then
      if y == 'U' then (if IsPyrimidine(z) then 'F' else 'L')
      else if y == 'C' then 'S'
      else if y == 'A' then (if IsPyrimidine(z) then 'Y' else '*')
      else (if IsPyrimidine(z) then 'C' else if z == 'A' then '*' else 'W')
    else if x == 'C' then
      if y == 'U' then 'L'
      else if y == 'C' then 'P'
      else if y == 'A' then (if IsPyrimidine(z) then 'H' else 'Q')
      else 'R'
    else if x == 'A' then
      if y == 'U' then (if z == 'G' then 'M' else 'I')
      else if y == 'C' then 'T'
      else if y == 'A' then (if IsPyrimidine(z) then 'N' else 'K')
      else (if IsPyrimidine(z) then 'S' else 'R')
    else
      if y == 'U' then 'V'
      else if y == 'C' then 'A'
      else if y == 'A' then (if IsPyrimidine(z) then 'D' else 'E')
      else 'G'
  }

  /** Entry i of the two vectors is an RNA codon and its standard-code letter. */
  predicate Agrees(i: nat)
    requires i < |CodonList| && i < |CorrespondingCodons|
  {
    IsRnaCodon(CodonList[i]) && CorrespondingCodons[i] == [StandardCode(CodonList[i])]
  }

  /** Entries 0 to 7 agree. */
  lemma AgreesBlock0()
    ensures |CodonList| == |CorrespondingCodons| == 64
    ensures forall i :: 0 <= i < 8 ==> Agrees(i)
  {
  }

  /** Entries 8 to 15 agree. */
  lemma AgreesBlock1()
    ensures |CodonList| == |CorrespondingCodons| == 64
    ensures forall i :: 8 <= i < 16 ==> Agrees(i)
  {
  }

  /** Entries 16 to 23 agree. */
  lemma AgreesBlock2()
    ensures |CodonList| == |CorrespondingCodons| == 64
    ensures forall i :: 16 <= i < 24 ==> Agrees(i)
  {
  }

  /** Entries 24 to 31 agree. */
  lemma AgreesBlock3()
    ensures |CodonList| == |CorrespondingCodons| == 64
    ensures forall i :: 24 <= i < 32 ==> Agrees(i)
  {
  }

  /** Entries 32 to 39 agree. */
  lemma AgreesBlock4()
    ensures |CodonList| == |CorrespondingCodons| == 64
    ensures forall i :: 32 <= i < 40 ==> Agrees(i)
  {
  }

  /** Entries 40 to 47 agree. */
  lemma AgreesBlock5()
    ensures |CodonList| == |CorrespondingCodons| == 64
    ensures forall i :: 40 <= i < 48 ==> Agrees(i)
  {
  }

  /** Entries 48 to 55 agree. */
  lemma AgreesBlock6()
    ensures |CodonList| == |CorrespondingCodons| == 64
    ensures forall i :: 48 <= i < 56 ==> Agrees(i)
  {
  }

  /** Entries 56 to 63 agree. */
  lemma AgreesBlock7()
    ensures |CodonList| == |CorrespondingCodons| == 64
    ensures forall i :: 56 <= i < 64 ==> Agrees(i)
  {
  }

  /** The two vectors of bio.cpp are parallel, 64 entries long, and agree with the
      standard genetic code at every index. */
  lemma CodonTableIsStandardCode()
    ensures |CodonList| == |CorrespondingCodons| == 64
    ensures forall i :: 0 <= i < 64 ==> Agrees(i)
  {
    AgreesBlock0(); AgreesBlock1(); AgreesBlock2(); AgreesBlock3();
    AgreesBlock4(); AgreesBlock5(); AgreesBlock6(); AgreesBlock7();
  }

  /** Every RNA codon beginning with `x` is a key of the table. */
  lemma RnaCodonListed(c: string, x: char)
    requires IsRnaCodon(c) && c[0] == x
    ensures c in CodonList
  {
    assert c == [x, c[1], c[2]];
  }

  /** The table lists every codon: a string is a key exactly when it is three RNA
      bases. */
  lemma CodonListIsAllCodons(c: string)
    ensures c in CodonList <==> IsRnaCodon(c)
  {
    if c in CodonList {
      CodonTableIsStandardCode();
      var i :| 0 <= i < |CodonList| && CodonList[i] == c;
      assert Agrees(i);
    }
    if IsRnaCodon(c) {
      RnaCodonListed(c, c[0]);
    }
  }

  /** What the lookup in Translate finds for a key: an index inside both vectors,
      whose value is the key's standard-code letter. */
  lemma LookupIsStandardCode(c: string)
    requires c in CodonList
    ensures IsRnaCodon(c)
    ensures Find(CodonList, c) < |CodonList| == |CorrespondingCodons|
    ensures CorrespondingCodons[Find(CodonList, c)] == [StandardCode(c)]
  {
    CodonTableIsStandardCode();
    var i :| 0 <= i < |CodonList| && CodonList[i] == c;
    assert Agrees(Find(CodonList, c));
  }

  /** AUG is the only start codon, and UAA, UAG, UGA are the only stop codons. */
  lemma StartAndStopCodons(c: string)
    requires IsRnaCodon(c)
    ensures StandardCode(c) == 'M' <==> c == "AUG"
    ensures StandardCode(c) == '*' <==> c == "UAA" || c == "UAG" || c == "UGA"
  {
    assert c == [c[0], c[1], c[2]];
  }

  /** The amino-acid string of a codon list: one letter per codon, in order. */
  function TranslateAll(codons: seq<string>): string
    requires forall c :: c in codons ==> IsRnaCodon(c)
  {
    seq(|codons|, i requires 0 <= i < |codons| => StandardCode(codons[i]))
  }

  /** Translating a concatenation translates the parts, one letter per codon. */
  lemma TranslateAllAppend(a: seq<string>, b: seq<string>)
    requires forall c :: c in a + b ==> IsRnaCodon(c)
    ensures |TranslateAll(a + b)| == |a| + |b|
    ensures TranslateAll(a + b) == TranslateAll(a) + TranslateAll(b)
  {
    assert forall c :: c in a ==> c in a + b;
    assert forall c :: c in b ==> c in a + b;
  }

  /** One codon of Translate: finds it in `CodonList` and takes the entry at the
      same index of `CorrespondingCodons`. A codon missing from the list would
      index one past the end, so the codon must be in the list. */
  method TranslateCodon(codon: string) returns (aminoAcid: string)
    requires codon in CodonList
    ensures IsRnaCodon(codon)
    ensures aminoAcid == [StandardCode(codon)]
  {
    var codonList, correspondingCodons := CodonList, CorrespondingCodons;
    LookupIsStandardCode(codon);
    var distance := Find(codonList, codon);
    aminoAcid := correspondingCodons[distance];
  }

  /** Translates a codon list codon by codon. Every codon must be in the table;
      the table's keys are exactly the RNA codons, and the result is their
      standard code, one letter per codon. */
  method Translate(codonSequence: seq<string>) returns (translatedCodon: string)
    requires forall c :: c in codonSequence ==> c in CodonList
    ensures forall c :: c in codonSequence ==> IsRnaCodon(c)
    ensures translatedCodon == TranslateAll(codonSequence)
  {
    translatedCodon := "";
    for j := 0 to |codonSequence|
      invariant forall c :: c in codonSequence[..j] ==> IsRnaCodon(c)
      invariant translatedCodon == TranslateAll(codonSequence[..j])
    {
      var aminoAcid := TranslateCodon(codonSequence[j]);
      translatedCodon := translatedCodon + aminoAcid;
      assert codonSequence[..j + 1] == codonSequence[..j] + [codonSequence[j]];
      TranslateAllAppend(codonSequence[..j], [codonSequence[j]]);
    }
    assert codonSequence[..|codonSequence|] == codonSequence;
  }
}
