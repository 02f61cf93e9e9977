# bio.cpp in Dafny

`bio.cpp` is a small DNA pipeline:

- it checks that a string is DNA (`IsValidDNASequence`);
- it builds its reverse complement (`GetReverseComplementSequence`) and its RNA transcript (`GetRNATranscript`);
- it cuts six reading frames into codons (`GetReadingFramesAsCodons`);
- it translates codons to one-letter amino-acid codes through a 64-entry table (`Translate`);
- it returns the longest open reading frame found in the six translated frames (`GetLongestOpenReadingFrame`).

This project models every one of these functions in Dafny and proves properties of the model.

The model follows the shape of the C++ code. Each function that builds its result in a loop is a `method` with that loop. The one exception is `IsValidDNASequence`, a read-only scan with an early return. It is stated as a recursive predicate whose contract is an if-and-only-if over every character. Each method's contract ties its result to a specification function, and lemmas state what those functions mean:

- validity is "every character is A, T, C or G";
- the reverse complement pairs position j with input position n-1-j and is an involution;
- the six frames are defined by explicit offsets;
- the codon table equals an independent definition of the standard genetic code;
- the result of the scan is the first candidate with the largest positive count among the frames it closes, and no open reading frame anywhere in the six translated frames has a larger count.

Modules, one per file:

- `CppStd` (`cpp_std.dfy`): the parts of the C++ standard library the code relies on. These are `std::find`, `std::reverse`, `std::string::erase`, and reading a character with `istringstream >> char`, which skips white space.
- `Dna` (`dna.dfy`): validation, reverse complement and transcript.
- `Frames` (`frames.dfy`): codons and the six reading frames.
- `CodonTable` (`codon_table.dfy`): the two parallel vectors, the standard code and `Translate`.
- `Orf` (`orf.dfy`): the candidates a scan closes, the selection rule and `GetLongestOpenReadingFrame`.

Three points about what the code does, which the model follows exactly:

- **Leading `M`s are not counted.** In the scan, the branch `element == 'M' && count == 0` comes first. An `M` read while the count is still zero therefore joins the start of the frame without being counted. `MM*` has count 0 and is never returned; `MMA*` has count 1. The model counts in the same way, through `Orf.LeadingMs` and `Orf.Residues`.
- **A codon missing from the table is undefined behaviour.** The lookup then indexes one past the end of `corresponding_codons`. The model makes table membership a precondition of `Translate`. `CodonTable.CodonListIsAllCodons` shows that this membership holds exactly for the 64 RNA codons.
- **`erase(0, 2)` does not shift the forward frames.** The stream reads its own copy of the transcript, so the erasure at bio.cpp:79 changes only the string later stored in `old_offset`, not the codons read. On valid input the new text never equals `old_offset`, so every pass starts from an empty codon (`Frames.ReadTranscriptPass`, `Frames.ReadCodonsErasing`).

## Model

| member | source | states |
|---|---|---|
| CodonTable.CodonList | bio.cpp:112-118 | the 64 lookup keys of `codon_list`, in the order the source lists them; `CodonTable.CodonListIsAllCodons` proves they are exactly the 64 RNA codons |
| CodonTable.CorrespondingCodons | bio.cpp:119-123 | the 64 values of `corresponding_codons`, parallel to the keys: the amino-acid letter, or `*` for a stop; `CodonTable.CodonTableIsStandardCode` proves each entry is the standard-code letter of its key |
| Dna.Complement | bio.cpp:25-38 | the switch's output for one character: the partner of a base (one character, a base, different from the input), and nothing for anything else |
| Orf.Residues | bio.cpp:141-161 | the value of `count` when a frame closes: the letters before the stop, minus the leading `M`s; never negative for text ending in a letter other than `M` |
| CppStd.Find | bio.cpp:130-131 | the index `std::find` reaches: at most the length; the value is there when the index is inside; no earlier index holds it |
| CppStd.Reverse | bio.cpp:20-21 | the reversed copy has the same length, and position k holds input position n-1-k |
| CppStd.ReverseAppend | bio.cpp:20-21 | reversing a concatenation reverses the order of the two parts |
| CppStd.Extracted | bio.cpp:22-24 | what repeated `iss >> x` yields: never longer than the text, and no white space |
| CppStd.ExtractedNoBlanks | bio.cpp:49-50 | text without white space is read back whole |
| CppStd.Erase | bio.cpp:79 | `erase(pos, count)` shortens by count, or to pos when fewer remain; it keeps the first pos characters and shifts the rest |
| CppStd.EraseFrontTwice | bio.cpp:79 | erasing a characters from the front and then b more equals one erasure of a + b |
| Dna.IsValidDNASequence | bio.cpp:6-15 | true exactly when every character is A, T, C or G, so the empty string is valid |
| Dna.Pair | bio.cpp:26-37 | the partner of a base is a base and differs from it |
| Dna.PairInvolutive | bio.cpp:26-37 | pairing twice gives the base back |
| Dna.ComplementAllAppend | bio.cpp:24-39 | complementing a concatenation complements the parts in order |
| Dna.ComplementAllPrefix | bio.cpp:24-39 | complementing one more character appends that character's complement |
| Dna.BasesAppend | bio.cpp:25-38 | the bases of a concatenation are the bases of the parts in order |
| Dna.ComplementAllOfValid | bio.cpp:24-39 | on valid DNA the complement keeps the length and pairs position by position |
| Dna.ComplementAllDropsNonBases | bio.cpp:25-38 | a character outside ACGT adds nothing (the switch has no default), and the result is valid DNA |
| Dna.ComplementAllSkipsBlanks | bio.cpp:22-24 | skipping white space in the stream read does not change the complement |
| Dna.ReverseComplementIsReversedComplement | bio.cpp:20-39 | reversing then complementing equals complementing then reversing |
| Dna.ReverseComplementAt | bio.cpp:20-39 | for valid DNA: same length, position j is the partner of input position n-1-j, and the result is valid |
| Dna.ReverseComplementInvolutive | bio.cpp:17-40 | the reverse complement of the reverse complement of valid DNA is the input |
| Dna.ReverseComplementDropsNonBases | bio.cpp:25-38 | any text's reverse complement is that of its bases alone: one character per base, and valid |
| Dna.TranscriptAlphabet | bio.cpp:41-57 | the transcript holds only A, C, G, U, one character per A, T, C, G of the input |
| Dna.ReverseComplementSplit | bio.cpp:20-39 | the reverse complement of p + q is that of q followed by that of p |
| Dna.ReverseComplementPartLengths | bio.cpp:84 | each part of valid DNA split at n-k has a reverse complement of its own length |
| Dna.ReverseComplementOfPrefix | bio.cpp:84 | removing the last k bases removes the first k characters of the reverse complement |
| Dna.ReplaceTWithU | bio.cpp:87-88 | `std::replace(…, 'T', 'U')` on a copy: the result is as long as the input |
| Dna.ReplaceTWithUAt | bio.cpp:88 | after the replacement no T is left; a position holds U exactly where the input held T or U; every other character stays in place |
| Dna.ReplaceTWithUDrop | bio.cpp:88 | replacing T by U commutes with dropping a prefix |
| Dna.TranscriptOfPrefix | bio.cpp:70-84 | the transcript of the input after k `pop_back`s is the transcript with its first k characters dropped |
| Dna.GetReverseComplementSequence | bio.cpp:17-40 | the new output is the old output followed by the reverse complement of the input, so prior content stays as a prefix |
| Dna.GetRNATranscript | bio.cpp:41-57 | returns the reverse complement with every T replaced by U |
| Frames.CodonsAt | bio.cpp:74-81 | a text holds n/3 codons, codon i being characters 3i to 3i+2; the 1 or 2 characters left over are dropped |
| Frames.ReadingFramesByOffset | bio.cpp:69-105 | frame f is the codons of the transcript from offset f, and frame 3+f those of the input with T replaced by U from offset f |
| Frames.RnaOfValid | bio.cpp:88 | valid DNA with T replaced by U is RNA |
| Frames.CodonsOfRna | bio.cpp:76-77 | every codon cut from RNA is three RNA bases |
| Frames.ReadingFrameAt | bio.cpp:69-105 | frame f holds (n - f mod 3)/3 codons; codon i is the triplet at offset f mod 3 + 3i of the frame's source, and is three RNA bases |
| Frames.CodonsFrom | bio.cpp:73-81 | RNA text read from offset off yields (n - off)/3 codons; codon i is the triplet at off + 3i and is three RNA bases |
| Frames.ReadingFramesShape | bio.cpp:69-101 | exactly six frames; frames k and 3+k hold (n-k)/3 codons; every codon is three RNA bases |
| Frames.ReadCodons | bio.cpp:93-100 | one stream pass emits the codons of the carried partial codon followed by the text, and keeps the fewer than 3 characters left over |
| Frames.EmitCodonErasing | bio.cpp:76-80 | a full codon is appended, the partial codon cleared, and the running erasure grows by two characters |
| Frames.ReadCodonsErasing | bio.cpp:73-81 | same codons as ReadCodons; the transcript copy loses its first 2 characters per codon, because the stream reads its own copy |
| Frames.ReadTranscriptPass | bio.cpp:70-81 | a forward pass yields the codons of the transcript of `offset`; the reset always fires, because the lengths differ |
| Frames.ReadRnaPass | bio.cpp:91-99 | an antiparallel pass yields the codons of `offset`; the reset always fires |
| Frames.ReadTranscriptFrames | bio.cpp:64-86 | the three `pop_back` passes give the codons of the transcript from offsets 0, 1, 2 |
| Frames.GetReadingFramesAsCodons | bio.cpp:61-108 | returns exactly the six frames defined by offsets |
| CodonTable.AgreesBlock0 | bio.cpp:112-119 | entries 0-7 of the two vectors are an RNA codon and its standard-code letter |
| CodonTable.AgreesBlock1 | bio.cpp:112-120 | likewise for entries 8-15 |
| CodonTable.AgreesBlock2 | bio.cpp:113-120 | likewise for entries 16-23 |
| CodonTable.AgreesBlock3 | bio.cpp:114-121 | likewise for entries 24-31 |
| CodonTable.AgreesBlock4 | bio.cpp:115-121 | likewise for entries 32-39 |
| CodonTable.AgreesBlock5 | bio.cpp:116-122 | likewise for entries 40-47 |
| CodonTable.AgreesBlock6 | bio.cpp:116-123 | likewise for entries 48-55 |
| CodonTable.AgreesBlock7 | bio.cpp:117-123 | likewise for entries 56-63 |
| CodonTable.CodonTableIsStandardCode | bio.cpp:112-123 | the vectors are parallel, 64 long, and agree with the standard genetic code at every index |
| CodonTable.RnaCodonListed | bio.cpp:112-118 | every RNA codon is a key of the table |
| CodonTable.CodonListIsAllCodons | bio.cpp:112-118 | a string is a key exactly when it is three RNA bases |
| CodonTable.LookupIsStandardCode | bio.cpp:130-132 | looking up a key gives an index inside both vectors, whose value is the key's standard-code letter |
| CodonTable.StartAndStopCodons | bio.cpp:112-123 | AUG is the only codon giving M; UAA, UAG, UGA are the only codons giving `*` |
| CodonTable.TranslateAllAppend | bio.cpp:126-133 | translation gives one letter per codon and distributes over concatenation |
| CodonTable.TranslateCodon | bio.cpp:130-132 | one codon of the loop appends its standard-code letter |
| CodonTable.Translate | bio.cpp:111-135 | for codons in the table (exactly the RNA codons), returns their standard-code letters in order |
| Orf.Pending | bio.cpp:146-163 | the text pending after a scan is never longer than the text read |
| Orf.LeadingMs | bio.cpp:146-148 | counts the run of `M`s at the start, and stops at the first other letter |
| Orf.LeadingMsSnoc | bio.cpp:146-153 | one more letter extends the run only if it is an `M` and the run covered everything so far |
| Orf.PendingIsTail | bio.cpp:154-162 | the pending text is the text after the last stop: no stop inside it, and a stop just before it |
| Orf.CandidatesIgnoreUnclosedTail | bio.cpp:166-168 | letters after the last stop of a frame close nothing, so an unterminated frame is discarded |
| Orf.FromMToStop | bio.cpp:146-155 | stop-free text cut at an `M` and closed by a stop is an open reading frame |
| Orf.ClosingIsOrf | bio.cpp:154-155 | what a stop closes starts with M, ends with its stop and has no other stop |
| Orf.CandidatesAreOrfs | bio.cpp:145-165 | every candidate closed in a frame is an open reading frame |
| Orf.SuffixThenLetter | bio.cpp:148-155 | text accumulated since a point, followed by the current letter, occurs in the frame |
| Orf.ClosingInText | bio.cpp:148-155 | what a stop closes is a contiguous stretch of the text read |
| Orf.CandidatesInText | bio.cpp:145-165 | every candidate is a contiguous stretch of its translated frame |
| Orf.OrfResidues | bio.cpp:146-153 | a candidate's count is never negative, and is zero exactly when it is `M`s then the stop |
| Orf.LeadingMsDrop | bio.cpp:146-149 | dropping d of the leading `M`s leaves d fewer of them |
| Orf.ResiduesOfSuffix | bio.cpp:146-153 | cutting letters off the front of a frame never raises its count |
| Orf.CandidatesGrow | bio.cpp:145-165 | reading more letters only appends candidates to those already closed |
| Orf.OrfLetters | bio.cpp:146-155 | an open reading frame inside a text starts at an `M`, ends at a stop and holds no stop before it |
| Orf.PendingHoldsM | bio.cpp:146-162 | an `M` with no stop after it lies in the text read since the last stop, and that text's first `M` is at or before it |
| Orf.ClosedAtStop | bio.cpp:154-158 | what a stop closes is appended to the candidates and stays among the candidates of the whole text |
| Orf.ClosedStretch | bio.cpp:146-155 | the candidate closed at a stop is the stretch of the text from its first pending `M` to that stop, so any later start is a suffix of it |
| Orf.OrfDominated | bio.cpp:145-165 | every open reading frame inside a text is a suffix of the candidate closed at its stop, so some candidate has at least its count |
| Orf.CandidatesOfHas | bio.cpp:143-169 | a candidate of one frame is a candidate of the six frames |
| Orf.FirstLongestBounds | bio.cpp:156-158 | no candidate has a larger count than the result (0 when the result is "") |
| Orf.NoLongerOrfIn | bio.cpp:143-169 | over any list of frames, no open reading frame inside one of them has a larger count than the result of the selection rule |
| Orf.NoLongerOrf | bio.cpp:137-171 | no open reading frame anywhere in the six translated frames has a larger count than the result; when the result is "", every one has count 0 |
| Orf.CandidatesOfMember | bio.cpp:143-169 | a candidate of the six frames is a candidate of one of them |
| Orf.FirstLongestSnoc | bio.cpp:156-159 | a new candidate replaces the result exactly when its count is strictly greater than the best so far |
| Orf.CandidatesOfPrefix | bio.cpp:143-169 | the candidates of frames 0..f are those of frames 0..f-1, then those of frame f |
| Orf.FirstLongestIsCandidate | bio.cpp:156-158 | the result is "" or a candidate with a positive count |
| Orf.FirstLongestUnique | bio.cpp:156-158 | the selection rule determines the result uniquely, including on ties |
| Orf.TranslatedFrameAt | bio.cpp:143-144 | translated frame f is the translation of codon frame f |
| Orf.TranslatedFrameLetters | bio.cpp:143-144 | a translated frame has one letter per codon, M exactly at AUG and `*` exactly at UAA, UAG, UGA |
| Orf.OrfCandidatesAreOrfs | bio.cpp:143-169 | every candidate is an open reading frame occurring in one of the six translated frames |
| Orf.ScanIdle | bio.cpp:160-168 | with no frame open, the count is zero and the current frame is empty |
| Orf.OpenFrame | bio.cpp:146-149 | an `M` read with no frame open opens a frame holding that `M`, with count 0 |
| Orf.ExtendLeadingMs | bio.cpp:146-149 | an `M` read while the count is zero joins the leading `M`s without counting |
| Orf.ScanOpens | bio.cpp:146-149 | the first branch opens or extends the leading `M`s, and closes nothing |
| Orf.ScanExtends | bio.cpp:150-153 | the second branch appends the letter and counts it, and closes nothing |
| Orf.ScanCloses | bio.cpp:154-163 | the third branch closes the next candidate, whose count is the kept count, and leaves no frame open |
| Orf.ScanSkips | bio.cpp:145-165 | a letter matching no branch changes nothing |
| Orf.ReadLetter | bio.cpp:146-164 | one step of the scan keeps the scan state and the first-longest result over the candidates closed so far |
| Orf.ScanTranslatedFrame | bio.cpp:145-168 | scanning a frame extends the candidates with those of the frame and keeps the result and the highest count in step |
| Orf.GetLongestOpenReadingFrame | bio.cpp:137-171 | returns the first candidate, in frame order, with the largest positive count, or "" when none has one; a non-empty result is an open reading frame with a positive count, taken from one of the six translated frames; no open reading frame anywhere in the six translated frames has a larger count |

## Left out

- Inputs shorter than three characters: `pop_back` on an empty string is undefined behaviour. `Frames.GetReadingFramesAsCodons` and `Orf.GetLongestOpenReadingFrame` therefore require at least three characters.
- Frame enumeration on text that is not valid DNA: the partial-codon carry-over compared against `old_offset` can then produce malformed codons. The frame enumeration and the scan require valid DNA.
- Codons missing from the table: the index then falls one past the end of `corresponding_codons`. `CodonTable.Translate` requires every codon to be a key.
- `std::string::erase` with a start past the end throws `std::out_of_range`. `CppStd.Erase` excludes this by precondition; the code only ever erases from position 0.
- Stream state: an `istringstream` is modelled only by the characters `>>` yields, and its state flags are not modelled.
- Pointer aliasing: the `std::string*` output of `GetReverseComplementSequence` is modelled as a value passed in and returned. Aliasing between `input` and `*output` is not modelled.
- Orf.GetLongestOpenReadingFrame: `count` and `highest_count` are unbounded integers, and a 32-bit `int` overflow is not modelled. It would take a translated frame of more than 2^31 letters.
- The `<iostream>` include is unused and has no counterpart.
