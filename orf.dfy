/** Longest open reading frame: GetLongestOpenReadingFrame in bio.cpp. The state
    machine that scans each translated frame is proved against a declarative
    account of the candidate frames it closes and of which one it keeps. */
module Orf {
  import opened CppStd
  import opened Dna
  import opened Frames
  import opened CodonTable

  /** The text read since the last stop `*` of `t` (all of `t` when there is none),
      letter by letter: a stop empties it, any other letter is appended to it. */
  function Pending(t: string): (p: string)
    ensures |p| <= |t|
  {
    if |t| == 0 then ""
    else if t[|t| - 1] == '*' then ""
    else Pending(t[..|t| - 1]) + [t[|t| - 1]]
  }

  /** What reading the letter `e` after the text `p` closes: a stop closes the
      pending text from its first `M` on, stop included, when it holds an `M`;
      anything else closes nothing. */
  function Closing(p: string, e: char): seq<string> {
    var pending := Pending(p);
    var start := Find(pending, 'M');
    if e == '*' && start < |pending| then [pending[start..] + "*"] else []
  }

  /** The reading frames closed while reading `t`, in order. */
  function Candidates(t: string): seq<string> {
    if |t| == 0 then [] else Candidates(t[..|t| - 1]) + Closing(t[..|t| - 1], t[|t| - 1])
  }

  /** The number of `M`s at the start of `s`. */
  function LeadingMs(s: string): (n: nat)
    ensures n <= |s|
    ensures forall k :: 0 <= k < n ==> s[k] == 'M'
    ensures n < |s| ==> s[n] != 'M'
  {
    if |s| == 0 || s[0] != 'M' then 0 else 1 + LeadingMs(s[1..])
  }

  /** The count bio.cpp keeps for a frame it closes: the letters before the stop,
      not counting the `M`s at its start. */
  function Residues(orf: string): (n: int)
    ensures n <= |orf| - 1
    ensures |orf| > 0 && orf[|orf| - 1] != 'M' ==> n >= 0
  {
    |orf| - 1 - LeadingMs(orf)
  }

  /** A protein-coding stretch: starts with M, ends with the first `*`. */
  predicate IsOrf(c: string) {
    |c| >= 2 && c[0] == 'M' && c[|c| - 1] == '*' && forall k :: 0 <= k < |c| - 1 ==> c[k] != '*'
  }

  /** `c` occurs in `t` as a contiguous stretch. */
  predicate IsSubstring(c: string, t: string) {
    exists i, j :: 0 <= i <= j <= |t| && t[i..j] == c
  }

  /** The candidates of several texts, text by text. */
  function CandidatesOf(ts: seq<string>): seq<string> {
    if |ts| == 0 then [] else CandidatesOf(ts[..|ts| - 1]) + Candidates(ts[|ts| - 1])
  }

  /** `r` is the result the scan settles on among `cands`: the first candidate with
      the largest positive count, or "" when no candidate has a positive count. */
  predicate IsFirstLongest(r: string, cands: seq<string>) {
    (r == "" && forall k :: 0 <= k < |cands| ==> Residues(cands[k]) <= 0) ||
    (exists i :: 0 <= i < |cands| && cands[i] == r && Residues(r) > 0 &&
      (forall k :: 0 <= k < |cands| ==> Residues(cands[k]) <= Residues(r)) &&
      (forall k :: 0 <= k < i ==> Residues(cands[k]) < Residues(r)))
  }

  /** The six frames of `dna` translated to amino-acid letters. */
  function TranslatedFrames(dna: string): seq<string>
    requires IsValidDNASequence(dna) && |dna| >= 3
  {
    ReadingFramesShape(dna);
    var frames := ReadingFrames(dna);
    [TranslateAll(frames[0]), TranslateAll(frames[1]), TranslateAll(frames[2]),
     TranslateAll(frames[3]), TranslateAll(frames[4]), TranslateAll(frames[5])]
  }

  /** Every frame the scan closes on `dna`, frame after frame. */
  function OrfCandidates(dna: string): seq<string>
    requires IsValidDNASequence(dna) && |dna| >= 3
  {
    CandidatesOf(TranslatedFrames(dna))
  }

  lemma {:induction false} LeadingMsSnoc(s: string, e: char)
    ensures LeadingMs(s + [e]) == if LeadingMs(s) == |s| && e == 'M' then |s| + 1 else LeadingMs(s)
  {
    if |s| > 0 && s[0] == 'M' {
      assert (s + [e])[1..] == s[1..] + [e];
      LeadingMsSnoc(s[1..], e);
    }
  }

  /** Reading letter j of `t` after its first j letters. */
  lemma ReadOne(t: string, j: nat)
    requires j < |t|
    ensures Pending(t[..j + 1]) == if t[j] == '*' then "" else Pending(t[..j]) + [t[j]]
    ensures Candidates(t[..j + 1]) == Candidates(t[..j]) + Closing(t[..j], t[j])
  {
    assert t[..j + 1][..j] == t[..j];
  }

  /** The pending text is the end of `t` after its last stop: it holds no stop,
      and the letter just before it, if there is one, is a stop. */
  lemma {:induction false} PendingIsTail(t: string)
    ensures Pending(t) == t[|t| - |Pending(t)|..]
    ensures forall k :: 0 <= k < |Pending(t)| ==> Pending(t)[k] != '*'
    ensures |Pending(t)| < |t| ==> t[|t| - |Pending(t)| - 1] == '*'
  {
    if |t| > 0 && t[|t| - 1] != '*' {
      var u := t[..|t| - 1];
      PendingIsTail(u);
      assert t[|t| - |Pending(t)|..] == u[|u| - |Pending(u)|..] + [t[|t| - 1]];
    }
  }

  /** Letters after the last stop close nothing: frames left open at the end of a
      translated frame are discarded. */
  lemma {:induction false} CandidatesIgnoreUnclosedTail(t: string, u: string)
    requires forall k :: 0 <= k < |u| ==> u[k] != '*'
    ensures Candidates(t + u) == Candidates(t)
    decreases |u|
  {
    if |u| > 0 {
      var w := u[..|u| - 1];
      var tu := t + u;
      assert tu[..|tu| - 1] == t + w;
      CandidatesIgnoreUnclosedTail(t, w);
    } else {
      assert t + u == t;
    }
  }

  /** Text without stops, cut from one of its `M`s and closed by a stop, is an
      open reading frame. */
  lemma FromMToStop(s: string, start: nat)
    requires start < |s| && s[start] == 'M'
    requires forall k :: 0 <= k < |s| ==> s[k] != '*'
    ensures IsOrf(s[start..] + "*")
  {
  }

  /** What a stop closes is an open reading frame. */
  lemma ClosingIsOrf(p: string, e: char)
    ensures forall c :: c in Closing(p, e) ==> IsOrf(c)
  {
    var pending := Pending(p);
    var start := Find(pending, 'M');
    if e == '*' && start < |pending| {
      PendingIsTail(p);
      FromMToStop(pending, start);
    }
  }

  /** Every candidate is an open reading frame. */
  lemma {:induction false} CandidatesAreOrfs(t: string)
    ensures forall c :: c in Candidates(t) ==> IsOrf(c)
  {
    if |t| > 0 {
      CandidatesAreOrfs(t[..|t| - 1]);
      ClosingIsOrf(t[..|t| - 1], t[|t| - 1]);
    }
  }

  /** A stretch of a suffix of `p`, followed by the letter read after `p`, occurs
      in the text read. */
  lemma SuffixThenLetter(p: string, n: nat, start: nat, e: char)
    requires n <= |p| && start <= |p| - n
    ensures IsSubstring(p[n..][start..] + [e], p + [e])
  {
    var q := p + [e];
    assert q[n + start..|p|] == p[n..][start..];
    assert q[n + start..|p| + 1] == q[n + start..|p|] + [e];
  }

  /** What a stop closes ends at that stop and starts at an `M` read since the
      previous stop. */
  lemma ClosingInText(p: string, e: char)
    ensures forall c :: c in Closing(p, e) ==> IsSubstring(c, p + [e])
  {
    var pending := Pending(p);
    var start := Find(pending, 'M');
    if e == '*' && start < |pending| {
      assert IsSubstring(pending[start..] + [e], p + [e]) by {
        PendingIsTail(p);
        SuffixThenLetter(p, |p| - |pending|, start, e);
      }
    }
  }

  /** Every candidate occurs in the text it was closed in. */
  lemma {:induction false} CandidatesInText(t: string)
    ensures forall c :: c in Candidates(t) ==> IsSubstring(c, t)
  {
    if |t| > 0 {
      var u := t[..|t| - 1];
      CandidatesInText(u);
      ClosingInText(u, t[|t| - 1]);
      assert u + [t[|t| - 1]] == t;
      forall c | c in Candidates(u)
        ensures IsSubstring(c, t)
      {
        var i, j :| 0 <= i <= j <= |u| && u[i..j] == c;
        assert t[i..j] == c;
      }
    }
  }

  /** A candidate's count is never negative, and it is zero exactly when the
      candidate is one or more `M`s followed by the stop. */
  lemma OrfResidues(c: string)
    requires IsOrf(c)
    ensures Residues(c) >= 0
    ensures Residues(c) == 0 <==> forall k :: 0 <= k < |c| - 1 ==> c[k] == 'M'
  {
    assert c[|c| - 1] != 'M';
  }

  /** Dropping d of the leading `M`s leaves d fewer of them. */
  lemma {:induction false} LeadingMsDrop(s: string, d: nat)
    requires d <= LeadingMs(s)
    ensures LeadingMs(s[d..]) == LeadingMs(s) - d
  {
    if d > 0 {
      assert s[1..][d - 1..] == s[d..];
      LeadingMsDrop(s[1..], d - 1);
    }
  }

  /** Cutting letters off the front never raises the count. */
  lemma ResiduesOfSuffix(s: string, d: nat)
    requires d < |s|
    ensures Residues(s[d..]) <= Residues(s)
  {
    if d <= LeadingMs(s) {
      LeadingMsDrop(s, d);
    }
  }

  /** Reading more letters only adds candidates after those closed so far. */
  lemma {:induction false} CandidatesGrow(t: string, j: nat)
    requires j <= |t|
    ensures Candidates(t[..j]) <= Candidates(t)
    decreases |t| - j
  {
    if j < |t| {
      var u := t[..|t| - 1];
      CandidatesGrow(u, j);
      assert u[..j] == t[..j];
    } else {
      assert t[..j] == t;
    }
  }

  /** The letters of an open reading frame t[i..j], read in t. */
  lemma OrfLetters(t: string, i: nat, j: nat)
    requires i < j <= |t| && IsOrf(t[i..j])
    ensures t[i] == 'M' && t[j - 1] == '*'
    ensures forall k :: i <= k < j - 1 ==> t[k] != '*'
  {
    var orf := t[i..j];
    assert orf[0] == t[i] && orf[|orf| - 1] == t[j - 1];
    forall k | i <= k < j - 1 ensures t[k] != '*' {
      assert orf[k - i] == t[k];
    }
  }

  /** An `M` at index i with no stop after it lies in the pending text, which
      therefore holds an `M` at or before it. */
  lemma PendingHoldsM(u: string, i: nat)
    requires i < |u| && u[i] == 'M'
    requires forall k :: i <= k < |u| ==> u[k] != '*'
    ensures Pending(u) == u[|u| - |Pending(u)|..]
    ensures |u| - |Pending(u)| <= i
    ensures Find(Pending(u), 'M') <= i - (|u| - |Pending(u)|)
  {
    PendingIsTail(u);
    var p := |u| - |Pending(u)|;
    assert Pending(u)[i - p] == 'M';
  }

  /** What the stop at index j - 1 closes is a candidate of the whole text. */
  lemma ClosedAtStop(t: string, j: nat)
    requires 0 < j <= |t| && t[j - 1] == '*'
    ensures Candidates(t[..j - 1]) + Closing(t[..j - 1], '*') <= Candidates(t)
  {
    ReadOne(t, j - 1);
    assert t[..j - 1 + 1] == t[..j];
    CandidatesGrow(t, j);
  }

  /** The candidate closed at index j - 1, cut from its pending text at `start`,
      ends with the stretch t[i..j] for any i at or after that cut. */
  lemma ClosedStretch(t: string, j: nat, p: nat, start: nat, i: nat)
    requires 0 < j <= |t| && t[j - 1] == '*'
    requires p <= j - 1 && Pending(t[..j - 1]) == t[..j - 1][p..]
    requires start <= |Pending(t[..j - 1])| && p + start <= i < j
    ensures t[i..j] == (Pending(t[..j - 1])[start..] + "*")[i - p - start..]
  {
    var cand := Pending(t[..j - 1])[start..] + "*";
    assert cand == t[p + start..j] by {
      forall k | 0 <= k < |cand| ensures cand[k] == t[p + start + k] {
        if k < |cand| - 1 {
          assert cand[k] == Pending(t[..j - 1])[start + k];
        }
      }
    }
    SliceOfSuffix(t, p + start, i - p - start, j - p - start);
  }

  /** An open reading frame t[i..j] of a text lies at the end of the candidate the
      scan closes at its stop, so some candidate has at least its count. */
  lemma OrfDominated(t: string, i: nat, j: nat)
    requires i < j <= |t| && IsOrf(t[i..j])
    ensures exists c :: c in Candidates(t) && Residues(t[i..j]) <= Residues(c)
  {
    OrfLetters(t, i, j);
    var u := t[..j - 1];
    PendingHoldsM(u, i);
    var pending := Pending(u);
    var p := |u| - |pending|;
    var start := Find(pending, 'M');
    var cand := pending[start..] + "*";
    assert cand in Candidates(t) by {
      assert Closing(u, '*') == [cand];
      ClosedAtStop(t, j);
      NextInPrefix(Candidates(u), cand, Candidates(t));
    }
    ClosedStretch(t, j, p, start, i);
    ResiduesOfSuffix(cand, i - p - start);
  }

  /** A candidate of one text is a candidate of any list of texts holding it. */
  lemma {:induction false} CandidatesOfHas(ts: seq<string>, f: nat, c: string)
    requires f < |ts| && c in Candidates(ts[f])
    ensures c in CandidatesOf(ts)
  {
    var n := |ts| - 1;
    if f < n {
      assert ts[..n][f] == ts[f];
      CandidatesOfHas(ts[..n], f, c);
    }
  }

  /** Under the selection rule no candidate has a larger count than the result. */
  lemma FirstLongestBounds(r: string, cands: seq<string>, d: string)
    requires IsFirstLongest(r, cands) && d in cands
    ensures Residues(d) <= if r == "" then 0 else Residues(r)
  {
    var k :| 0 <= k < |cands| && cands[k] == d;
  }

  /** No open reading frame in any of the texts has a larger count than the result
      of the selection rule over their candidates. */
  lemma NoLongerOrfIn(ts: seq<string>, r: string, f: nat, c: string)
    requires f < |ts| && IsFirstLongest(r, CandidatesOf(ts))
    requires IsOrf(c) && IsSubstring(c, ts[f])
    ensures Residues(c) <= if r == "" then 0 else Residues(r)
  {
    var i, j :| 0 <= i <= j <= |ts[f]| && ts[f][i..j] == c;
    OrfDominated(ts[f], i, j);
    var d :| d in Candidates(ts[f]) && Residues(c) <= Residues(d);
    CandidatesOfHas(ts, f, d);
    FirstLongestBounds(r, CandidatesOf(ts), d);
  }

  /** No open reading frame anywhere in the six translated frames has a larger
      count than the result; in particular, when the result is "" every open
      reading frame there has count 0. */
  lemma NoLongerOrf(dna: string, r: string, f: nat, c: string)
    requires IsValidDNASequence(dna) && |dna| >= 3 && f < 6
    requires IsFirstLongest(r, OrfCandidates(dna))
    requires IsOrf(c) && IsSubstring(c, TranslatedFrames(dna)[f])
    ensures Residues(c) <= if r == "" then 0 else Residues(r)
  {
    NoLongerOrfIn(TranslatedFrames(dna), r, f, c);
  }

  /** The candidates of several texts are candidates of one of them. */
  lemma {:induction false} CandidatesOfMember(ts: seq<string>, c: string)
    requires c in CandidatesOf(ts)
    ensures exists f :: 0 <= f < |ts| && c in Candidates(ts[f])
  {
    var n := |ts| - 1;
    if c !in Candidates(ts[n]) {
      CandidatesOfMember(ts[..n], c);
      var f :| 0 <= f < n && c in Candidates(ts[..n][f]);
      assert ts[..n][f] == ts[f];
    }
  }

  /** The next candidate either becomes the result, when its count beats the
      best so far, or leaves the result as it was. */
  lemma FirstLongestSnoc(r: string, cands: seq<string>, c: string, best: int)
    requires IsFirstLongest(r, cands)
    requires best == if r == "" then 0 else Residues(r)
    ensures Residues(c) > best ==> IsFirstLongest(c, cands + [c])
    ensures Residues(c) <= best ==> IsFirstLongest(r, cands + [c])
  {
    var cs := cands + [c];
    if r != "" {
      var i :| 0 <= i < |cands| && cands[i] == r && Residues(r) > 0 &&
        (forall k :: 0 <= k < |cands| ==> Residues(cands[k]) <= Residues(r)) &&
        (forall k :: 0 <= k < i ==> Residues(cands[k]) < Residues(r));
      if Residues(c) <= best {
        assert cs[i] == r;
      }
    }
    if Residues(c) > best {
      assert cs[|cands|] == c;
    }
  }

  /** The candidates of the first f + 1 texts: those of the first f, then those of
      text f. */
  lemma CandidatesOfPrefix(ts: seq<string>, f: nat)
    requires f < |ts|
    ensures CandidatesOf(ts[..f + 1]) == CandidatesOf(ts[..f]) + Candidates(ts[f])
  {
    assert ts[..f + 1][..f] == ts[..f];
  }

  /** Closing one more candidate after `seen` and `cands`. */
  lemma AppendOne(seen: seq<string>, cands: seq<string>, c: string)
    ensures seen + (cands + [c]) == (seen + cands) + [c]
  {
  }

  /** The result is either "" or one of the candidates, with a positive count. */
  lemma FirstLongestIsCandidate(r: string, cands: seq<string>)
    requires IsFirstLongest(r, cands)
    ensures r == "" || (r in cands && Residues(r) > 0)
  {
  }

  /** The result is determined: two results that both satisfy the rule agree. */
  lemma FirstLongestUnique(r1: string, r2: string, cands: seq<string>)
    requires IsFirstLongest(r1, cands) && IsFirstLongest(r2, cands)
    ensures r1 == r2
  {
    if r1 != "" && r2 != "" {
      var i1 :| 0 <= i1 < |cands| && cands[i1] == r1 && Residues(r1) > 0 &&
        (forall k :: 0 <= k < |cands| ==> Residues(cands[k]) <= Residues(r1)) &&
        (forall k :: 0 <= k < i1 ==> Residues(cands[k]) < Residues(r1));
      var i2 :| 0 <= i2 < |cands| && cands[i2] == r2 && Residues(r2) > 0 &&
        (forall k :: 0 <= k < |cands| ==> Residues(cands[k]) <= Residues(r2)) &&
        (forall k :: 0 <= k < i2 ==> Residues(cands[k]) < Residues(r2));
      assert i1 == i2;
    }
  }

  /** Translated frame f is the translation of reading frame f. */
  lemma TranslatedFrameAt(dna: string, f: nat)
    requires IsValidDNASequence(dna) && |dna| >= 3 && f < 6
    ensures |ReadingFrames(dna)| == |TranslatedFrames(dna)| == 6
    ensures forall c :: c in ReadingFrames(dna)[f] ==> IsRnaCodon(c)
    ensures TranslatedFrames(dna)[f] == TranslateAll(ReadingFrames(dna)[f])
  {
    ReadingFramesShape(dna);
  }

  /** The translated frames are one letter per codon; a letter is M exactly where
      the codon is AUG and `*` exactly where it is UAA, UAG or UGA. */
  lemma TranslatedFrameLetters(dna: string, f: nat)
    requires IsValidDNASequence(dna) && |dna| >= 3 && f < 6
    ensures |TranslatedFrames(dna)| == 6
    ensures |TranslatedFrames(dna)[f]| == |ReadingFrames(dna)[f]|
    ensures forall k :: 0 <= k < |ReadingFrames(dna)[f]| ==>
      (TranslatedFrames(dna)[f][k] == 'M' <==> ReadingFrames(dna)[f][k] == "AUG")
    ensures forall k :: 0 <= k < |ReadingFrames(dna)[f]| ==>
      (TranslatedFrames(dna)[f][k] == '*' <==>
        ReadingFrames(dna)[f][k] in ["UAA", "UAG", "UGA"])
  {
    TranslatedFrameAt(dna, f);
    var codons := ReadingFrames(dna)[f];
    var letters := TranslatedFrames(dna)[f];
    forall k | 0 <= k < |codons|
      ensures (letters[k] == 'M' <==> codons[k] == "AUG")
      ensures (letters[k] == '*' <==> codons[k] in ["UAA", "UAG", "UGA"])
    {
      assert codons[k] in codons;
      assert letters[k] == StandardCode(codons[k]);
      StartAndStopCodons(codons[k]);
    }
  }

  /** Every frame the scan closes is an open reading frame, found in one of the six
      translated frames. */
  lemma OrfCandidatesAreOrfs(dna: string)
    requires IsValidDNASequence(dna) && |dna| >= 3
    ensures forall c :: c in OrfCandidates(dna) ==>
      IsOrf(c) && exists f :: 0 <= f < 6 && IsSubstring(c, TranslatedFrames(dna)[f])
  {
    var ts := TranslatedFrames(dna);
    forall c | c in OrfCandidates(dna)
      ensures IsOrf(c) && exists f :: 0 <= f < 6 && IsSubstring(c, ts[f])
    {
      CandidatesOfMember(ts, c);
      var f :| 0 <= f < |ts| && c in Candidates(ts[f]);
      CandidatesAreOrfs(ts[f]);
      CandidatesInText(ts[f]);
    }
  }

  /** The scan's state after reading `p` within one frame: a frame is open exactly
      when an `M` has been read since the last stop; the open frame is the pending
      text from that `M`; the count is its letters after the leading `M`s. */
  ghost predicate ScanState(p: string, valid: bool, count: int, current: string) {
    var pending := Pending(p);
    var start := Find(pending, 'M');
    valid == (start < |pending|) &&
    current == (if valid then pending[start..] else "") &&
    count == |current| - LeadingMs(current)
  }

  /** With no frame open the count is zero and the open frame empty. */
  lemma ScanIdle(p: string, valid: bool, count: int, current: string)
    requires ScanState(p, valid, count, current)
    ensures !valid ==> count == 0 && current == ""
  {
  }

  /** An `M` read with no frame open opens one holding just that `M`. */
  lemma OpenFrame(t: string, j: nat)
    requires j < |t| && t[j] == 'M'
    requires ScanState(t[..j], false, 0, "")
    ensures Candidates(t[..j + 1]) == Candidates(t[..j])
    ensures ScanState(t[..j + 1], true, 0, [t[j]])
  {
    ReadOne(t, j);
    var pending := Pending(t[..j]);
    FindAppend(pending, [t[j]], 'M');
    assert (pending + [t[j]])[|pending|..] == [t[j]];
  }

  /** An `M` read while the open frame is all `M`s joins its leading `M`s. */
  lemma ExtendLeadingMs(t: string, j: nat, current: string)
    requires j < |t| && t[j] == 'M'
    requires ScanState(t[..j], true, 0, current)
    ensures Candidates(t[..j + 1]) == Candidates(t[..j])
    ensures ScanState(t[..j + 1], true, 0, current + [t[j]])
  {
    ReadOne(t, j);
    LeadingMsSnoc(current, t[j]);
    var pending := Pending(t[..j]);
    var start := Find(pending, 'M');
    FindAppend(pending, [t[j]], 'M');
    assert (pending + [t[j]])[start..] == current + [t[j]];
  }

  /** Reading an `M` (letter j of `t`) while the count is zero opens a frame, or
      extends the leading `M`s of the open one; nothing closes. */
  lemma ScanOpens(t: string, j: nat, valid: bool, count: int, current: string)
    requires j < |t| && t[j] == 'M' && count == 0
    requires ScanState(t[..j], valid, count, current)
    ensures Candidates(t[..j + 1]) == Candidates(t[..j])
    ensures ScanState(t[..j + 1], true, count, current + [t[j]])
  {
    if valid {
      ExtendLeadingMs(t, j, current);
    } else {
      ScanIdle(t[..j], valid, count, current);
      assert current + [t[j]] == [t[j]];
      OpenFrame(t, j);
    }
  }

  /** Reading any other letter but a stop while a frame is open extends it and
      counts one more; nothing closes. */
  lemma ScanExtends(t: string, j: nat, count: int, current: string)
    requires j < |t| && t[j] != '*' && !(t[j] == 'M' && count == 0)
    requires ScanState(t[..j], true, count, current)
    ensures Candidates(t[..j + 1]) == Candidates(t[..j])
    ensures ScanState(t[..j + 1], true, count + 1, current + [t[j]])
  {
    ReadOne(t, j);
    LeadingMsSnoc(current, t[j]);
    var pending := Pending(t[..j]);
    var start := Find(pending, 'M');
    FindAppend(pending, [t[j]], 'M');
    assert (pending + [t[j]])[start..] == current + [t[j]];
  }

  /** Reading a stop while a frame is open closes it: the frame with its stop is
      the next candidate, its count is the one the scan kept, and no frame is open
      afterwards. */
  lemma ScanCloses(t: string, j: nat, count: int, current: string)
    requires j < |t| && t[j] == '*'
    requires ScanState(t[..j], true, count, current)
    ensures Candidates(t[..j + 1]) == Candidates(t[..j]) + [current + [t[j]]]
    ensures Residues(current + [t[j]]) == count
    ensures ScanState(t[..j + 1], false, 0, "")
  {
    ReadOne(t, j);
    LeadingMsSnoc(current, t[j]);
  }

  /** Any other letter read with no frame open (a stop, or a letter other than
      `M`) changes nothing but the text read. */
  lemma ScanSkips(t: string, j: nat, count: int, current: string)
    requires j < |t| && t[j] != 'M'
    requires ScanState(t[..j], false, count, current)
    ensures Candidates(t[..j + 1]) == Candidates(t[..j])
    ensures ScanState(t[..j + 1], false, count, current)
  {
    ReadOne(t, j);
    FindAppend(Pending(t[..j]), [t[j]], 'M');
  }

  /** One step of the scan of a translated frame `t`: reads letter j and updates
      the open frame, its count, and the kept result, branch by branch as the body
      of `for (auto element : translated_sequence)` in bio.cpp. `seen` holds the
      candidates closed before this frame. */
  method ReadLetter(ghost t: string, j: nat, element: char,
                    validReadingFrame: bool, count: int, currentFrame: string,
                    ghost seen: seq<string>, longestFrame: string, highestCount: int)
    returns (validReadingFrame': bool, count': int, currentFrame': string,
             longestFrame': string, highestCount': int)
    requires j < |t| && element == t[j]
    requires ScanState(t[..j], validReadingFrame, count, currentFrame)
    requires IsFirstLongest(longestFrame, seen + Candidates(t[..j]))
    requires highestCount == if longestFrame == "" then 0 else Residues(longestFrame)
    ensures ScanState(t[..j + 1], validReadingFrame', count', currentFrame')
    ensures IsFirstLongest(longestFrame', seen + Candidates(t[..j + 1]))
    ensures highestCount' == if longestFrame' == "" then 0 else Residues(longestFrame')
  {
    validReadingFrame', count', currentFrame' := validReadingFrame, count, currentFrame;
    longestFrame', highestCount' := longestFrame, highestCount;
    ScanIdle(t[..j], validReadingFrame, count, currentFrame);
    if element == 'M' && count' == 0 {
      ScanOpens(t, j, validReadingFrame, count, currentFrame);
      validReadingFrame' := true;
      currentFrame' := currentFrame' + [element];
    } else if element != '*' && validReadingFrame' {
      ScanExtends(t, j, count, currentFrame);
      currentFrame' := currentFrame' + [element];
      count' := count' + 1;
    } else if element == '*' && validReadingFrame' {
      ScanCloses(t, j, count, currentFrame);
      currentFrame' := currentFrame' + [element];
      FirstLongestSnoc(longestFrame', seen + Candidates(t[..j]), currentFrame', highestCount');
      AppendOne(seen, Candidates(t[..j]), currentFrame');
      if count' > highestCount' {
        highestCount' := count';
        longestFrame' := currentFrame';
      }
      validReadingFrame' := false;
      count' := 0;
      currentFrame' := "";
    } else {
      ScanSkips(t, j, count, currentFrame);
    }
  }

  /** The scan of one translated frame, starting with no frame open. `seen` holds
      the candidates of the frames already scanned; the frame's closed candidates
      are added to them and the result updated as each one closes. */
  method ScanTranslatedFrame(translatedSequence: string, ghost seen: seq<string>,
                             longestFrame: string, highestCount: int)
    returns (longestFrame': string, highestCount': int)
    requires IsFirstLongest(longestFrame, seen)
    requires highestCount == if longestFrame == "" then 0 else Residues(longestFrame)
    ensures IsFirstLongest(longestFrame', seen + Candidates(translatedSequence))
    ensures highestCount' == if longestFrame' == "" then 0 else Residues(longestFrame')
  {
    longestFrame', highestCount' := longestFrame, highestCount;
    var validReadingFrame, count, currentFrame := false, 0, "";
    assert seen + Candidates(translatedSequence[..0]) == seen;
    for j := 0 to |translatedSequence|
      invariant ScanState(translatedSequence[..j], validReadingFrame, count, currentFrame)
      invariant IsFirstLongest(longestFrame', seen + Candidates(translatedSequence[..j]))
      invariant highestCount' == if longestFrame' == "" then 0 else Residues(longestFrame')
    {
      validReadingFrame, count, currentFrame, longestFrame', highestCount' :=
        ReadLetter(translatedSequence, j, translatedSequence[j], validReadingFrame, count,
                   currentFrame, seen, longestFrame', highestCount');
    }
    assert translatedSequence[..|translatedSequence|] == translatedSequence;
  }

  /** Scans the six translated frames, keeping the first frame whose count beats
      every earlier one. The count runs over the letters between the leading `M`s
      and the stop; an `M` read while the count is zero joins the frame's start
      (opening a frame if none is open), and a stop read with no frame open is
      skipped. Frames still open at the end of a translated frame are dropped. */
  method GetLongestOpenReadingFrame(dnaSequence: string) returns (longestFrame: string)
    requires IsValidDNASequence(dnaSequence) && |dnaSequence| >= 3
    ensures IsFirstLongest(longestFrame, OrfCandidates(dnaSequence))
    ensures longestFrame == "" ||
      (IsOrf(longestFrame) && Residues(longestFrame) > 0 && longestFrame in OrfCandidates(dnaSequence))
    ensures forall f, c :: 0 <= f < 6 && IsOrf(c) && IsSubstring(c, TranslatedFrames(dnaSequence)[f]) ==>
      Residues(c) <= if longestFrame == "" then 0 else Residues(longestFrame)
  {
    var codonVector := GetReadingFramesAsCodons(dnaSequence);
    ghost var translated := TranslatedFrames(dnaSequence);
    var highestCount := 0;
    longestFrame := "";
    assert |codonVector| == |translated| == 6 by {
      TranslatedFrameAt(dnaSequence, 0);
    }
    for f := 0 to |codonVector|
      invariant IsFirstLongest(longestFrame, CandidatesOf(translated[..f]))
      invariant highestCount == if longestFrame == "" then 0 else Residues(longestFrame)
    {
      var innerVector := codonVector[f];
      TranslatedFrameAt(dnaSequence, f);
      forall c | c in innerVector
        ensures c in CodonList
      {
        CodonListIsAllCodons(c);
      }
      var translatedSequence := Translate(innerVector);
      assert translatedSequence == translated[f];
      ghost var seen := CandidatesOf(translated[..f]);
      longestFrame, highestCount := ScanTranslatedFrame(translatedSequence, seen, longestFrame, highestCount);
      CandidatesOfPrefix(translated, f);
    }
    assert translated[..6] == translated;
    OrfCandidatesAreOrfs(dnaSequence);
    FirstLongestIsCandidate(longestFrame, OrfCandidates(dnaSequence));
    forall f, c | 0 <= f < 6 && IsOrf(c) && IsSubstring(c, TranslatedFrames(dnaSequence)[f])
      ensures Residues(c) <= if longestFrame == "" then 0 else Residues(longestFrame)
    {
      NoLongerOrf(dnaSequence, longestFrame, f, c);
    }
  }
}
