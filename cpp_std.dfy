/** Models of the few C++ standard-library operations the pipeline in bio.cpp relies on:
    `std::find`, `std::reverse`, `std::string::erase`, and reading characters with
    `std::istringstream >> char`, which skips white space. */
module CppStd {

  /** `std::find` over a whole sequence: the first index holding `x`, or `|s|`
      (the end iterator) when there is none. */
  function Find<T(==)>(s: seq<T>, x: T): (d: nat)
    ensures d <= |s|
    ensures d < |s| ==> s[d] == x
    ensures forall j :: 0 <= j < d ==> s[j] != x
  {
    if |s| == 0 then 0
    else if s[0] == x then 0
    else 1 + Find(s[1..], x)
  }

  /** Searching a concatenation finds the hit in the first part if there is one,
      and otherwise continues into the second part. */
  lemma {:induction false} FindAppend<T>(s: seq<T>, u: seq<T>, x: T)
    ensures Find(s + u, x) == if Find(s, x) < |s| then Find(s, x) else |s| + Find(u, x)
  {
    if |s| > 0 && s[0] != x {
      assert (s + u)[1..] == s[1..] + u;
      FindAppend(s[1..], u, x);
    } else if |s| == 0 {
      assert s + u == u;
    }
  }

  /** `std::reverse` applied to a copy of `s`. */
  function Reverse<T>(s: seq<T>): (r: seq<T>)
    ensures |r| == |s|
    ensures forall k :: 0 <= k < |s| ==> r[k] == s[|s| - 1 - k]
  {
    if |s| == 0 then [] else Reverse(s[1..]) + [s[0]]
  }

  /** Reversing a concatenation reverses the order of the parts. */
  lemma ReverseAppend<T>(a: seq<T>, b: seq<T>)
    ensures Reverse(a + b) == Reverse(b) + Reverse(a)
  {
    var r, l := Reverse(a + b), Reverse(b) + Reverse(a);
    assert forall k :: 0 <= k < |r| ==> r[k] == l[k];
  }

  /** Dropping the first part of a concatenation leaves the second. */
  lemma DropFirstPart<T>(a: seq<T>, b: seq<T>, k: nat)
    requires k == |a|
    ensures (a + b)[k..] == b
  {
  }

  /** A prefix of a prefix is a prefix. */
  lemma PrefixOfPrefix<T>(s: seq<T>, a: nat, b: nat)
    requires b <= a <= |s|
    ensures s[..a][..b] == s[..b]
  {
  }

  /** A stretch of a suffix is a stretch of the whole, shifted. */
  lemma SliceOfSuffix<T>(s: seq<T>, a: nat, i: nat, j: nat)
    requires a <= |s| && i <= j <= |s| - a
    ensures s[a..][i..j] == s[a + i..a + j]
  {
  }

  /** An element appended to a prefix of `s` is an element of `s`. */
  lemma NextInPrefix<T>(a: seq<T>, x: T, s: seq<T>)
    requires a + [x] <= s
    ensures x in s
  {
    assert s[|a|] == x;
  }

  /** The characters that `isspace` accepts in the "C" locale; `>>` skips them. */
  predicate IsBlank(c: char) {
    c == ' ' || c == '\t' || c == '\n' || c == '\U{B}' || c == '\U{C}' || c == '\r'
  }

  /** The characters that successive `iss >> c` reads yield, for a stream built
      on a copy of `s`: every character except white space, in order. */
  function Extracted(s: string): (r: string)
    ensures |r| <= |s|
    ensures forall k :: 0 <= k < |r| ==> !IsBlank(r[k])
  {
    if |s| == 0 then []
    else (if IsBlank(s[0]) then [] else [s[0]]) + Extracted(s[1..])
  }

  /** Text without white space is read back unchanged. */
  lemma {:induction false} ExtractedNoBlanks(s: string)
    requires forall k :: 0 <= k < |s| ==> !IsBlank(s[k])
    ensures Extracted(s) == s
  {
    if |s| > 0 {
      ExtractedNoBlanks(s[1..]);
    }
  }

  /** `std::string::erase(pos, count)`: removes `count` characters starting at
      `pos`, or all of them up to the end when fewer remain. A `pos` beyond the
      end throws `std::out_of_range`, which this model excludes. */
  function Erase(s: string, pos: nat, count: nat): (r: string)
    requires pos <= |s|
    ensures |r| == |s| - (if count <= |s| - pos then count else |s| - pos)
    ensures r[..pos] == s[..pos]
    ensures forall k :: pos <= k < |r| ==> r[k] == s[k + |s| - |r|]
  {
    var removed := if count <= |s| - pos then count else |s| - pos;
    s[..pos] + s[pos + removed..]
  }

  /** Erasing a characters from the front, then b more, erases a + b of them. */
  lemma EraseFrontTwice(s: string, a: nat, b: nat)
    ensures Erase(Erase(s, 0, a), 0, b) == Erase(s, 0, a + b)
  {
    var ra := if a <= |s| then a else |s|;
    var once := Erase(s, 0, a);
    assert once == s[ra..];
    var rb := if b <= |once| then b else |once|;
    assert Erase(once, 0, b) == once[rb..];
    assert once[rb..] == s[ra + rb..];
    assert Erase(s, 0, a + b) == s[ra + rb..];
  }
}
