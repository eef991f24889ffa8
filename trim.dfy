/** The trailing-whitespace trim that the importer applies to the title and
    the genre: `s.erase(s.find_last_not_of(" \t\n\r") + 1)`. */
module Trim {

  /** The characters named in the `find_last_not_of` argument. */
  const Whitespace: set<char> := {' ', '\t', '\n', '\r'}

  /** `std::string::npos`, the largest value of a 64-bit `size_type`. */
  const NPos: nat := 0xFFFF_FFFF_FFFF_FFFF

  /** `find_last_not_of`: the last index whose character is not in `chars`,
      or `NPos` when there is none. A `std::string` is always shorter than
      `npos`. */
  function FindLastNotOf(s: string, chars: set<char>): (pos: nat)
    requires |s| < NPos
    ensures pos == NPos || pos < |s|
    ensures pos < |s| ==> s[pos] !in chars && forall j :: pos < j < |s| ==> s[j] in chars
    ensures pos == NPos ==> forall j :: 0 <= j < |s| ==> s[j] in chars
    decreases |s|
  {
    if s == [] then NPos
    else if s[|s| - 1] !in chars then |s| - 1
    else FindLastNotOf(s[..|s| - 1], chars)
  }

  /** `erase` from one past the last non-blank character; when every
      character is blank, `npos + 1` wraps around to 0 and the whole string
      is erased. */
  function TrimTrailing(s: string): string
    requires |s| < NPos
  {
    var end := (FindLastNotOf(s, Whitespace) + 1) % (NPos + 1);
    s[..end]
  }

  /** The predicate that determines the trimmed string: a prefix of `s` that
      is empty or ends in a non-blank, followed in `s` only by blanks. */
  ghost predicate IsTrimOf(r: string, s: string) {
    && |r| <= |s| && r == s[..|r|]
    && (forall j :: |r| <= j < |s| ==> s[j] in Whitespace)
    && (r == [] || r[|r| - 1] !in Whitespace)
  }

  /** The trimmed string meets `IsTrimOf`, the wrap-around case included. */
  lemma TrimTrailingMeets(s: string)
    requires |s| < NPos
    ensures IsTrimOf(TrimTrailing(s), s)
  {
  }

  /** At most one prefix meets `IsTrimOf`. */
  lemma TrimOfIsUnique(r1: string, r2: string, s: string)
    requires IsTrimOf(r1, s) && IsTrimOf(r2, s)
    ensures r1 == r2
  {
  }

  /** Trimming is the unique prefix `IsTrimOf` describes. */
  lemma TrimTrailingCharacterized(s: string, r: string)
    requires |s| < NPos
    ensures TrimTrailing(s) == r <==> IsTrimOf(r, s)
  {
  }

  /** Trimming twice is trimming once. */
  lemma TrimTrailingIdempotent(s: string)
    requires |s| < NPos
    ensures TrimTrailing(TrimTrailing(s)) == TrimTrailing(s)
  {
  }

  /** Blanks appended to a string are removed and nothing else changes. */
  lemma TrimTrailingDropsAppendedBlanks(s: string, w: string)
    requires |s + w| < NPos
    requires forall j :: 0 <= j < |w| ==> w[j] in Whitespace
    ensures TrimTrailing(s + w) == TrimTrailing(s)
  {
    var r := TrimTrailing(s);
    TrimTrailingMeets(s);
    assert (s + w)[..|r|] == s[..|r|];
    assert forall j :: |s| <= j < |s + w| ==> (s + w)[j] == w[j - |s|];
    assert IsTrimOf(r, s + w);
    TrimTrailingCharacterized(s + w, r);
  }

  /** A string that ends in a non-blank is left as it is. */
  lemma TrimTrailingKeepsUnpadded(s: string)
    requires |s| < NPos
    requires s == [] || s[|s| - 1] !in Whitespace
    ensures TrimTrailing(s) == s
  {
  }
}
