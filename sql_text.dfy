/** The two SQLite text functions the diary's search statement relies on:
    `lower`, which folds ASCII letters only (SQLite built without ICU), and
    `instr`, the 1-based position of the first occurrence of a needle, 0 when
    there is none. */
module SqlText {

  predicate IsAsciiUpper(c: char) {
    'A' <= c <= 'Z'
  }

  /** SQLite's `lower` on one character: A-Z become a-z, everything else is kept. */
  function LowerChar(c: char): (r: char)
    ensures !IsAsciiUpper(r)
    ensures IsAsciiUpper(c) ==> r as int == c as int + 32
    ensures !IsAsciiUpper(c) ==> r == c
  {
    if IsAsciiUpper(c) then (c as int + 32) as char else c
  }

  /** SQLite's `lower` on a string. */
  function Lower(s: string): (r: string)
    ensures |r| == |s|
    ensures forall i :: 0 <= i < |r| ==> !IsAsciiUpper(r[i])
    ensures forall i :: 0 <= i < |s| && !IsAsciiUpper(s[i]) ==> r[i] == s[i]
    ensures forall i :: 0 <= i < |s| && IsAsciiUpper(s[i]) ==> r[i] as int == s[i] as int + 32
  {
    seq(|s|, i requires 0 <= i < |s| => LowerChar(s[i]))
  }

  /** Folding twice is folding once. */
  lemma LowerIdempotent(s: string)
    ensures Lower(Lower(s)) == Lower(s)
  {
  }

  /** A string without ASCII capitals is its own lower-case form. */
  lemma LowerOfLowerCase(s: string)
    requires forall i :: 0 <= i < |s| ==> !IsAsciiUpper(s[i])
    ensures Lower(s) == s
  {
  }

  /** `needle` occurs in `hay` starting at index `j`. */
  predicate OccursAt(hay: string, needle: string, j: int) {
    0 <= j && j + |needle| <= |hay| && hay[j..j + |needle|] == needle
  }

  ghost predicate IsSubstring(needle: string, hay: string) {
    exists j :: OccursAt(hay, needle, j)
  }

  /** An occurrence past the first character is an occurrence in the tail. */
  lemma ShiftOccurrences(hay: string, needle: string)
    requires |hay| > 0
    ensures forall j :: 1 <= j ==> (OccursAt(hay, needle, j) <==> OccursAt(hay[1..], needle, j - 1))
  {
    forall j | 1 <= j
      ensures OccursAt(hay, needle, j) <==> OccursAt(hay[1..], needle, j - 1)
    {
      if j + |needle| <= |hay| {
        var here, there := hay[j..j + |needle|], hay[1..][j - 1..j - 1 + |needle|];
        assert forall k :: 0 <= k < |here| ==> here[k] == there[k];
        assert here == there;
      }
    }
  }

  /** SQLite's `instr(hay, needle)`: 0 when `needle` does not occur in `hay`,
      otherwise one more than the index of its first occurrence. */
  function Instr(hay: string, needle: string): (r: nat)
    ensures needle == [] ==> r == 1
    ensures r > 0 ==> r + |needle| <= |hay| + 1
    decreases |hay|
  {
    if |needle| > |hay| then 0
    else if OccursAt(hay, needle, 0) then 1
    else
      var k := Instr(hay[1..], needle);
      if k == 0 then 0 else k + 1
  }

  /** `instr` is positive exactly when the needle occurs, and then points
      just past the start of the first occurrence. */
  lemma {:induction false} InstrMeaning(hay: string, needle: string)
    ensures Instr(hay, needle) > 0 <==> IsSubstring(needle, hay)
    ensures Instr(hay, needle) > 0 ==> OccursAt(hay, needle, Instr(hay, needle) - 1)
    ensures forall j :: 0 <= j < Instr(hay, needle) - 1 ==> !OccursAt(hay, needle, j)
    decreases |hay|
  {
    if |needle| > |hay| {
      assert forall j :: !OccursAt(hay, needle, j);
    } else if !OccursAt(hay, needle, 0) {
      var k := Instr(hay[1..], needle);
      InstrMeaning(hay[1..], needle);
      ShiftOccurrences(hay, needle);
      if k > 0 {
        assert OccursAt(hay, needle, k);
      }
    }
  }

  /** With the empty needle `instr` always reports a match. */
  lemma InstrEmptyNeedle(hay: string)
    ensures Instr(hay, "") == 1
  {
    assert OccursAt(hay, "", 0);
  }
}
