/** The few `java.lang.String` behaviours the managers rely on: `trim`,
    `isEmpty`, `toLowerCase` (restricted to ASCII) and `contains`. */
module Text {

  /** `String.trim` strips every leading and trailing char whose code is at
      most U+0020. */
  predicate IsTrimmable(c: char) {
    c <= ' '
  }

  function TrimStart(s: string): (r: string)
    ensures |r| <= |s| && r == s[|s| - |r|..]
    ensures r == [] || !IsTrimmable(r[0])
    ensures forall i :: 0 <= i < |s| - |r| ==> IsTrimmable(s[i])
  {
    if s != [] && IsTrimmable(s[0]) then TrimStart(s[1..]) else s
  }

  function TrimEnd(s: string): (r: string)
    ensures |r| <= |s| && r == s[..|r|]
    ensures r == [] || !IsTrimmable(r[|r| - 1])
    ensures forall i :: |r| <= i < |s| ==> IsTrimmable(s[i])
  {
    if s != [] && IsTrimmable(s[|s| - 1]) then TrimEnd(s[..|s| - 1]) else s
  }

  function Trim(s: string): string {
    TrimEnd(TrimStart(s))
  }

  /** `s.trim().isEmpty()`: the managers' test for a missing mandatory text. */
  predicate IsBlank(s: string) {
    Trim(s) == []
  }

  /** A string is blank exactly when every char of it is trimmable; so `""`
      and `"   "` are blank and `" a "` is not. */
  lemma BlankIffAllTrimmable(s: string)
    ensures IsBlank(s) <==> forall i :: 0 <= i < |s| ==> IsTrimmable(s[i])
  {
    var t := TrimStart(s);
    if IsBlank(s) {
      assert t == [];
    }
  }

  /** `Character.toLowerCase` on the ASCII letters; every other char is kept. */
  function LowerChar(c: char): (r: char)
    ensures 'A' <= c <= 'Z' ==> r as int == c as int + 32
    ensures !('A' <= c <= 'Z') ==> r == c
  {
    if 'A' <= c <= 'Z' then (c as int + 32) as char else c
  }

  function ToLower(s: string): (r: string)
    ensures |r| == |s|
    ensures forall i :: 0 <= i < |s| ==> r[i] == LowerChar(s[i])
  {
    seq(|s|, i requires 0 <= i < |s| => LowerChar(s[i]))
  }

  /** Lower-casing leaves no ASCII capital behind, so doing it twice changes
      nothing. */
  lemma ToLowerIdempotent(s: string)
    ensures forall i :: 0 <= i < |s| ==> !('A' <= ToLower(s)[i] <= 'Z')
    ensures ToLower(ToLower(s)) == ToLower(s)
  {
  }

  /** `t` occurs in `s` starting at offset `i`. */
  predicate OccursAt(s: string, t: string, i: int) {
    0 <= i && i + |t| <= |s| && s[i..i + |t|] == t
  }

  /** `s.contains(t)`: true exactly when `t` occurs somewhere in `s`. */
  function Contains(s: string, t: string): (r: bool)
    ensures r <==> exists i :: OccursAt(s, t, i)
    decreases |s|
  {
    if |t| > |s| then false
    else if s[..|t|] == t then (assert OccursAt(s, t, 0); true)
    else
      var r := Contains(s[1..], t);
      ShiftOccurrence(s, t);
      r
  }

  /** An occurrence in `s[1..]` is an occurrence in `s` one place later, and
      every occurrence in `s` other than at 0 arises that way. */
  lemma ShiftOccurrence(s: string, t: string)
    requires s != []
    ensures forall i :: OccursAt(s[1..], t, i) ==> OccursAt(s, t, i + 1)
    ensures forall i :: OccursAt(s, t, i) && i != 0 ==> OccursAt(s[1..], t, i - 1)
  {
    forall i | OccursAt(s[1..], t, i)
      ensures OccursAt(s, t, i + 1)
    {
      assert s[1..][i..i + |t|] == s[i + 1..i + 1 + |t|];
    }
    forall i | OccursAt(s, t, i) && i != 0
      ensures OccursAt(s[1..], t, i - 1)
    {
      assert s[1..][i - 1..i - 1 + |t|] == s[i..i + |t|];
    }
  }
}
