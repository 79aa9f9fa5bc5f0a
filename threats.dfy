/** The threat detector: a fixed denylist of literal substrings that mark
    replacement text as dangerous. */
module Threats {
  import opened Text

  /** The literal patterns `ThreatDetector::new` builds its automaton from. */
  const Denylist: seq<string> := [
    "eval(", "eval (", "exec(", "exec (", "compile(", "compile (",
    "getattr(__builtins__", "getattr(__builtins__,", "globals(", "globals (",
    "locals(", "locals (", "os.system(", "os.system (", "subprocess.",
    "__import__", "vars(", "vars (", "dir(", "dir (", "open(", "open (",
    "input(", "raw_input("
  ]

  /** A detector over a list of literal patterns; immutable once built. */
  datatype ThreatDetector = ThreatDetector(patterns: seq<string>)

  /** `ThreatDetector::new`: a detector over the fixed denylist, none of whose
      entries is empty. */
  function New(): (d: ThreatDetector)
    ensures forall k :: 0 <= k < |d.patterns| ==> |d.patterns[k]| > 0
  {
    ThreatDetector(Denylist)
  }

  /** Whether `pat` occurs in `s`, trying each start position in turn. */
  function Occurs(pat: string, s: string): (r: bool)
    ensures r <==> IsSubstring(pat, s)
    decreases |s|
  {
    if |pat| > |s| then
      assert forall i: nat :: !OccursAt(pat, s, i);
      false
    else if s[..|pat|] == pat then
      assert OccursAt(pat, s, 0);
      true
    else
      var rest := Occurs(pat, s[1..]);
      assert rest ==> IsSubstring(pat, s) by {
        if rest {
          var i: nat :| OccursAt(pat, s[1..], i);
          assert s[1..][i..i + |pat|] == s[i + 1..i + 1 + |pat|];
          assert OccursAt(pat, s, i + 1);
        }
      }
      assert IsSubstring(pat, s) ==> rest by {
        if IsSubstring(pat, s) {
          var i: nat :| OccursAt(pat, s, i);
          assert i != 0;
          assert s[1..][i - 1..i - 1 + |pat|] == s[i..i + |pat|];
          assert OccursAt(pat, s[1..], i - 1);
        }
      }
      rest
  }

  /** Whether some pattern of `pats` occurs in `s`. */
  function AnyOccurs(pats: seq<string>, s: string): (r: bool)
    ensures r <==> exists k :: 0 <= k < |pats| && IsSubstring(pats[k], s)
  {
    if pats == [] then false
    else
      var rest := AnyOccurs(pats[1..], s);
      assert rest <==> exists k :: 1 <= k < |pats| && IsSubstring(pats[k], s) by {
        assert forall k :: 1 <= k < |pats| ==> pats[k] == pats[1..][k - 1];
        assert forall k :: 0 <= k < |pats| - 1 ==> pats[1..][k] == pats[k + 1];
      }
      Occurs(pats[0], s) || rest
  }

  /** `is_dangerous`: some pattern of the detector occurs in `text` as a
      contiguous, case-sensitive substring. */
  function IsDangerous(d: ThreatDetector, text: string): (r: bool)
    ensures r <==> exists k :: 0 <= k < |d.patterns| && IsSubstring(d.patterns[k], text)
  {
    AnyOccurs(d.patterns, text)
  }

  /** Every denylist entry is itself dangerous. */
  lemma EntriesAreDangerous(k: nat)
    requires k < |Denylist|
    ensures IsDangerous(New(), Denylist[k])
  {
    assert OccursAt(Denylist[k], Denylist[k], 0);
  }

  lemma SampleEntriesAreDangerous()
    ensures IsDangerous(New(), "eval(")
    ensures IsDangerous(New(), "subprocess.")
    ensures IsDangerous(New(), "__import__")
  {
    var d := New();
    assert d.patterns[0] == "eval(" && OccursAt(d.patterns[0], "eval(", 0);
    assert d.patterns[14] == "subprocess." && OccursAt(d.patterns[14], "subprocess.", 0);
    assert d.patterns[15] == "__import__" && OccursAt(d.patterns[15], "__import__", 0);
  }

  /** The empty string is not dangerous: no entry is empty. */
  lemma EmptyIsSafe()
    ensures !IsDangerous(New(), "")
  {
    var d := New();
    forall k | 0 <= k < |d.patterns| ensures !IsSubstring(d.patterns[k], "") {
      assert forall i: nat :: !OccursAt(d.patterns[k], "", i);
    }
  }

  /** Danger is preserved by embedding: a string containing a dangerous
      string is dangerous, whatever the detector. */
  lemma DangerIsMonotone(d: ThreatDetector, s: string, t: string)
    requires IsDangerous(d, s) && IsSubstring(s, t)
    ensures IsDangerous(d, t)
  {
    var k :| 0 <= k < |d.patterns| && IsSubstring(d.patterns[k], s);
    IsSubstringTransitive(d.patterns[k], s, t);
  }

  predicate IsLower(c: char) { 'a' <= c <= 'z' }

  /** `s` contains no lower-case ASCII letter. */
  predicate NoLowercase(s: string)
  {
    forall j :: 0 <= j < |s| ==> !IsLower(s[j])
  }

  /** Each denylist entry has a lower-case letter at index 0 or 2. */
  lemma EntryHasLower(k: nat)
    requires k < |Denylist|
    ensures 2 < |Denylist[k]| && (IsLower(Denylist[k][0]) || IsLower(Denylist[k][2]))
  {
  }

  /** Matching is case-sensitive and every entry holds a lower-case letter,
      so text without lower-case ASCII letters is never dangerous. */
  lemma NoLowercaseIsSafe(s: string)
    requires NoLowercase(s)
    ensures !IsDangerous(New(), s)
  {
    var d := New();
    forall k | 0 <= k < |d.patterns| ensures !IsSubstring(d.patterns[k], s) {
      EntryHasLower(k);
      LowercaseEntryAbsent(Denylist[k], s, if IsLower(Denylist[k][0]) then 0 else 2);
    }
  }

  /** A pattern with a lower-case letter does not occur in text without one. */
  lemma LowercaseEntryAbsent(e: string, s: string, w: nat)
    requires w < |e| && IsLower(e[w]) && NoLowercase(s)
    ensures !IsSubstring(e, s)
  {
    forall i: nat ensures !OccursAt(e, s, i) {
      if i + |e| <= |s| { assert s[i..i + |e|][w] == s[i + w]; }
    }
  }

  lemma UppercaseEvalIsSafe()
    ensures !IsDangerous(New(), "EVAL(")
  {
    NoLowercaseIsSafe("EVAL(");
  }
}
