/** The observable semantics of the compiled symbol pattern: an alternation
    of literal keys, tried in order at each position (leftmost-first), where
    a bounded key must also sit between two word boundaries. */
module Matching {
  import opened Results
  import opened Text

  /** One alternative of the alternation: a literal key, wrapped in `\b`
      assertions when `bounded`. */
  datatype Alt = Alt(key: string, bounded: bool)

  /** A match reported by the pattern: where it starts and which key it is. */
  datatype Match = Match(start: nat, key: string)

  function End(mt: Match): nat { mt.start + |mt.key| }

  predicate NonEmptyKeys(alts: seq<Alt>)
  {
    forall j :: 0 <= j < |alts| ==> |alts[j].key| > 0
  }

  /** Position `p` of `s` holds a word character. */
  predicate IsWordAt(word: char -> bool, s: string, p: int)
  {
    0 <= p < |s| && word(s[p])
  }

  /** Regex `\b` at position `p`: the characters on either side differ in
      being word characters (outside the text counts as non-word). */
  predicate Boundary(word: char -> bool, s: string, p: nat)
  {
    IsWordAt(word, s, p - 1) != IsWordAt(word, s, p)
  }

  /** Alternative `a` matches `s` at position `i`. */
  predicate AltMatchesAt(a: Alt, word: char -> bool, s: string, i: nat)
  {
    OccursAt(a.key, s, i) && (a.bounded ==> Boundary(word, s, i) && Boundary(word, s, i + |a.key|))
  }

  /** The index of the first alternative, in pattern order, that matches at
      `i`; `FirstAltIsFirst` states what it computes. */
  function FirstAlt(alts: seq<Alt>, word: char -> bool, s: string, i: nat): (r: Option<nat>)
    ensures r.Some? ==> r.value < |alts| && i + |alts[r.value].key| <= |s|
  {
    if alts == [] then None
    else if AltMatchesAt(alts[0], word, s, i) then Some(0)
    else
      match FirstAlt(alts[1..], word, s, i)
      case None => None
      case Some(k) => Some(k + 1)
  }

  /** `FirstAlt` finds an alternative matching at `i` with none before it in
      pattern order, and `None` exactly when no alternative matches there. */
  lemma {:induction false} FirstAltIsFirst(alts: seq<Alt>, word: char -> bool, s: string, i: nat)
    ensures var r := FirstAlt(alts, word, s, i);
            && (r.Some? ==> AltMatchesAt(alts[r.value], word, s, i))
            && (r.Some? ==> forall k :: 0 <= k < r.value ==> !AltMatchesAt(alts[k], word, s, i))
            && (r.None? ==> forall k :: 0 <= k < |alts| ==> !AltMatchesAt(alts[k], word, s, i))
  {
    if alts != [] && !AltMatchesAt(alts[0], word, s, i) {
      FirstAltIsFirst(alts[1..], word, s, i);
      assert forall k :: 0 < k < |alts| ==> alts[k] == alts[1..][k - 1];
    }
  }

  /** Tries the alternatives in order at position `i`, as the regex engine does. */
  method FindFirstAlt(alts: seq<Alt>, word: char -> bool, s: string, i: nat) returns (r: Option<nat>)
    ensures r == FirstAlt(alts, word, s, i)
  {
    FirstAltIsFirst(alts, word, s, i);
    for k := 0 to |alts|
      invariant forall l :: 0 <= l < k ==> !AltMatchesAt(alts[l], word, s, i)
    {
      if AltMatchesAt(alts[k], word, s, i) {
        return Some(k);
      }
    }
    return None;
  }

  /** Matches lie left to right inside `s`, from `i` on, without overlapping. */
  predicate Placed(s: string, i: nat, ms: seq<Match>)
    decreases |ms|
  {
    ms == [] || (i <= ms[0].start && End(ms[0]) <= |s| && Placed(s, End(ms[0]), ms[1..]))
  }

  lemma {:induction false} PlacedFromEarlier(s: string, i: nat, j: nat, ms: seq<Match>)
    requires j <= i && Placed(s, i, ms)
    ensures Placed(s, j, ms)
  {
  }

  /** The matches of `replace_all` on `s[i..]`: at each position the first
      matching alternative is taken and scanning resumes after it; where none
      matches, scanning moves on by one character. */
  function Scan(alts: seq<Alt>, word: char -> bool, s: string, i: nat): (ms: seq<Match>)
    requires NonEmptyKeys(alts) && i <= |s|
    ensures Placed(s, i, ms)
    decreases |s| - i
  {
    if i == |s| then []
    else
      match FirstAlt(alts, word, s, i)
      case None =>
        var rest := Scan(alts, word, s, i + 1);
        PlacedFromEarlier(s, i + 1, i, rest);
        rest
      case Some(k) =>
        [Match(i, alts[k].key)] + Scan(alts, word, s, i + |alts[k].key|)
  }

  /** The output of `replace_all` on `s[i..]`: the text between matches
      copied verbatim, each match replaced by `emit` of its key. */
  function Splice(s: string, i: nat, ms: seq<Match>, emit: string -> string): string
    requires i <= |s| && Placed(s, i, ms)
    decreases |ms|
  {
    if ms == [] then s[i..]
    else s[i..ms[0].start] + emit(ms[0].key) + Splice(s, End(ms[0]), ms[1..], emit)
  }

  /** One step of the scan at a position where no alternative matches. */
  lemma ScanSkip(alts: seq<Alt>, word: char -> bool, s: string, i: nat)
    requires NonEmptyKeys(alts) && i < |s| && FirstAlt(alts, word, s, i).None?
    ensures Scan(alts, word, s, i) == Scan(alts, word, s, i + 1)
  {
  }

  /** One step of the scan at a position where alternative `k` is the first to match. */
  lemma ScanTake(alts: seq<Alt>, word: char -> bool, s: string, i: nat, k: nat)
    requires NonEmptyKeys(alts) && i < |s| && FirstAlt(alts, word, s, i) == Some(k)
    ensures i + |alts[k].key| <= |s|
    ensures Scan(alts, word, s, i) == [Match(i, alts[k].key)] + Scan(alts, word, s, i + |alts[k].key|)
  {
  }

  /** At `p` both patterns match or neither does, and with the same key. */
  predicate ChooseAlike(a1: seq<Alt>, a2: seq<Alt>, word: char -> bool, s: string, p: nat)
  {
    && (FirstAlt(a1, word, s, p).Some? <==> FirstAlt(a2, word, s, p).Some?)
    && (FirstAlt(a1, word, s, p).Some? ==>
          a1[FirstAlt(a1, word, s, p).value].key == a2[FirstAlt(a2, word, s, p).value].key)
  }

  /** A match at the current position is replaced by its emitted text. */
  lemma SpliceTake(s: string, mt: Match, ms: seq<Match>, emit: string -> string)
    requires End(mt) <= |s| && Placed(s, End(mt), ms)
    ensures Placed(s, mt.start, [mt] + ms)
    ensures Splice(s, mt.start, [mt] + ms, emit) == emit(mt.key) + Splice(s, End(mt), ms, emit)
  {
    var all := [mt] + ms;
    assert all[0] == mt && all[1..] == ms;
    assert s[mt.start..mt.start] == [];
  }

  /** A non-empty slice is its first element followed by the rest. */
  lemma ConsSlice(s: string, i: nat, j: nat)
    requires i < j <= |s|
    ensures s[i..j] == [s[i]] + s[i + 1..j]
  {
  }

  /** Skipping one unmatched character copies it to the output. */
  lemma SpliceSkip(s: string, i: nat, ms: seq<Match>, emit: string -> string)
    requires i < |s| && Placed(s, i + 1, ms)
    ensures Placed(s, i, ms)
    ensures Splice(s, i, ms, emit) == [s[i]] + Splice(s, i + 1, ms, emit)
  {
    PlacedFromEarlier(s, i + 1, i, ms);
    if ms == [] {
      ConsSlice(s, i, |s|);
      assert s[i..] == s[i..|s|] && s[i + 1..] == s[i + 1..|s|];
    } else {
      var st := ms[0].start;
      var e, rest := emit(ms[0].key), Splice(s, End(ms[0]), ms[1..], emit);
      ConsSlice(s, i, st);
      AppendAssoc([s[i]], s[i + 1..st], e);
      AppendAssoc([s[i]], s[i + 1..st] + e, rest);
    }
  }

  /** Concatenation is associative. */
  lemma AppendAssoc(a: string, b: string, c: string)
    ensures (a + b) + c == a + (b + c)
  {
  }

  /** Two emitters that agree on every matched key splice the same text. */
  lemma {:induction false} SpliceAgree(s: string, i: nat, ms: seq<Match>, e1: string -> string, e2: string -> string)
    requires i <= |s| && Placed(s, i, ms)
    requires forall j :: 0 <= j < |ms| ==> e1(ms[j].key) == e2(ms[j].key)
    ensures Splice(s, i, ms, e1) == Splice(s, i, ms, e2)
    decreases |ms|
  {
    if ms != [] {
      assert e1(ms[0].key) == e2(ms[0].key);
      forall j | 0 <= j < |ms[1..]| ensures e1(ms[1..][j].key) == e2(ms[1..][j].key) {
        assert ms[1..][j] == ms[j + 1];
      }
      SpliceAgree(s, End(ms[0]), ms[1..], e1, e2);
    }
  }

  /** No alternative matches at `p`. */
  predicate NoMatchAt(alts: seq<Alt>, word: char -> bool, s: string, p: nat)
  {
    FirstAlt(alts, word, s, p).None?
  }

  /** The leftmost-first decomposition of `s[i..]`, stated match by match:
      the next match starts at the leftmost position where some alternative
      matches, uses the first such alternative, and the rest follows its end. */
  ghost predicate LeftmostFirst(alts: seq<Alt>, word: char -> bool, s: string, i: nat, ms: seq<Match>)
    decreases |ms|
  {
    if ms == [] then
      forall p :: i <= p < |s| ==> NoMatchAt(alts, word, s, p)
    else
      var st := ms[0].start;
      var first := FirstAlt(alts, word, s, st);
      && i <= st
      && (forall p :: i <= p < st ==> NoMatchAt(alts, word, s, p))
      && first.Some?
      && ms[0].key == alts[first.value].key
      && LeftmostFirst(alts, word, s, End(ms[0]), ms[1..])
  }

  /** An unmatched position can be added in front of a decomposition's gap. */
  lemma LeftmostFirstExtendGap(alts: seq<Alt>, word: char -> bool, s: string, i: nat, ms: seq<Match>)
    requires NoMatchAt(alts, word, s, i) && LeftmostFirst(alts, word, s, i + 1, ms)
    ensures LeftmostFirst(alts, word, s, i, ms)
  {
  }

  /** The scan finds exactly the leftmost-first matches. */
  lemma {:induction false} ScanIsLeftmostFirst(alts: seq<Alt>, word: char -> bool, s: string, i: nat)
    requires NonEmptyKeys(alts) && i <= |s|
    ensures LeftmostFirst(alts, word, s, i, Scan(alts, word, s, i))
    decreases |s| - i
  {
    if i < |s| {
      match FirstAlt(alts, word, s, i)
      case None =>
        ScanSkip(alts, word, s, i);
        ScanIsLeftmostFirst(alts, word, s, i + 1);
        LeftmostFirstExtendGap(alts, word, s, i, Scan(alts, word, s, i + 1));
      case Some(k) =>
        ScanTake(alts, word, s, i, k);
        var next := i + |alts[k].key|;
        ScanIsLeftmostFirst(alts, word, s, next);
        LeftmostFirstTake(alts, word, s, i, k, Scan(alts, word, s, next));
    }
  }

  /** A decomposition for one pattern is one for any pattern that chooses
      alike at every position. */
  lemma {:induction false} LeftmostFirstAlike(a1: seq<Alt>, a2: seq<Alt>, word: char -> bool, s: string,
                                              i: nat, ms: seq<Match>)
    requires forall p: nat :: p <= |s| ==> ChooseAlike(a1, a2, word, s, p)
    requires LeftmostFirst(a1, word, s, i, ms)
    ensures LeftmostFirst(a2, word, s, i, ms)
    decreases |ms|
  {
    var st := if ms == [] then |s| else ms[0].start;
    forall p | i <= p < st && p < |s| ensures NoMatchAt(a2, word, s, p) {
      assert NoMatchAt(a1, word, s, p) && ChooseAlike(a1, a2, word, s, p);
    }
    if ms != [] {
      assert FirstAlt(a1, word, s, st).Some?;
      assert ChooseAlike(a1, a2, word, s, st);
      LeftmostFirstAlike(a1, a2, word, s, End(ms[0]), ms[1..]);
    }
  }

  /** The first alternative matching at `i`, followed by a decomposition
      from its end, is a decomposition from `i`. */
  lemma LeftmostFirstTake(alts: seq<Alt>, word: char -> bool, s: string, i: nat, k: nat, ms: seq<Match>)
    requires FirstAlt(alts, word, s, i) == Some(k)
    requires LeftmostFirst(alts, word, s, i + |alts[k].key|, ms)
    ensures LeftmostFirst(alts, word, s, i, [Match(i, alts[k].key)] + ms)
  {
    var all := [Match(i, alts[k].key)] + ms;
    assert all[0] == Match(i, alts[k].key) && all[1..] == ms;
  }

  /** There is only one leftmost-first decomposition. */
  lemma {:induction false} LeftmostFirstIsUnique(alts: seq<Alt>, word: char -> bool, s: string, i: nat, ms1: seq<Match>, ms2: seq<Match>)
    requires NonEmptyKeys(alts)
    requires LeftmostFirst(alts, word, s, i, ms1) && LeftmostFirst(alts, word, s, i, ms2)
    ensures ms1 == ms2
    decreases |ms1|
  {
    if ms1 != [] && ms2 != [] {
      var st1, st2 := ms1[0].start, ms2[0].start;
      // A start earlier than the other decomposition's lies in its gap.
      if st1 < st2 {
        ghost var gap := NoMatchAt(alts, word, s, st1);
        assert false;
      } else if st2 < st1 {
        ghost var gap := NoMatchAt(alts, word, s, st2);
        assert false;
      } else {
        assert ms1[0] == ms2[0];
        LeftmostFirstIsUnique(alts, word, s, End(ms1[0]), ms1[1..], ms2[1..]);
      }
    } else if ms1 != [] {
      // A decomposition with no matches leaves no position matching.
      ghost var gap := NoMatchAt(alts, word, s, ms1[0].start);
      assert false;
    } else if ms2 != [] {
      ghost var gap := NoMatchAt(alts, word, s, ms2[0].start);
      assert false;
    }
  }

  /** Every reported match is the first alternative matching at its start. */
  lemma {:induction false} ScanMatchSound(alts: seq<Alt>, word: char -> bool, s: string, i: nat, j: nat)
    requires NonEmptyKeys(alts) && i <= |s|
    requires j < |Scan(alts, word, s, i)|
    ensures var mt := Scan(alts, word, s, i)[j];
            var first := FirstAlt(alts, word, s, mt.start);
            first.Some? && alts[first.value].key == mt.key
    decreases |s| - i
  {
    match FirstAlt(alts, word, s, i)
    case None =>
      ScanMatchSound(alts, word, s, i + 1, j);
    case Some(k) =>
      if j > 0 {
        var ms := Scan(alts, word, s, i);
        assert ms[j] == Scan(alts, word, s, i + |alts[k].key|)[j - 1];
        ScanMatchSound(alts, word, s, i + |alts[k].key|, j - 1);
      }
  }

  /** No position where some alternative matches is left uncovered: it lies
      inside one of the reported matches. */
  lemma {:induction false} ScanCovers(alts: seq<Alt>, word: char -> bool, s: string, i: nat, p: nat)
    requires NonEmptyKeys(alts) && i <= p < |s|
    requires !NoMatchAt(alts, word, s, p)
    ensures exists j :: 0 <= j < |Scan(alts, word, s, i)| &&
                        Scan(alts, word, s, i)[j].start <= p < End(Scan(alts, word, s, i)[j])
    decreases |s| - i
  {
    var ms := Scan(alts, word, s, i);
    match FirstAlt(alts, word, s, i)
    case None =>
      ScanSkip(alts, word, s, i);
      ScanCovers(alts, word, s, i + 1, p);
    case Some(k) =>
      ScanTake(alts, word, s, i, k);
      var e := i + |alts[k].key|;
      var rest := Scan(alts, word, s, e);
      assert ms == [Match(i, alts[k].key)] + rest;
      if p < e {
        assert ms[0].start <= p < End(ms[0]);
      } else {
        ScanCovers(alts, word, s, e, p);
        var j :| 0 <= j < |rest| && rest[j].start <= p < End(rest[j]);
        assert ms[j + 1] == rest[j];
      }
  }
}
