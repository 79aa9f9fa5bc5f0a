/** What `transpile` promises, stated over the specification function
    `TranspileResult` and the configured pattern. */
module TranspilerProperties {
  import opened Results
  import opened Text
  import opened Utf8
  import opened Threats
  import opened Matching
  import opened Transpiler

  /** The symbol bytes are empty exactly when every key is pure ASCII. */
  lemma NoSymbolBytesIffAsciiKeys(keys: set<string>)
    ensures KeyBytes(keys) == {} <==> forall k :: k in keys ==> IsAscii(k)
  {
    forall k | k in keys ensures HighBytes(Bytes(k)) == {} <==> IsAscii(k) {
      HighBytesIffNonAscii(k);
    }
  }

  /** With only ASCII keys the precheck never fires, so `transpile` returns
      its input unchanged whatever the input holds. */
  lemma AsciiKeysLeaveSourceUnchanged(m: map<string, string>, pattern: Option<seq<Alt>>, word: char -> bool,
                                      d: ThreatDetector, source: string, bypass: bool)
    requires pattern.Some? ==> NonEmptyKeys(pattern.value)
    requires forall k :: k in m ==> IsAscii(k)
    ensures TranspileResult(m, pattern, Some(KeyBytes(m.Keys)), word, d, source, bypass) == Ok(source)
  {
    NoSymbolBytesIffAsciiKeys(m.Keys);
  }

  /** An identifier-like ASCII symbol is never substituted: `{"if": "WHEN"}`
      leaves `"if x:"` as it is. */
  lemma IdentifierSymbolIsNotSubstituted(pattern: Option<seq<Alt>>, word: char -> bool, d: ThreatDetector, bypass: bool)
    requires pattern.Some? ==> NonEmptyKeys(pattern.value)
    ensures TranspileResult(map["if" := "WHEN"], pattern, Some(KeyBytes({"if"})), word, d, "if x:", bypass) == Ok("if x:")
  {
    var m := map["if" := "WHEN"];
    assert m.Keys == {"if"};
    AsciiKeysLeaveSourceUnchanged(m, pattern, word, d, "if x:", bypass);
  }

  /** The precheck has no false negative for a key with a non-ASCII
      character: an occurrence of such a key makes it fire. */
  lemma NonAsciiOccurrencePassesPrecheck(m: map<string, string>, k: string, source: string, i: nat)
    requires k in m && !IsAscii(k) && OccursAt(k, source, i)
    ensures SymbolHit(Some(KeyBytes(m.Keys)), Bytes(source))
  {
    var b := NonAsciiHighByte(k);
    InKeyBytes(m.Keys, k, b);
    HighBytesOfOccurrence(k, source, i);
    HighByteHits(KeyBytes(m.Keys), Bytes(source), b);
  }

  /** The only failure of `transpile` is the security error, and it happens
      exactly when the scan is reached, security is on, and some match's
      replacement is dangerous. */
  lemma FailsIffDangerousMatch(m: map<string, string>, pattern: Option<seq<Alt>>, symbolBytes: Option<set<byte>>,
                               word: char -> bool, d: ThreatDetector, source: string, bypass: bool)
    requires pattern.Some? ==> NonEmptyKeys(pattern.value)
    ensures var r := TranspileResult(m, pattern, symbolBytes, word, d, source, bypass);
            && (r.Err? ==> r.error == SecurityError)
            && (r.Err? <==>
                  && SymbolHit(symbolBytes, Bytes(source))
                  && pattern.Some?
                  && !bypass
                  && exists j :: 0 <= j < |Scan(pattern.value, word, source, 0)| &&
                                 var key := Scan(pattern.value, word, source, 0)[j].key;
                                 key in m && IsDangerous(d, m[key]))
  {
  }

  /** With `bypass_security` set, `transpile` never fails. */
  lemma BypassNeverFails(m: map<string, string>, pattern: Option<seq<Alt>>, symbolBytes: Option<set<byte>>,
                         word: char -> bool, d: ThreatDetector, source: string)
    requires pattern.Some? ==> NonEmptyKeys(pattern.value)
    ensures TranspileResult(m, pattern, symbolBytes, word, d, source, true).Ok?
  {
    FailsIffDangerousMatch(m, pattern, symbolBytes, word, d, source, true);
  }

  /** A successful substitution copies the text between matches verbatim and
      puts each match's mapped replacement in its place. */
  lemma SuccessSplicesReplacements(m: map<string, string>, alts: seq<Alt>, symbolBytes: Option<set<byte>>,
                                   word: char -> bool, d: ThreatDetector, source: string, bypass: bool)
    requires NonEmptyKeys(alts)
    requires SymbolHit(symbolBytes, Bytes(source))
    requires TranspileResult(m, Some(alts), symbolBytes, word, d, source, bypass).Ok?
    ensures TranspileResult(m, Some(alts), symbolBytes, word, d, source, bypass).value ==
            Splice(source, 0, Scan(alts, word, source, 0), Lookup(m))
  {
    var ms := Scan(alts, word, source, 0);
    forall j | 0 <= j < |ms| ensures Emit(m, d, bypass)(ms[j].key) == Lookup(m)(ms[j].key) {
      assert !Blocked(m, d, bypass, ms[j].key);
    }
    SpliceAgree(source, 0, ms, Emit(m, d, bypass), Lookup(m));
  }

  /** In a pattern compiled from `m`, every alternative's key is a key of `m`. */
  lemma PatternKeysAreMapped(alts: seq<Alt>, m: map<string, string>, isAlphanumeric: char -> bool, l: nat)
    requires ValidPattern(alts, m, isAlphanumeric) && l < |alts|
    ensures alts[l].key in m
  {
    assert KeysOf(alts)[l] == alts[l].key;
    assert alts[l].key in multiset(KeysOf(alts));
  }

  /** Each key of `m` has its alternative in a pattern compiled from `m`. */
  lemma MappedKeyHasAlt(alts: seq<Alt>, m: map<string, string>, isAlphanumeric: char -> bool, k: string)
    returns (l: nat)
    requires ValidPattern(alts, m, isAlphanumeric) && k in m
    ensures l < |alts| && alts[l] == Escape(isAlphanumeric, k)
  {
    assert k in multiset(KeysOf(alts));
    var ks := KeysOf(alts);
    l :| 0 <= l < |ks| && ks[l] == k;
  }

  /** Every match found with a compiled pattern is a mapped key occurring at
      its start; an identifier-like key sits between word boundaries. */
  lemma MatchesFollowBoundaryRule(alts: seq<Alt>, m: map<string, string>, isAlphanumeric: char -> bool,
                                  word: char -> bool, s: string, j: nat)
    requires ValidPattern(alts, m, isAlphanumeric)
    requires j < |Scan(alts, word, s, 0)|
    ensures var mt := Scan(alts, word, s, 0)[j];
            && mt.key in m
            && OccursAt(mt.key, s, mt.start)
            && (IsIdentifierKey(isAlphanumeric, mt.key) ==> Boundary(word, s, mt.start) && Boundary(word, s, End(mt)))
  {
    ScanMatchSound(alts, word, s, 0, j);
    var mt := Scan(alts, word, s, 0)[j];
    var l := FirstAlt(alts, word, s, mt.start).value;
    FirstAltIsFirst(alts, word, s, mt.start);
    PatternKeysAreMapped(alts, m, isAlphanumeric, l);
  }

  /** Where a key of `m` matches (as a substring, and between word boundaries
      if identifier-like), that position is consumed by some match: it is
      never copied through unreplaced. */
  lemma EveryOccurrenceIsConsumed(alts: seq<Alt>, m: map<string, string>, isAlphanumeric: char -> bool,
                                  word: char -> bool, s: string, k: string, p: nat)
    requires ValidPattern(alts, m, isAlphanumeric) && k in m
    requires AltMatchesAt(Escape(isAlphanumeric, k), word, s, p)
    ensures exists j :: 0 <= j < |Scan(alts, word, s, 0)| &&
                        Scan(alts, word, s, 0)[j].start <= p < End(Scan(alts, word, s, 0)[j])
  {
    var l := MappedKeyHasAlt(alts, m, isAlphanumeric, k);
    assert AltMatchesAt(alts[l], word, s, p);
    FirstAltIsFirst(alts, word, s, p);
    ScanCovers(alts, word, s, 0, p);
  }

  /** Where two keys of `m` both match at the start of a match, the longer
      one (in bytes, and so in characters) is the one replaced. */
  lemma LongestKeyWins(alts: seq<Alt>, m: map<string, string>, isAlphanumeric: char -> bool,
                       word: char -> bool, s: string, j: nat, k: string)
    requires ValidPattern(alts, m, isAlphanumeric) && k in m
    requires j < |Scan(alts, word, s, 0)|
    requires AltMatchesAt(Escape(isAlphanumeric, k), word, s, Scan(alts, word, s, 0)[j].start)
    ensures ByteLength(k) <= ByteLength(Scan(alts, word, s, 0)[j].key)
    ensures |k| <= |Scan(alts, word, s, 0)[j].key|
  {
    var mt := Scan(alts, word, s, 0)[j];
    ScanMatchSound(alts, word, s, 0, j);
    var l := MappedKeyHasAlt(alts, m, isAlphanumeric, k);
    FirstAltIsLongest(alts, word, s, mt.start, l);
  }

  /** Two patterns compiled from the same map, whatever order `sort_by_key`
      left keys of equal byte length in, choose the same alternative at every
      position. */
  lemma SameChoice(a1: seq<Alt>, a2: seq<Alt>, m: map<string, string>, isAlphanumeric: char -> bool,
                   word: char -> bool, s: string, i: nat)
    requires ValidPattern(a1, m, isAlphanumeric) && ValidPattern(a2, m, isAlphanumeric)
    ensures FirstAlt(a1, word, s, i).Some? <==> FirstAlt(a2, word, s, i).Some?
    ensures FirstAlt(a1, word, s, i).Some? ==>
              a1[FirstAlt(a1, word, s, i).value] == a2[FirstAlt(a2, word, s, i).value]
  {
    FirstAltIsFirst(a1, word, s, i);
    FirstAltIsFirst(a2, word, s, i);
    var r1, r2 := FirstAlt(a1, word, s, i), FirstAlt(a2, word, s, i);
    if r1.Some? {
      var k1 := a1[r1.value].key;
      PatternKeysAreMapped(a1, m, isAlphanumeric, r1.value);
      var l2 := MappedKeyHasAlt(a2, m, isAlphanumeric, k1);
      assert AltMatchesAt(a2[l2], word, s, i);
    }
    if r2.Some? {
      var k2 := a2[r2.value].key;
      PatternKeysAreMapped(a2, m, isAlphanumeric, r2.value);
      var l1 := MappedKeyHasAlt(a1, m, isAlphanumeric, k2);
      assert AltMatchesAt(a1[l1], word, s, i);
      var k1 := a1[r1.value].key;
      PatternKeysAreMapped(a1, m, isAlphanumeric, r1.value);
      var l2 := MappedKeyHasAlt(a2, m, isAlphanumeric, k1);
      FirstAltIsLongest(a1, word, s, i, l1);
      FirstAltIsLongest(a2, word, s, i, l2);
      assert k1 == s[i..i + |k1|] == k2;
    }
  }

  /** The order of keys of equal byte length cannot be observed: two patterns
      compiled from the same map give the same matches on every text. */
  lemma TieOrderUnobservable(a1: seq<Alt>, a2: seq<Alt>, m: map<string, string>,
                             isAlphanumeric: char -> bool, word: char -> bool, s: string, i: nat)
    requires ValidPattern(a1, m, isAlphanumeric) && ValidPattern(a2, m, isAlphanumeric) && i <= |s|
    ensures Scan(a1, word, s, i) == Scan(a2, word, s, i)
  {
    forall p: nat | p <= |s| ensures ChooseAlike(a1, a2, word, s, p) {
      SameChoice(a1, a2, m, isAlphanumeric, word, s, p);
    }
    ScanIsLeftmostFirst(a1, word, s, i);
    ScanIsLeftmostFirst(a2, word, s, i);
    LeftmostFirstAlike(a1, a2, word, s, i, Scan(a1, word, s, i));
    LeftmostFirstIsUnique(a2, word, s, i, Scan(a1, word, s, i), Scan(a2, word, s, i));
  }

  /** A single non-ASCII symbol mapped to dangerous text blocks any input in
      which it matches, unless security is bypassed. */
  lemma DangerousSymbolBlocks(m: map<string, string>, k: string, alts: seq<Alt>, isAlphanumeric: char -> bool,
                              word: char -> bool, d: ThreatDetector, s: string, p: nat)
    requires m.Keys == {k} && !IsAscii(k) && IsDangerous(d, m[k])
    requires ValidPattern(alts, m, isAlphanumeric)
    requires AltMatchesAt(Escape(isAlphanumeric, k), word, s, p)
    ensures TranspileResult(m, Some(alts), Some(KeyBytes(m.Keys)), word, d, s, false) == Err(SecurityError)
  {
    NonAsciiOccurrencePassesPrecheck(m, k, s, p);
    EveryOccurrenceIsConsumed(alts, m, isAlphanumeric, word, s, k, p);
    var ms := Scan(alts, word, s, 0);
    var j :| 0 <= j < |ms| && ms[j].start <= p < End(ms[j]);
    MatchesFollowBoundaryRule(alts, m, isAlphanumeric, word, s, j);
    assert Blocked(m, d, false, ms[j].key);
  }

  const Lightning: char := '\U{26A1}'

  /** Keys are ordered by UTF-8 byte length: `"⚡⚡"` (6 bytes) goes before
      `"abc"` (3 bytes) although it has fewer characters. */
  lemma SortByLengthCountsBytes()
    ensures SortByLength(["abc", [Lightning, Lightning]]) == [[Lightning, Lightning], "abc"]
  {
    assert Lightning as int == 0x26A1;
    assert ByteLength([Lightning]) == 3 by {
      assert Bytes([Lightning]) == EncodeChar(Lightning) + Bytes([]);
    }
    assert ByteLength([Lightning, Lightning]) == 6 by {
      assert [Lightning, Lightning] == [Lightning] + [Lightning];
      BytesConcat([Lightning], [Lightning]);
    }
  }

  /** `{"⚡": "eval("}`: any input holding the symbol fails to transpile with
      security on and succeeds with it bypassed. */
  lemma LightningToEvalIsBlocked(alts: seq<Alt>, isAlphanumeric: char -> bool, word: char -> bool, s: string, p: nat)
    requires !isAlphanumeric(Lightning)
    requires ValidPattern(alts, map[[Lightning] := "eval("], isAlphanumeric)
    requires OccursAt([Lightning], s, p)
    ensures var m := map[[Lightning] := "eval("];
            && TranspileResult(m, Some(alts), Some(KeyBytes(m.Keys)), word, New(), s, false) == Err(SecurityError)
            && TranspileResult(m, Some(alts), Some(KeyBytes(m.Keys)), word, New(), s, true).Ok?
  {
    var m := map[[Lightning] := "eval("];
    assert m.Keys == {[Lightning]};
    assert [Lightning][0] as int == 0x26A1;
    SampleEntriesAreDangerous();
    assert !Escape(isAlphanumeric, [Lightning]).bounded;
    DangerousSymbolBlocks(m, [Lightning], alts, isAlphanumeric, word, New(), s, p);
    BypassNeverFails(m, Some(alts), Some(KeyBytes(m.Keys)), word, New(), s);
  }

  /** After `configure` with an empty map, `transpile` returns its input. */
  method EmptyConfigurationIsIdentity(t: SymbolTranspiler, source: string, d: ThreatDetector, bypass: bool)
    returns (r: Result<string, string>)
    requires t.Valid()
    modifies t
    ensures t.pattern == None && t.symbolBytes == None
    ensures r == Ok(source)
  {
    var configured := t.Configure(map[], None);
    r := t.Transpile(source, d, bypass);
  }
}
