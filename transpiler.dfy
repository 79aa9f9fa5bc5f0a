/** `SymbolTranspiler`: configured with a symbol -> replacement map, it
    rewrites a source text by replacing every leftmost-first, non-overlapping
    occurrence of a symbol with its replacement, after a byte-level precheck,
    and fails the call when a chosen replacement is dangerous. */
module Transpiler {
  import opened Results
  import opened Text
  import opened Utf8
  import opened Threats
  import opened Matching

  /** The two Unicode character classes the source relies on:
      `char::is_alphanumeric` (which decides whether a key is wrapped in `\b`)
      and the regex word-character class (which decides where `\b` holds). */
  datatype CharClasses = CharClasses(isAlphanumeric: char -> bool, isWord: char -> bool)

  const SecurityError := "Security: Dangerous pattern detected during transpilation"

  /** What the replacement closure returns for a blocked match; the text is
      discarded because the whole call then fails. */
  const BlockedText := "SECURITY_BLOCKED"

  const RegexErrorPrefix := "Regex compilation failed: "

  /** A key made only of alphanumeric characters and `_`. */
  predicate IsIdentifierKey(isAlphanumeric: char -> bool, key: string)
  {
    forall j :: 0 <= j < |key| ==> isAlphanumeric(key[j]) || key[j] == '_'
  }

  /** The alternative the pattern holds for `key`: word-bounded exactly when
      the key is identifier-like. */
  function Escape(isAlphanumeric: char -> bool, key: string): (a: Alt)
    ensures a.key == key
    ensures a.bounded <==> forall j :: 0 <= j < |key| ==> isAlphanumeric(key[j]) || key[j] == '_'
  {
    Alt(key, IsIdentifierKey(isAlphanumeric, key))
  }

  /** The bytes above 127 that occur in the UTF-8 encoding of some key. */
  function KeyBytes(keys: set<string>): set<byte>
  {
    set k, b | k in keys && b in HighBytes(Bytes(k)) :: b
  }

  /** `ks` is ordered by non-increasing length in UTF-8 bytes. */
  predicate NonIncreasingLength(ks: seq<string>)
  {
    forall j, l :: 0 <= j < l < |ks| ==> ByteLength(ks[j]) >= ByteLength(ks[l])
  }

  /** Inserts `key` into a list sorted by non-increasing byte length, before
      the first element that is not longer than it. */
  function InsertByLength(key: string, ks: seq<string>): (r: seq<string>)
    requires NonIncreasingLength(ks)
    ensures NonIncreasingLength(r)
    ensures multiset(r) == multiset(ks) + multiset{key}
    ensures r[0] == key || (ks != [] && r[0] == ks[0])
  {
    if ks == [] || ByteLength(key) >= ByteLength(ks[0]) then
      ConsByLength(key, ks);
      [key] + ks
    else
      var rest := InsertByLength(key, ks[1..]);
      InsertBehindHead(key, ks, rest);
      [ks[0]] + rest
  }

  /** Inserting behind the head of `ks` keeps the head in front. */
  lemma InsertBehindHead(key: string, ks: seq<string>, rest: seq<string>)
    requires NonIncreasingLength(ks) && ks != [] && ByteLength(key) < ByteLength(ks[0])
    requires NonIncreasingLength(rest) && multiset(rest) == multiset(ks[1..]) + multiset{key}
    requires rest[0] == key || (ks[1..] != [] && rest[0] == ks[1..][0])
    ensures NonIncreasingLength([ks[0]] + rest)
    ensures multiset([ks[0]] + rest) == multiset(ks) + multiset{key}
  {
    assert ks == [ks[0]] + ks[1..];
    assert multiset([ks[0]] + rest) == multiset{ks[0]} + multiset(rest);
    ConsByLength(ks[0], rest);
  }

  /** A key at least as long as the head of a length-ordered list can go in front. */
  lemma ConsByLength(key: string, ks: seq<string>)
    requires NonIncreasingLength(ks) && (ks == [] || ByteLength(key) >= ByteLength(ks[0]))
    ensures NonIncreasingLength([key] + ks)
  {
    assert forall l :: 0 <= l < |ks| ==> ByteLength(ks[l]) <= ByteLength(ks[0]);
  }

  /** `sort_by_key(|s| Reverse(s.len()))`: the keys reordered by
      non-increasing length in UTF-8 bytes (`String::len`). */
  function SortByLength(ks: seq<string>): (r: seq<string>)
    ensures NonIncreasingLength(r)
    ensures multiset(r) == multiset(ks)
  {
    if ks == [] then []
    else
      assert ks == [ks[0]] + ks[1..];
      InsertByLength(ks[0], SortByLength(ks[1..]))
  }

  function KeysOf(alts: seq<Alt>): (ks: seq<string>)
    ensures |ks| == |alts| && forall j :: 0 <= j < |alts| ==> ks[j] == alts[j].key
  {
    seq(|alts|, j requires 0 <= j < |alts| => alts[j].key)
  }

  /** The alternatives for `ks`, in the same order. */
  function EscapeAll(isAlphanumeric: char -> bool, ks: seq<string>): (alts: seq<Alt>)
    ensures |alts| == |ks| && forall j :: 0 <= j < |ks| ==> alts[j] == Escape(isAlphanumeric, ks[j])
    ensures KeysOf(alts) == ks
  {
    seq(|ks|, j requires 0 <= j < |ks| => Escape(isAlphanumeric, ks[j]))
  }

  /** Escaping the keys of `m`, sorted longest first, gives a valid pattern for `m`. */
  lemma EscapedKeysAreValid(m: map<string, string>, isAlphanumeric: char -> bool, sorted: seq<string>)
    requires forall k :: k in m ==> |k| > 0
    requires NonIncreasingLength(sorted) && multiset(sorted) == multiset(m.Keys)
    ensures ValidPattern(EscapeAll(isAlphanumeric, sorted), m, isAlphanumeric)
  {
    var escaped := EscapeAll(isAlphanumeric, sorted);
    forall j | 0 <= j < |escaped| ensures |escaped[j].key| > 0 {
      assert sorted[j] in multiset(sorted);
    }
  }

  /** Keys are listed by non-increasing length in UTF-8 bytes. */
  ghost predicate SortedByLength(alts: seq<Alt>)
  {
    forall j, l :: 0 <= j < l < |alts| ==> ByteLength(alts[j].key) >= ByteLength(alts[l].key)
  }

  /** Two keys occurring at the same position are prefix-related, so the one
      longer in bytes is also at least as long in characters. */
  lemma CoOccurringKeys(a: string, b: string, s: string, i: nat)
    requires OccursAt(a, s, i) && OccursAt(b, s, i) && ByteLength(a) >= ByteLength(b)
    ensures |a| >= |b|
  {
    if |a| < |b| {
      assert b[..|a|] == a;
      assert b == a + b[|a|..];
      ByteLengthGrows(a, b[|a|..]);
    }
  }

  /** With keys in non-increasing byte-length order, the chosen alternative is
      the longest one matching at that position, in bytes and in characters. */
  lemma FirstAltIsLongest(alts: seq<Alt>, word: char -> bool, s: string, i: nat, l: nat)
    requires SortedByLength(alts)
    requires FirstAlt(alts, word, s, i).Some?
    requires l < |alts| && AltMatchesAt(alts[l], word, s, i)
    ensures ByteLength(alts[l].key) <= ByteLength(alts[FirstAlt(alts, word, s, i).value].key)
    ensures |alts[l].key| <= |alts[FirstAlt(alts, word, s, i).value].key|
  {
    FirstAltIsFirst(alts, word, s, i);
    var f := FirstAlt(alts, word, s, i).value;
    CoOccurringKeys(alts[f].key, alts[l].key, s, i);
  }

  /** The alternation `configure` compiles for `m`: every key exactly once,
      longest first, each word-bounded exactly when identifier-like. */
  ghost predicate ValidPattern(alts: seq<Alt>, m: map<string, string>, isAlphanumeric: char -> bool)
  {
    && NonEmptyKeys(alts)
    && SortedByLength(alts)
    && multiset(KeysOf(alts)) == multiset(m.Keys)
    && forall j :: 0 <= j < |alts| ==> alts[j] == Escape(isAlphanumeric, alts[j].key)
  }

  /** The outcome of `contains_symbols` on the bytes `bs`. */
  predicate SymbolHit(symbolBytes: Option<set<byte>>, bs: seq<byte>)
  {
    symbolBytes.Some? && exists p :: 0 <= p < |bs| && bs[p] > 127 && bs[p] in symbolBytes.value
  }

  /** A high byte of one key is a symbol byte. */
  lemma InKeyBytes(keys: set<string>, k: string, b: byte)
    requires k in keys && b in HighBytes(Bytes(k))
    ensures b in KeyBytes(keys)
  {
  }

  /** A high byte of the input that is a symbol byte makes the precheck fire. */
  lemma HighByteHits(symbolBytes: set<byte>, bs: seq<byte>, b: byte)
    requires b in HighBytes(bs) && b in symbolBytes
    ensures SymbolHit(Some(symbolBytes), bs)
  {
    var p :| 0 <= p < |bs| && bs[p] >= 0x80 && bs[p] == b;
  }

  /** A match of `key` is blocked: security is on and its replacement is dangerous. */
  predicate Blocked(m: map<string, string>, d: ThreatDetector, bypass: bool, key: string)
  {
    !bypass && key in m && IsDangerous(d, m[key])
  }

  /** What the replacement closure returns for a match of `key`. */
  function EmitText(m: map<string, string>, d: ThreatDetector, bypass: bool, key: string): string
  {
    if key !in m then key
    else if Blocked(m, d, bypass, key) then BlockedText
    else m[key]
  }

  function Emit(m: map<string, string>, d: ThreatDetector, bypass: bool): string -> string
  {
    (key: string) => EmitText(m, d, bypass, key)
  }

  /** Plain lookup of a matched key in the mapping. */
  function Lookup(m: map<string, string>): string -> string
  {
    (key: string) => if key in m then m[key] else key
  }

  /** Whether the closure sets `blocked` for some match of `ms`. */
  function AnyBlocked(ms: seq<Match>, m: map<string, string>, d: ThreatDetector, bypass: bool): (r: bool)
    ensures r <==> exists j :: 0 <= j < |ms| && Blocked(m, d, bypass, ms[j].key)
  {
    if ms == [] then false
    else
      var rest := AnyBlocked(ms[1..], m, d, bypass);
      assert rest <==> exists j :: 1 <= j < |ms| && Blocked(m, d, bypass, ms[j].key) by {
        assert forall j :: 1 <= j < |ms| ==> ms[j] == ms[1..][j - 1];
        assert forall j :: 0 <= j < |ms| - 1 ==> ms[1..][j] == ms[j + 1];
      }
      Blocked(m, d, bypass, ms[0].key) || rest
  }

  /** The result of `transpile` on `source` in the state given by the three
      fields of the transpiler. */
  function TranspileResult(m: map<string, string>, pattern: Option<seq<Alt>>, symbolBytes: Option<set<byte>>,
                           word: char -> bool, d: ThreatDetector, source: string, bypass: bool): Result<string, string>
    requires pattern.Some? ==> NonEmptyKeys(pattern.value)
  {
    if !SymbolHit(symbolBytes, Bytes(source)) then Ok(source)
    else
      match pattern
      case None => Ok(source)
      case Some(alts) =>
        var ms := Scan(alts, word, source, 0);
        if AnyBlocked(ms, m, d, bypass) then Err(SecurityError)
        else Ok(Splice(source, 0, ms, Emit(m, d, bypass)))
  }

  class SymbolTranspiler {
    var mappings: map<string, string>
    /** The compiled alternation, `None` before a successful `configure`. */
    var pattern: Option<seq<Alt>>
    var symbolBytes: Option<set<byte>>
    const classes: CharClasses

    ghost predicate Valid()
      reads this
    {
      pattern.Some? ==> NonEmptyKeys(pattern.value)
    }

    /** `SymbolTranspiler::new`: no mappings, no pattern, no symbol bytes. */
    constructor (classes: CharClasses)
      ensures Valid()
      ensures mappings == map[] && pattern == None && symbolBytes == None
      ensures this.classes == classes
    {
      mappings := map[];
      pattern := None;
      symbolBytes := None;
      this.classes := classes;
    }

    /** `configure`: installs `m`, derives the symbol bytes and compiles the
        pattern. `regexError` is the outcome of `Regex::new` on the built
        pattern (`Some(message)` when the regex library refuses it); on that
        failure the new mappings and symbol bytes stay installed while the
        previous pattern is kept. */
    method Configure(m: map<string, string>, regexError: Option<string>) returns (r: Result<(), string>)
      requires Valid()
      requires forall k :: k in m ==> |k| > 0
      modifies this
      ensures Valid()
      ensures mappings == m
      ensures m == map[] ==> r == Ok(()) && pattern == None && symbolBytes == None
      ensures m != map[] ==> symbolBytes == Some(KeyBytes(m.Keys))
      ensures m != map[] && regexError.None? ==>
                r == Ok(()) && pattern.Some? && ValidPattern(pattern.value, m, classes.isAlphanumeric)
      ensures m != map[] && regexError.Some? ==>
                r == Err(RegexErrorPrefix + regexError.value) && pattern == old(pattern)
    {
      mappings := m;
      if m == map[] {
        pattern := None;
        symbolBytes := None;
        return Ok(());
      }

      var bytes := CollectSymbolBytes(m.Keys);
      symbolBytes := Some(bytes);
      var symbols := CollectKeys(m.Keys);
      var sorted := SortByLength(symbols);

      var escaped := EscapeAll(classes.isAlphanumeric, sorted);
      match regexError
      case Some(e) =>
        return Err(RegexErrorPrefix + e);
      case None =>
        EscapedKeysAreValid(m, classes.isAlphanumeric, sorted);
        pattern := Some(escaped);
        return Ok(());
    }

    /** `contains_symbols`: scans the UTF-8 bytes of `source` in chunks of
        64 for a byte above 127 that occurs in some key. */
    method ContainsSymbols(source: string) returns (hit: bool)
      ensures hit == SymbolHit(symbolBytes, Bytes(source))
    {
      match symbolBytes
      case None =>
        return false;
      case Some(bytes) =>
        var sourceBytes := Bytes(source);
        var c := 0;
        while c < |sourceBytes|
          invariant c <= |sourceBytes|
          invariant forall p :: 0 <= p < c ==> !(sourceBytes[p] > 127 && sourceBytes[p] in bytes)
        {
          var end := if c + 64 <= |sourceBytes| then c + 64 else |sourceBytes|;
          var chunk := sourceBytes[c..end];
          for j := 0 to |chunk|
            invariant forall p :: 0 <= p < c + j ==> !(sourceBytes[p] > 127 && sourceBytes[p] in bytes)
          {
            if chunk[j] > 127 && chunk[j] in bytes {
              assert sourceBytes[c + j] == chunk[j];
              return true;
            }
          }
          c := end;
        }
        return false;
    }

    /** `transpile`: `source` unchanged when the precheck finds no symbol
        byte or no pattern is installed; otherwise every match replaced, and
        the whole call failing if any match was blocked. */
    method Transpile(source: string, detector: ThreatDetector, bypass: bool) returns (r: Result<string, string>)
      requires Valid()
      ensures r == TranspileResult(mappings, pattern, symbolBytes, classes.isWord, detector, source, bypass)
      ensures !SymbolHit(symbolBytes, Bytes(source)) ==> r == Ok(source)
    {
      var hit := ContainsSymbols(source);
      if !hit {
        return Ok(source);
      }
      if pattern.None? {
        return Ok(source);
      }
      var out, blocked := ReplaceAll(pattern.value, classes.isWord, mappings, detector, bypass, source);
      if blocked {
        return Err(SecurityError);
      }
      return Ok(out);
    }
  }

  /** The bytes above 127 of the keys, gathered key by key and byte by byte. */
  method CollectSymbolBytes(keys: set<string>) returns (bytes: set<byte>)
    ensures bytes == KeyBytes(keys)
  {
    bytes := {};
    var remaining := keys;
    while remaining != {}
      invariant remaining <= keys
      invariant bytes == KeyBytes(keys - remaining)
      decreases remaining
    {
      var symbol :| symbol in remaining;
      var encoded := Bytes(symbol);
      for j := 0 to |encoded|
        invariant bytes == KeyBytes(keys - remaining) + HighBytes(encoded[..j])
      {
        assert encoded[..j + 1] == encoded[..j] + [encoded[j]];
        HighBytesConcat(encoded[..j], [encoded[j]]);
        if encoded[j] > 127 {
          bytes := bytes + {encoded[j]};
        }
      }
      assert encoded[..|encoded|] == encoded;
      KeyBytesInsert(keys - remaining, symbol);
      assert keys - (remaining - {symbol}) == (keys - remaining) + {symbol};
      remaining := remaining - {symbol};
    }
  }

  /** `keys().cloned().collect()`: the keys in some order, each once. */
  method CollectKeys(keys: set<string>) returns (symbols: seq<string>)
    ensures multiset(symbols) == multiset(keys)
  {
    symbols := [];
    var remaining := keys;
    while remaining != {}
      invariant remaining <= keys
      invariant multiset(symbols) == multiset(keys - remaining)
      decreases remaining
    {
      var symbol :| symbol in remaining;
      assert keys - (remaining - {symbol}) == (keys - remaining) + {symbol};
      symbols := symbols + [symbol];
      remaining := remaining - {symbol};
    }
    assert keys - remaining == keys;
  }

  /** The replacement closure for a match of `key`: the text it returns and
      whether it sets the `blocked` flag. */
  method Replace(m: map<string, string>, d: ThreatDetector, bypass: bool, key: string)
    returns (text: string, blocked: bool)
    ensures text == EmitText(m, d, bypass, key)
    ensures blocked == Blocked(m, d, bypass, key)
  {
    if key in m {
      var replacement := m[key];
      if !bypass && IsDangerous(d, replacement) {
        return BlockedText, true;
      }
      return replacement, false;
    }
    return key, false;
  }

  /** One step of `replace_all` at position `i`: the replaced text of the
      first alternative matching there, or else the character at `i`, with
      the position where scanning resumes. */
  method ReplaceStep(alts: seq<Alt>, word: char -> bool, m: map<string, string>, d: ThreatDetector,
                     bypass: bool, source: string, i: nat)
    returns (text: string, hit: bool, next: nat)
    requires NonEmptyKeys(alts) && i < |source|
    ensures StepTaken(alts, word, m, d, bypass, source, i, text, hit, next)
    ensures Stepped(alts, word, m, d, bypass, source, i, text, hit, next)
  {
    var found := FindFirstAlt(alts, word, source, i);
    match found
    case None =>
      text, hit, next := [source[i]], false, i + 1;
      SkipStep(alts, word, m, d, bypass, source, i, text, hit, next);
    case Some(k) =>
      text, hit := Replace(m, d, bypass, alts[k].key);
      next := i + |alts[k].key|;
      TakeStep(alts, word, m, d, bypass, source, i, k, text, hit, next);
  }

  /** The step at `i` copies the character when no alternative matches there,
      and otherwise emits the closure's text for the first matching
      alternative and moves past it. */
  ghost predicate StepTaken(alts: seq<Alt>, word: char -> bool, m: map<string, string>, d: ThreatDetector,
                            bypass: bool, source: string, i: nat, text: string, hit: bool, next: nat)
    requires i < |source|
  {
    match FirstAlt(alts, word, source, i)
    case None => text == [source[i]] && !hit && next == i + 1
    case Some(k) =>
      var key := alts[k].key;
      text == EmitText(m, d, bypass, key) && hit == Blocked(m, d, bypass, key) && next == i + |key|
  }

  /** Scanning from `i` emits `text` and then continues from `next`, and
      `hit` says whether that step set the `blocked` flag. */
  ghost predicate Stepped(alts: seq<Alt>, word: char -> bool, m: map<string, string>, d: ThreatDetector,
                          bypass: bool, source: string, i: nat, text: string, hit: bool, next: nat)
    requires NonEmptyKeys(alts) && i <= |source|
  {
    && i < next <= |source|
    && Splice(source, i, Scan(alts, word, source, i), Emit(m, d, bypass)) ==
       text + Splice(source, next, Scan(alts, word, source, next), Emit(m, d, bypass))
    && AnyBlocked(Scan(alts, word, source, i), m, d, bypass) ==
       (hit || AnyBlocked(Scan(alts, word, source, next), m, d, bypass))
  }

  /** A position where no alternative matches is copied and blocks nothing. */
  lemma SkipStep(alts: seq<Alt>, word: char -> bool, m: map<string, string>, d: ThreatDetector,
                 bypass: bool, source: string, i: nat, text: string, hit: bool, next: nat)
    requires NonEmptyKeys(alts) && i < |source| && FirstAlt(alts, word, source, i).None?
    requires text == [source[i]] && !hit && next == i + 1
    ensures Stepped(alts, word, m, d, bypass, source, i, text, hit, next)
  {
    ScanSkip(alts, word, source, i);
    SpliceSkip(source, i, Scan(alts, word, source, i + 1), Emit(m, d, bypass));
  }

  /** A match of alternative `k` at `i` is replaced by the closure's text,
      and blocks exactly when its key does. */
  lemma TakeStep(alts: seq<Alt>, word: char -> bool, m: map<string, string>, d: ThreatDetector,
                 bypass: bool, source: string, i: nat, k: nat, text: string, hit: bool, next: nat)
    requires NonEmptyKeys(alts) && i < |source| && FirstAlt(alts, word, source, i) == Some(k)
    requires k < |alts| && text == EmitText(m, d, bypass, alts[k].key) && hit == Blocked(m, d, bypass, alts[k].key)
    requires next == i + |alts[k].key|
    ensures Stepped(alts, word, m, d, bypass, source, i, text, hit, next)
  {
    ScanTake(alts, word, source, i, k);
    var mt, emit := Match(i, alts[k].key), Emit(m, d, bypass);
    var ms, rest := Scan(alts, word, source, i), Scan(alts, word, source, End(mt));
    assert ms == [mt] + rest;
    SpliceTake(source, mt, rest, emit);
    assert Splice(source, i, ms, emit) == emit(mt.key) + Splice(source, End(mt), rest, emit);
    assert emit(mt.key) == EmitText(m, d, bypass, mt.key);
    AnyBlockedCons(mt, rest, m, d, bypass);
  }

  /** `replace_all` with the replacement closure: scans `source` left to
      right, replacing each leftmost-first match and copying other text. */
  method ReplaceAll(alts: seq<Alt>, word: char -> bool, m: map<string, string>, d: ThreatDetector,
                    bypass: bool, source: string)
    returns (out: string, blocked: bool)
    requires NonEmptyKeys(alts)
    ensures out == Splice(source, 0, Scan(alts, word, source, 0), Emit(m, d, bypass))
    ensures blocked == AnyBlocked(Scan(alts, word, source, 0), m, d, bypass)
  {
    ghost var emit := Emit(m, d, bypass);
    ghost var all := Scan(alts, word, source, 0);
    out, blocked := [], false;
    var i := 0;
    while i < |source|
      invariant i <= |source|
      invariant Splice(source, 0, all, emit) == out + Splice(source, i, Scan(alts, word, source, i), emit)
      invariant AnyBlocked(all, m, d, bypass) == (blocked || AnyBlocked(Scan(alts, word, source, i), m, d, bypass))
      decreases |source| - i
    {
      var text, hit, next := ReplaceStep(alts, word, m, d, bypass, source, i);
      ghost var tail := Splice(source, next, Scan(alts, word, source, next), emit);
      AppendAssoc(out, text, tail);
      out := out + text;
      blocked := blocked || hit;
      i := next;
    }
    assert source[|source|..] == [];
    assert Scan(alts, word, source, i) == [];
  }

  lemma AnyBlockedCons(mt: Match, ms: seq<Match>, m: map<string, string>, d: ThreatDetector, bypass: bool)
    ensures AnyBlocked([mt] + ms, m, d, bypass) == (Blocked(m, d, bypass, mt.key) || AnyBlocked(ms, m, d, bypass))
  {
    assert ([mt] + ms)[1..] == ms;
  }

  lemma KeyBytesInsert(keys: set<string>, k: string)
    ensures KeyBytes(keys + {k}) == KeyBytes(keys) + HighBytes(Bytes(k))
  {
  }
}
