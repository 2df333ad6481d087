/**
 * The path matcher: finds the key of an "exports"/"imports" map that a request
 * selects, either the exact key or the most specific single-`*` pattern key,
 * together with the substring the `*` captures.
 */
module PathMatcher {
  import opened PackageTypes
  import opened Text

  const STAR: char := '*'

  /** What the matcher found: an exact key, a pattern key with its capture, or nothing. */
  datatype PathMatch = NoMatch | Exact(key: string) | Pattern(key: string, capture: string)

  /**
   * `keyB` is more specific than `keyA`: its star comes later, or at the same
   * place in a longer key.  A key without a star has star index -1, so every
   * pattern key is more specific than every starless key.
   */
  predicate HasHigherSpecificity(keyA: string, keyB: string)
    ensures STAR !in keyA && STAR in keyB ==> HasHigherSpecificity(keyA, keyB)
  {
    var starIndexA := IndexOf(keyA, STAR);
    var starIndexB := IndexOf(keyB, STAR);
    if starIndexA == starIndexB then |keyB| > |keyA| else starIndexB > starIndexA
  }

  /** The comparison is a strict order: irreflexive, asymmetric and transitive. */
  lemma SpecificityIsStrictOrder(a: string, b: string, c: string)
    ensures !HasHigherSpecificity(a, a)
    ensures HasHigherSpecificity(a, b) ==> !HasHigherSpecificity(b, a)
    ensures HasHigherSpecificity(a, b) && HasHigherSpecificity(b, c) ==> HasHigherSpecificity(a, c)
  {
  }

  /** Being beaten by `b` and not beating `c` puts `c` above `a` as well (a strict weak order). */
  lemma SpecificityNotBelowThenAbove(a: string, b: string, c: string)
    ensures !HasHigherSpecificity(b, a) && HasHigherSpecificity(b, c) ==> HasHigherSpecificity(a, c)
    ensures HasHigherSpecificity(a, b) && !HasHigherSpecificity(c, b) ==> HasHigherSpecificity(a, c)
  {
  }

  /** `key.split('*')` has exactly two pieces. */
  predicate IsSingleStar(key: string)
  {
    var i := IndexOf(key, STAR);
    i >= 0 && STAR !in key[i + 1..]
  }

  function Prefix(key: string): string
    requires IsSingleStar(key)
  {
    key[..IndexOf(key, STAR)]
  }

  function Suffix(key: string): string
    requires IsSingleStar(key)
  {
    key[IndexOf(key, STAR) + 1..]
  }

  lemma PatternKeyShape(key: string)
    requires IsSingleStar(key)
    ensures key == Prefix(key) + [STAR] + Suffix(key)
    ensures |Prefix(key)| == IndexOf(key, STAR)
  {
  }

  /**
   * The capture of pattern key `key` on `request`, if the key matches: the
   * request must start with the prefix and end with the suffix, and the slice
   * between them (`request.slice(prefix.length, -suffix.length || undefined)`)
   * must be non-empty.
   */
  function PatternCapture(key: string, request: string): (r: Option<string>)
    ensures r.Some? ==> IsSingleStar(key) && r.value != "" && |request| == |Prefix(key)| + |r.value| + |Suffix(key)|
  {
    if !IsSingleStar(key) then None
    else
      var prefix, suffix := Prefix(key), Suffix(key);
      if !(StartsWith(request, prefix) && EndsWith(request, suffix)) then None
      else
        var end := if |suffix| == 0 then |request| else |request| - |suffix|;
        var capture := if |prefix| <= end then request[|prefix|..end] else "";
        if capture == "" then None else Some(capture)
  }

  predicate Matches(key: string, request: string)
  {
    PatternCapture(key, request).Some?
  }

  /** A pattern key matches exactly when the request is prefix + non-empty capture + suffix. */
  lemma PatternCaptureSpec(key: string, request: string, capture: string)
    ensures PatternCapture(key, request) == Some(capture) <==>
      IsSingleStar(key) && capture != "" && request == Prefix(key) + capture + Suffix(key)
  {
    if IsSingleStar(key) && capture != "" && request == Prefix(key) + capture + Suffix(key) {
      var prefix, suffix := Prefix(key), Suffix(key);
      assert request[..|prefix|] == prefix;
      assert request[|request| - |suffix|..] == suffix;
      assert request[|prefix|..|request| - |suffix|] == capture;
    }
    if PatternCapture(key, request) == Some(capture) {
      var prefix, suffix := Prefix(key), Suffix(key);
      var end := |request| - |suffix|;
      assert request == request[..|prefix|] + request[|prefix|..end] + request[end..];
    }
  }

  /** A pattern can only match a request strictly longer than its literal parts. */
  lemma MatchNeedsLongerRequest(key: string, request: string)
    requires IsSingleStar(key)
    ensures Matches(key, request) ==> |Prefix(key)| + |Suffix(key)| < |request|
  {
    if Matches(key, request) {
      PatternCaptureSpec(key, request, PatternCapture(key, request).value);
    }
  }

  /** A key holding two or more stars never matches. */
  lemma MultiStarNeverMatches(key: string, request: string, i: nat, j: nat)
    requires i < j < |key| && key[i] == STAR && key[j] == STAR
    ensures !Matches(key, request)
  {
    var k := IndexOf(key, STAR);
    assert k <= i;
    assert key[k + 1..][j - k - 1] == STAR;
  }

  /** Two distinct pattern keys that match the same request never tie on specificity. */
  lemma TiedMatchesAreEqual(a: string, b: string, request: string)
    requires Matches(a, request) && Matches(b, request)
    requires !HasHigherSpecificity(a, b) && !HasHigherSpecificity(b, a)
    ensures a == b
  {
    PatternCaptureSpec(a, request, PatternCapture(a, request).value);
    PatternCaptureSpec(b, request, PatternCapture(b, request).value);
    PatternKeyShape(a);
    PatternKeyShape(b);
    assert Prefix(a) == request[..|Prefix(a)|];
    assert Prefix(b) == request[..|Prefix(b)|];
    assert Suffix(a) == request[|request| - |Suffix(a)|..];
    assert Suffix(b) == request[|request| - |Suffix(b)|..];
  }

  /** One iteration of the scan: a matching key replaces the best so far when it is more specific. */
  function Step(best: Option<(string, string)>, key: string, request: string): (r: Option<(string, string)>)
    ensures r != best ==> r.Some? && r.value.0 == key && PatternCapture(key, request) == Some(r.value.1)
    ensures r != best && best.Some? ==> HasHigherSpecificity(best.value.0, key)
  {
    if STAR !in key then best
    else
      match PatternCapture(key, request)
      case None => best
      case Some(capture) =>
        if best.None? || HasHigherSpecificity(best.value.0, key) then Some((key, capture)) else best
  }

  /** The running best (key, capture) after scanning `keys` in order. */
  function Scan(keys: seq<string>, request: string): (r: Option<(string, string)>)
    ensures r.Some? ==> r.value.0 in keys && PatternCapture(r.value.0, request) == Some(r.value.1)
    decreases |keys|
  {
    if keys == [] then None
    else Step(Scan(keys[..|keys| - 1], request), keys[|keys| - 1], request)
  }

  /**
   * `keys[i]` is the key the scan settles on: it matches, every matching key
   * before it is strictly less specific, and no matching key after it is
   * more specific.
   */
  predicate IsBest(keys: seq<string>, request: string, i: int)
  {
    0 <= i < |keys| && Matches(keys[i], request)
    && (forall j | 0 <= j < i && Matches(keys[j], request) :: HasHigherSpecificity(keys[j], keys[i]))
    && (forall j | i < j < |keys| && Matches(keys[j], request) :: !HasHigherSpecificity(keys[i], keys[j]))
  }

  /** No matching key is more specific than `key`. */
  predicate IsMaximal(keys: seq<string>, request: string, key: string)
  {
    forall j | 0 <= j < |keys| && Matches(keys[j], request) :: !HasHigherSpecificity(key, keys[j])
  }

  lemma BestIsMaximal(keys: seq<string>, request: string, i: int)
    requires IsBest(keys, request, i)
    ensures IsMaximal(keys, request, keys[i])
  {
    forall j | 0 <= j < |keys| && Matches(keys[j], request)
      ensures !HasHigherSpecificity(keys[i], keys[j])
    {
      SpecificityIsStrictOrder(keys[j], keys[i], keys[i]);
    }
  }

  /** Keys after a prefix: IsBest on the prefix survives a key that does not beat the best. */
  lemma BestSurvives(keys: seq<string>, request: string, i: int)
    requires |keys| > 0 && IsBest(keys[..|keys| - 1], request, i)
    requires Matches(keys[|keys| - 1], request) ==> !HasHigherSpecificity(keys[i], keys[|keys| - 1])
    ensures IsBest(keys, request, i)
  {
    var n := |keys| - 1;
    assert forall j | 0 <= j < n :: keys[..n][j] == keys[j];
  }

  /** A matching key that beats the best so far becomes the best. */
  lemma BestReplaced(keys: seq<string>, request: string, i: int)
    requires |keys| > 0 && IsBest(keys[..|keys| - 1], request, i)
    requires Matches(keys[|keys| - 1], request) && HasHigherSpecificity(keys[i], keys[|keys| - 1])
    ensures IsBest(keys, request, |keys| - 1)
  {
    var n := |keys| - 1;
    assert forall j | 0 <= j < n :: keys[..n][j] == keys[j];
    forall j | 0 <= j < n && Matches(keys[j], request)
      ensures HasHigherSpecificity(keys[j], keys[n])
    {
      if j < i {
        SpecificityIsStrictOrder(keys[j], keys[i], keys[n]);
      } else if j > i {
        SpecificityNotBelowThenAbove(keys[j], keys[i], keys[n]);
      }
    }
  }

  /** The first matching key is the best so far. */
  lemma FirstMatchIsBest(keys: seq<string>, request: string)
    requires |keys| > 0 && Matches(keys[|keys| - 1], request)
    requires forall j | 0 <= j < |keys| - 1 :: !Matches(keys[j], request)
    ensures IsBest(keys, request, |keys| - 1)
  {
    var n := |keys| - 1;
    assert forall j | 0 <= j < n :: keys[..n][j] == keys[j];
  }

  /** What the scan returns: nothing iff no key matches, otherwise the first most specific match and its capture. */
  lemma {:induction false} ScanSpec(keys: seq<string>, request: string)
    ensures Scan(keys, request).None? <==> forall j | 0 <= j < |keys| :: !Matches(keys[j], request)
    ensures Scan(keys, request).Some? ==>
      exists i :: IsBest(keys, request, i) && keys[i] == Scan(keys, request).value.0
        && PatternCapture(keys[i], request) == Some(Scan(keys, request).value.1)
    decreases |keys|
  {
    if keys != [] {
      var n := |keys| - 1;
      var front, key := keys[..n], keys[n];
      ScanSpec(front, request);
      var best := Scan(front, request);
      assert Scan(keys, request) == Step(best, key, request);
      if best.None? {
        assert forall j | 0 <= j < n :: keys[j] == front[j];
        if Matches(key, request) {
          FirstMatchIsBest(keys, request);
        }
      } else {
        var i :| IsBest(front, request, i) && front[i] == best.value.0
          && PatternCapture(front[i], request) == Some(best.value.1);
        assert keys[i] == front[i];
        if Matches(key, request) && HasHigherSpecificity(best.value.0, key) {
          BestReplaced(keys, request, i);
        } else {
          BestSurvives(keys, request, i);
        }
      }
    }
  }

  /** A key present in both sequences, matched in one, is matched in the other. */
  lemma MaximalAcross(keys1: seq<string>, keys2: seq<string>, request: string, i1: int, i2: int)
    requires forall k :: k in keys1 <==> k in keys2
    requires IsBest(keys1, request, i1) && IsBest(keys2, request, i2)
    ensures keys1[i1] == keys2[i2]
  {
    BestIsMaximal(keys1, request, i1);
    BestIsMaximal(keys2, request, i2);
    assert keys2[i2] in keys1;
    assert keys1[i1] in keys2;
    var j1 :| 0 <= j1 < |keys1| && keys1[j1] == keys2[i2];
    var j2 :| 0 <= j2 < |keys2| && keys2[j2] == keys1[i1];
    assert !HasHigherSpecificity(keys1[i1], keys1[j1]);
    assert !HasHigherSpecificity(keys2[i2], keys2[j2]);
    TiedMatchesAreEqual(keys1[i1], keys2[i2], request);
  }

  /** Sequences holding the same keys have a matching key alike. */
  lemma SomeMatchAcross(keys1: seq<string>, keys2: seq<string>, request: string)
    requires forall k :: k in keys1 <==> k in keys2
    ensures (exists j :: 0 <= j < |keys1| && Matches(keys1[j], request))
        <==> (exists j :: 0 <= j < |keys2| && Matches(keys2[j], request))
  {
    if j1 :| 0 <= j1 < |keys1| && Matches(keys1[j1], request) {
      assert keys1[j1] in keys2;
      var j2 :| 0 <= j2 < |keys2| && keys2[j2] == keys1[j1];
      assert Matches(keys2[j2], request);
    }
    if j2 :| 0 <= j2 < |keys2| && Matches(keys2[j2], request) {
      assert keys2[j2] in keys1;
      var j1 :| 0 <= j1 < |keys1| && keys1[j1] == keys2[j2];
      assert Matches(keys1[j1], request);
    }
  }

  /** The scan's result does not depend on the order of the keys, only on which keys there are. */
  lemma ScanIgnoresKeyOrder(keys1: seq<string>, keys2: seq<string>, request: string)
    requires forall k :: k in keys1 <==> k in keys2
    ensures Scan(keys1, request) == Scan(keys2, request)
  {
    ScanSpec(keys1, request);
    ScanSpec(keys2, request);
    SomeMatchAcross(keys1, keys2, request);
    var r1, r2 := Scan(keys1, request), Scan(keys2, request);
    assert r1.None? <==> r2.None?;
    if r1.Some? {
      var i1 :| IsBest(keys1, request, i1) && keys1[i1] == r1.value.0
        && PatternCapture(keys1[i1], request) == Some(r1.value.1);
      var i2 :| IsBest(keys2, request, i2) && keys2[i2] == r2.value.0
        && PatternCapture(keys2[i2], request) == Some(r2.value.1);
      MaximalAcross(keys1, keys2, request, i1, i2);
    }
  }

  /**
   * The matcher as a function of the map's keys: an exact key wins when the
   * request holds no star; otherwise the scan over all pattern keys decides.
   */
  function MatchPath(entries: Entries, request: string): (m: PathMatch)
    ensures m.Exact? ==> m.key == request && m.key in Keys(entries)
    ensures m.Pattern? ==> m.key in Keys(entries) && PatternCapture(m.key, request) == Some(m.capture)
  {
    if STAR !in request && request in Keys(entries) then Exact(request)
    else
      match Scan(Keys(entries), request)
      case None => NoMatch
      case Some((key, capture)) => Pattern(key, capture)
  }

  /** What the matcher promises its callers. */
  lemma MatchPathSpec(entries: Entries, request: string)
    ensures MatchPath(entries, request).Exact? <==> STAR !in request && request in Keys(entries)
    ensures MatchPath(entries, request).Exact? ==> MatchPath(entries, request).key == request
    ensures MatchPath(entries, request).NoMatch? <==>
      !(STAR !in request && request in Keys(entries))
      && forall j | 0 <= j < |entries| :: !Matches(entries[j].0, request)
    ensures MatchPath(entries, request).Pattern? ==>
      var key, capture := MatchPath(entries, request).key, MatchPath(entries, request).capture;
      key in Keys(entries) && IsSingleStar(key) && capture != ""
      && request == Prefix(key) + capture + Suffix(key)
      && IsMaximal(Keys(entries), request, key)
  {
    var keys := Keys(entries);
    ScanSpec(keys, request);
    var m := MatchPath(entries, request);
    if m.Pattern? {
      var i :| IsBest(keys, request, i) && keys[i] == m.key && PatternCapture(keys[i], request) == Some(m.capture);
      PatternCaptureSpec(m.key, request, m.capture);
      BestIsMaximal(keys, request, i);
    }
  }

  /** With no exact key and no matching pattern, nothing is found. */
  lemma NothingMatches(entries: Entries, request: string)
    requires STAR in request || request !in Keys(entries)
    requires forall j | 0 <= j < |entries| :: !Matches(entries[j].0, request)
    ensures MatchPath(entries, request) == NoMatch
  {
    var keys := Keys(entries);
    assert forall j | 0 <= j < |keys| :: !Matches(keys[j], request);
    ScanSpec(keys, request);
  }

  /** The map's entry order never changes what the matcher finds. */
  lemma MatchPathIgnoresEntryOrder(entries1: Entries, entries2: Entries, request: string)
    requires forall k :: k in Keys(entries1) <==> k in Keys(entries2)
    ensures MatchPath(entries1, request) == MatchPath(entries2, request)
  {
    ScanIgnoresKeyOrder(Keys(entries1), Keys(entries2), request);
  }

  /** The value of the matched key (`map[pathMatch]`); no match reads as absent. */
  function MatchedValue(entries: Entries, m: PathMatch): (v: PathConditions)
    ensures m.NoMatch? ==> v == Null
    ensures v != Null ==> (m.key, v) in entries
  {
    match m
    case NoMatch => Null
    case Exact(key) => Lookup(entries, key)
    case Pattern(key, _) => Lookup(entries, key)
  }

  /** No exact key applies, and key `i` matches and is more specific than every other matching key. */
  predicate MostSpecificMatch(entries: Entries, request: string, i: nat)
  {
    (STAR in request || request !in Keys(entries))
    && i < |entries| && Matches(entries[i].0, request)
    && forall j | 0 <= j < |entries| && j != i && Matches(entries[j].0, request) ::
         HasHigherSpecificity(entries[j].0, entries[i].0)
  }

  /**
   * When no exact key applies, a matching pattern key more specific than
   * every other matching key is the one whose value is used, wherever it
   * stands in the map.
   */
  lemma MostSpecificPatternSelected(entries: Entries, request: string, i: nat)
    requires MostSpecificMatch(entries, request, i)
    ensures MatchPath(entries, request) == Pattern(entries[i].0, PatternCapture(entries[i].0, request).value)
    ensures MatchedValue(entries, MatchPath(entries, request)) == entries[i].1
  {
    var keys := Keys(entries);
    ScanSpec(keys, request);
    var b :| IsBest(keys, request, b) && keys[b] == Scan(keys, request).value.0
      && PatternCapture(keys[b], request) == Some(Scan(keys, request).value.1);
    BestIsMaximal(keys, request, b);
    assert b == i;
    forall j | 0 <= j < i
      ensures entries[j].0 != entries[i].0
    {
      SpecificityIsStrictOrder(entries[i].0, entries[i].0, entries[i].0);
    }
  }

  /** The capture handed on to condition resolution; an exact match has none. */
  function CaptureOf(m: PathMatch): Option<string>
  {
    match m
    case Pattern(_, capture) => Some(capture)
    case _ => None
  }

  /** Scanning one more key is one more step. */
  lemma ScanExtend(keys: seq<string>, request: string, i: nat)
    requires i < |keys|
    ensures Scan(keys[..i + 1], request) == Step(Scan(keys[..i], request), keys[i], request)
  {
    assert keys[..i + 1][..i] == keys[..i];
  }

  /**
   * `findMatchingPath`: the exact-key check, then one pass over the keys
   * keeping the running best pattern match.
   */
  method FindMatchingPath(entries: Entries, request: string) returns (m: PathMatch)
    ensures m == MatchPath(entries, request)
  {
    var keys := Keys(entries);
    if STAR !in request && request in keys {
      return Exact(request);
    }
    var pathMatch: Option<string> := None;
    var starMatch: string := "";
    for i := 0 to |entries|
      invariant pathMatch.None? <==> Scan(keys[..i], request).None?
      invariant pathMatch.Some? ==> Scan(keys[..i], request) == Some((pathMatch.value, starMatch))
    {
      var exportPath := entries[i].0;
      ScanExtend(keys, request, i);
      if STAR in exportPath {
        var currentStarMatch := PatternCapture(exportPath, request);
        if currentStarMatch.Some?
          && (pathMatch.None? || HasHigherSpecificity(pathMatch.value, exportPath))
        {
          pathMatch := Some(exportPath);
          starMatch := currentStarMatch.value;
        }
      }
    }
    assert keys[..|entries|] == keys;
    m := if pathMatch.None? then NoMatch else Pattern(pathMatch.value, starMatch);
  }
}
