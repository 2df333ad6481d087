/**
 * `resolveImports`: resolves a `#`-specifier against a package's "imports"
 * field.  The request is matched as given, and targets may be bare package
 * names: there is no relative-path check.
 */
module ImportsResolver {
  import opened PackageTypes
  import opened Text
  import opened PathMatcher
  import opened Conditions

  /** `resolveImports`; a missing "imports" field is None. */
  function ResolveImports(imports: Option<Entries>, request: string, conditions: seq<string>)
    : (r: Result<seq<string>>)
    ensures imports.None? <==> r == Err(Required(Imports))
    ensures r.Ok? ==> |r.value| > 0
    ensures r.Err? ==> r.error == Required(Imports) || r.error == ImportNotDefined(request)
                       || ResolutionFailure(r.error, Imports)
  {
    match imports
    case None => Err(Required(Imports))
    case Some(entries) =>
      var m := MatchPath(entries, request);
      match Resolve(Imports, MatchedValue(entries, m), conditions, CaptureOf(m))
      case Err(f) => Err(f)
      case Ok(resolved) =>
        if |resolved| == 0 then Err(ImportNotDefined(request)) else Ok(resolved)
  }

  /** Success is exactly a non-empty resolution of the matched value; an empty one is "not defined". */
  lemma ImportsResultIsResolution(entries: Entries, request: string, conditions: seq<string>)
    ensures var m := MatchPath(entries, request);
            var resolved := Resolve(Imports, MatchedValue(entries, m), conditions, CaptureOf(m));
            ResolveImports(Some(entries), request, conditions)
              == if resolved == Ok([]) then Err(ImportNotDefined(request)) else resolved
  {
  }

  /** A request that no key matches is not defined. */
  lemma UnmatchedImportNotDefined(entries: Entries, request: string, conditions: seq<string>)
    requires STAR in request || request !in Keys(entries)
    requires forall j | 0 <= j < |entries| :: !Matches(entries[j].0, request)
    ensures ResolveImports(Some(entries), request, conditions) == Err(ImportNotDefined(request))
  {
    NothingMatches(entries, request);
    NullResolvesEmpty(Imports, conditions, None);
  }

  /** An exact key whose value is a valid literal resolves to that literal, bare package names included. */
  lemma BareSpecifierAllowed(entries: Entries, request: string, target: string, conditions: seq<string>)
    requires STAR !in request && request in Keys(entries) && Lookup(entries, request) == Target(target)
    requires !InvalidLiteral(target)
    ensures ResolveImports(Some(entries), request, conditions) == Ok([target])
  {
  }

  /** A one-key map from a star-free request to a bare single-segment name resolves to that name. */
  lemma SingleBareEntry(request: string, target: string, conditions: seq<string>)
    requires STAR !in request && NoSeparator(target) && target != ".."
    ensures ResolveImports(Some([(request, Target(target))]), request, conditions) == Ok([target])
  {
    var entries := [(request, Target(target))];
    assert Keys(entries) == [request];
    SplitSingle(target);
    BareSpecifierAllowed(entries, request, target, conditions);
  }

  /** The request `#entry` mapped to `dependency` resolves to the bare name. */
  lemma DependencyTarget()
    ensures ResolveImports(Some([("#entry", Target("dependency"))]), "#entry", []) == Ok(["dependency"])
  {
    assert STAR !in "#entry";
    assert NoSeparator("dependency");
    SingleBareEntry("#entry", "dependency", []);
  }

  /** A more specific null pattern blocks the requests it matches, whatever less specific keys say. */
  lemma MoreSpecificNullBlocks(entries: Entries, request: string, conditions: seq<string>, i: nat)
    requires MostSpecificMatch(entries, request, i) && entries[i].1 == Null
    ensures ResolveImports(Some(entries), request, conditions) == Err(ImportNotDefined(request))
  {
    MostSpecificPatternSelected(entries, request, i);
  }

  /**
   * `imports[pathMatch as string]` as JavaScript evaluates it: when nothing
   * matched, `pathMatch` is undefined and the lookup reads the key "undefined".
   */
  function MatchedValueAsWritten(entries: Entries, m: PathMatch): (v: PathConditions)
    ensures m.NoMatch? && "undefined" !in Keys(entries) ==> v == Null
    ensures v != Null ==> ((if m.NoMatch? then "undefined" else m.key), v) in entries
  {
    match m
    case NoMatch => Lookup(entries, "undefined")
    case Exact(key) => Lookup(entries, key)
    case Pattern(key, _) => Lookup(entries, key)
  }

  /** A map whose one key has no star matches no other request, which is therefore not defined. */
  lemma StarlessKeyMisses(key: string, request: string, target: string, conditions: seq<string>)
    requires STAR !in key && key != request
    ensures MatchPath([(key, Target(target))], request) == NoMatch
    ensures ResolveImports(Some([(key, Target(target))]), request, conditions) == Err(ImportNotDefined(request))
  {
    var entries := [(key, Target(target))];
    assert Keys(entries) == [key];
    assert forall j | 0 <= j < |entries| :: !Matches(entries[j].0, request);
    UnmatchedImportNotDefined(entries, request, conditions);
    NothingMatches(entries, request);
  }

  /**
   * With a key named "undefined", the as-written lookup resolves every
   * unmatched request to that key's value; the model reports it as not defined.
   */
  lemma UndefinedKeyCatchesMisses(request: string, target: string, conditions: seq<string>)
    requires request != "undefined" && !InvalidLiteral(target)
    ensures MatchPath([("undefined", Target(target))], request) == NoMatch
    ensures Resolve(Imports, MatchedValueAsWritten([("undefined", Target(target))], NoMatch), conditions, None)
         == Ok([target])
    ensures ResolveImports(Some([("undefined", Target(target))]), request, conditions)
         == Err(ImportNotDefined(request))
  {
    assert STAR !in "undefined";
    StarlessKeyMisses("undefined", request, target, conditions);
    assert MatchedValueAsWritten([("undefined", Target(target))], NoMatch) == Target(target);
    LiteralStarKept(Imports, target, conditions);
  }
}
