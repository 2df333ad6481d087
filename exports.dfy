/**
 * `resolveExports`: resolves a subpath request against a package's "exports"
 * field, after desugaring the shorthand forms to a `{".": …}` map, and
 * accepts only results that are `./`-relative or protocol-qualified.
 */
module ExportsResolver {
  import opened PackageTypes
  import opened Text
  import opened PathMatcher
  import opened Conditions

  /** `''` names the package root `.`; any other request is taken relative to it. */
  function NormalizeRequest(request: string): (r: string)
    ensures |r| >= 1 && r[0] == '.'
    ensures r == "." <==> request == ""
    ensures request != "" ==> StartsWith(r, "./") && r[2..] == request
  {
    if request == "" then "." else "./" + request
  }

  /** A key in condition style: empty, or not starting with `.`. */
  predicate IsConditionKey(key: string)
    ensures IsConditionKey(key) <==> !StartsWith(key, ".")
  {
    key == "" || key[0] != '.'
  }

  /** The `reduce` over the keys: every key must have the style of the first. */
  function KeyStyleFold(keys: seq<string>, firstKey: Option<bool>): (r: Result<Option<bool>>)
    ensures r.Err? ==> r.error == MixedKeys
    ensures r.Ok? && firstKey.Some? ==> r.value == firstKey
    ensures firstKey.Some? ==>
      (r.Ok? <==> forall i | 0 <= i < |keys| :: IsConditionKey(keys[i]) == firstKey.value)
  {
    if keys == [] then Ok(firstKey)
    else
      var isKeyConditionalSugar := IsConditionKey(keys[0]);
      if firstKey.None? || firstKey.value == isKeyConditionalSugar then
        KeyStyleFold(keys[1..], Some(isKeyConditionalSugar))
      else Err(MixedKeys)
  }

  /**
   * `isConditionalObject`: the common key style (none for an empty object),
   * or MixedKeys when some keys start with `.` and others do not.
   */
  function IsConditionalObject(keys: seq<string>): (r: Result<Option<bool>>)
    ensures r.Err? <==> exists i | 0 < i < |keys| :: IsConditionKey(keys[i]) != IsConditionKey(keys[0])
    ensures r.Err? ==> r.error == MixedKeys
    ensures r.Ok? ==> (r.value.None? <==> keys == [])
    ensures r.Ok? && r.value.Some? ==> forall i | 0 <= i < |keys| :: IsConditionKey(keys[i]) == r.value.value
  {
    assert keys != [] ==> forall i | 0 < i < |keys| :: keys[1..][i - 1] == keys[i];
    KeyStyleFold(keys, None)
  }

  /**
   * `/^\w+:/`: one or more word characters, then a colon.  Such a string
   * holds a colon and never starts with `./`.
   */
  predicate HasProtocolPattern(s: string)
    ensures HasProtocolPattern(s) ==> |s| >= 2 && ':' in s && IsWordChar(s[0]) && !StartsWith(s, "./")
  {
    exists n | 1 <= n < |s| :: s[n] == ':' && forall k | 0 <= k < n :: IsWordChar(s[k])
  }

  /**
   * What "exports" may resolve to: a `./` path or a protocol-qualified
   * specifier; never an absolute path.
   */
  predicate IsExportableTarget(s: string)
    ensures IsExportableTarget(s) ==> |s| >= 2
    ensures s != [] && IsSeparator(s[0]) ==> !IsExportableTarget(s)
  {
    StartsWith(s, "./") || HasProtocolPattern(s)
  }

  /** The post-check loop: the first resolved path that is not exportable, if any. */
  function FirstNotExportable(targets: seq<string>): (r: Option<string>)
    ensures r.None? <==> forall i | 0 <= i < |targets| :: IsExportableTarget(targets[i])
    ensures r.Some? ==> exists i | 0 <= i < |targets| :: targets[i] == r.value && !IsExportableTarget(r.value)
                          && forall j | 0 <= j < i :: IsExportableTarget(targets[j])
  {
    if targets == [] then None
    else if !IsExportableTarget(targets[0]) then Some(targets[0])
    else
      var r := FirstNotExportable(targets[1..]);
      assert forall i | 0 < i < |targets| :: targets[1..][i - 1] == targets[i];
      r
  }

  /**
   * The map the matcher works on: a string, an array or an object of
   * condition keys stands for `{".": exports}`; an object of `.` keys is used
   * as it is; a mixed object is an error.  A number or boolean has no keys.
   */
  function ExportsMap(exports: PathConditions): (r: Result<Entries>)
    requires !Falsy(exports)
    ensures r.Err? <==> exports.ConditionMap? && IsConditionalObject(Keys(exports.entries)).Err?
    ensures r.Err? ==> r.error == MixedKeys
  {
    match exports
    case Target(_) => Ok([(".", exports)])
    case Fallbacks(_) => Ok([(".", exports)])
    case ConditionMap(entries) =>
      (match IsConditionalObject(Keys(entries))
       case Err(f) => Err(f)
       case Ok(style) => if style == Some(true) then Ok([(".", exports)]) else Ok(entries))
    case _ => Ok([])
  }

  /** `resolveExports` */
  function ResolveExports(exports: PathConditions, request: string, conditions: seq<string>)
    : (r: Result<seq<string>>)
    ensures Falsy(exports) <==> r == Err(Required(Exports))
    ensures r.Ok? ==> |r.value| > 0 && forall i | 0 <= i < |r.value| :: IsExportableTarget(r.value[i])
    ensures r.Err? && r.error.PathNotExported? ==> r.error.request == NormalizeRequest(request)
    ensures r.Err? && r.error.InvalidTarget? ==> r.error.kind == Exports
  {
    if Falsy(exports) then Err(Required(Exports))
    else
      var normalized := NormalizeRequest(request);
      match ExportsMap(exports)
      case Err(f) => Err(f)
      case Ok(entries) =>
        var m := MatchPath(entries, normalized);
        match Resolve(Exports, MatchedValue(entries, m), conditions, CaptureOf(m))
        case Err(f) => Err(f)
        case Ok(resolved) =>
          if |resolved| == 0 then Err(PathNotExported(normalized))
          else
            match FirstNotExportable(resolved)
            case Some(target) => Err(InvalidTarget(Exports, target, true))
            case None => Ok(resolved)
  }

  /** On success the result is exactly the resolution of the matched value, in order. */
  lemma ExportsResultIsResolution(exports: PathConditions, request: string, conditions: seq<string>)
    requires ResolveExports(exports, request, conditions).Ok?
    ensures !Falsy(exports) && ExportsMap(exports).Ok?
    ensures var entries := ExportsMap(exports).value;
            var m := MatchPath(entries, NormalizeRequest(request));
            Resolve(Exports, MatchedValue(entries, m), conditions, CaptureOf(m))
              == ResolveExports(exports, request, conditions)
  {
  }

  /**
   * The converse: a non-empty resolution is returned as it is when every path
   * is `./…` or protocol-qualified, and otherwise fails naming the first path
   * that is neither.
   */
  lemma ResolutionIsChecked(exports: PathConditions, request: string, conditions: seq<string>, resolved: seq<string>)
    requires !Falsy(exports) && ExportsMap(exports).Ok?
    requires var entries := ExportsMap(exports).value;
             var m := MatchPath(entries, NormalizeRequest(request));
             Resolve(Exports, MatchedValue(entries, m), conditions, CaptureOf(m)) == Ok(resolved)
    requires |resolved| > 0
    ensures ResolveExports(exports, request, conditions)
         == match FirstNotExportable(resolved)
            case None => Ok(resolved)
            case Some(t) => Err(InvalidTarget(Exports, t, true))
  {
  }

  /** An error raised while resolving the matched value is the error `resolveExports` raises. */
  lemma ResolutionErrorPropagates(exports: PathConditions, request: string, conditions: seq<string>, f: Failure)
    requires !Falsy(exports) && ExportsMap(exports).Ok?
    requires var entries := ExportsMap(exports).value;
             var m := MatchPath(entries, NormalizeRequest(request));
             Resolve(Exports, MatchedValue(entries, m), conditions, CaptureOf(m)) == Err(f)
    ensures ResolveExports(exports, request, conditions) == Err(f)
  {
  }

  /** A number or boolean under `.`, as in `{".": 1}`, makes the main entry an invalid target. */
  lemma ScalarMainRejected(text: string, conditions: seq<string>)
    ensures ResolveExports(ConditionMap([(".", Scalar(text))]), "", conditions)
         == Err(InvalidTarget(Exports, text, false))
  {
    var entries := [(".", Scalar(text))];
    assert Keys(entries) == ["."];
    assert IsConditionalObject(Keys(entries)) == Ok(Some(false));
    assert MatchPath(entries, NormalizeRequest("")) == Exact(".");
    ResolutionErrorPropagates(ConditionMap(entries), "", conditions, InvalidTarget(Exports, text, false));
  }

  /** An all-digit condition key, as in `{"0": "./index.js"}`, is a configuration error. */
  lemma NumericConditionKeyRejected(key: string, target: string, conditions: seq<string>)
    requires IsInteger(key)
    ensures ResolveExports(ConditionMap([(key, Target(target))]), "", conditions) == Err(NumericKey)
  {
    var exports := ConditionMap([(key, Target(target))]);
    assert Keys(exports.entries) == [key];
    assert IsConditionKey(key);
    assert IsConditionalObject(Keys(exports.entries)) == Ok(Some(true));
    var entries := [(".", exports)];
    assert ExportsMap(exports) == Ok(entries);
    assert Keys(entries) == ["."];
    assert MatchPath(entries, NormalizeRequest("")) == Exact(".");
    ResolutionErrorPropagates(exports, "", conditions, NumericKey);
  }

  /** An empty resolution means the subpath is not exported. */
  lemma EmptyResolutionNotExported(exports: PathConditions, request: string, conditions: seq<string>)
    requires !Falsy(exports) && ExportsMap(exports).Ok?
    requires var entries := ExportsMap(exports).value;
             var m := MatchPath(entries, NormalizeRequest(request));
             Resolve(Exports, MatchedValue(entries, m), conditions, CaptureOf(m)) == Ok([])
    ensures ResolveExports(exports, request, conditions) == Err(PathNotExported(NormalizeRequest(request)))
  {
  }

  /** The not-exported message names the main entry exactly when the request was the root. */
  lemma NotExportedMessage(request: string)
    ensures Message(PathNotExported(NormalizeRequest(request))) == "No \"exports\" main defined" <==> request == ""
  {
    var normalized := NormalizeRequest(request);
    if request != "" {
      var subpath := "Package subpath '" + normalized + "' is not defined by \"exports\"";
      assert subpath[0] == 'P';
      assert "No \"exports\" main defined"[0] == 'N';
    }
  }

  /** An object mixing `.` keys and condition keys is rejected, and nothing else is. */
  lemma MixedKeysRejected(entries: Entries, request: string, conditions: seq<string>)
    ensures ResolveExports(ConditionMap(entries), request, conditions) == Err(MixedKeys) <==>
      exists i | 0 < i < |entries| :: IsConditionKey(entries[i].0) != IsConditionKey(entries[0].0)
  {
    var keys := Keys(entries);
    assert forall i | 0 <= i < |entries| :: keys[i] == entries[i].0;
  }

  /** A string, an array or an object of condition keys resolves as `{".": exports}` would. */
  lemma ExportsSugar(exports: PathConditions, request: string, conditions: seq<string>)
    requires !Falsy(exports)
    requires exports.Target? || exports.Fallbacks? ||
             (exports.ConditionMap? && exports.entries != [] &&
              forall i | 0 <= i < |exports.entries| :: IsConditionKey(exports.entries[i].0))
    ensures ResolveExports(exports, request, conditions)
         == ResolveExports(ConditionMap([(".", exports)]), request, conditions)
  {
    assert Keys([(".", exports)]) == ["."];
    assert !IsConditionKey(".");
    if exports.ConditionMap? {
      var keys := Keys(exports.entries);
      assert forall i | 0 <= i < |keys| :: IsConditionKey(keys[i]);
      assert IsConditionalObject(keys) == Ok(Some(true));
    }
  }

  /** A map whose only key is `.` exports nothing but the root: every other request, `.` included, is not exported. */
  lemma RootOnlyMap(exports: PathConditions, request: string, conditions: seq<string>)
    requires !Falsy(exports) && ExportsMap(exports).Ok? && Keys(ExportsMap(exports).value) == ["."]
    requires request != ""
    ensures ResolveExports(exports, request, conditions) == Err(PathNotExported("./" + request))
  {
    var entries := ExportsMap(exports).value;
    var normalized := NormalizeRequest(request);
    assert normalized != ".";
    assert forall j | 0 <= j < |entries| :: !Matches(entries[j].0, normalized) by {
      forall j | 0 <= j < |entries| ensures !Matches(entries[j].0, normalized) {
        assert entries[j].0 == Keys(entries)[j] == ".";
        assert IndexOf(".", STAR) == -1;
      }
    }
    MatchPathSpec(entries, normalized);
  }

  /** A pattern key with a null value blocks the requests it matches best, whatever less specific keys say. */
  lemma MoreSpecificNullBlocks(entries: Entries, request: string, conditions: seq<string>, i: nat)
    requires IsConditionalObject(Keys(entries)) == Ok(Some(false))
    requires MostSpecificMatch(entries, NormalizeRequest(request), i) && entries[i].1 == Null
    ensures ResolveExports(ConditionMap(entries), request, conditions) == Err(PathNotExported(NormalizeRequest(request)))
  {
    var normalized := NormalizeRequest(request);
    assert ExportsMap(ConditionMap(entries)) == Ok(entries);
    MostSpecificPatternSelected(entries, normalized, i);
    var m := MatchPath(entries, normalized);
    assert MatchedValue(entries, m) == Null;
    NullResolvesEmpty(Exports, conditions, CaptureOf(m));
    assert Resolve(Exports, MatchedValue(entries, m), conditions, CaptureOf(m)) == Ok([]);
    EmptyResolutionNotExported(ConditionMap(entries), request, conditions);
  }

  /**
   * A request naming a key exactly, whose value is a valid literal, resolves
   * to that literal when it is `./`-relative or protocol-qualified and is an
   * invalid "exports" target otherwise.
   */
  lemma ExactTargetChecked(entries: Entries, request: string, target: string, conditions: seq<string>)
    requires IsConditionalObject(Keys(entries)) == Ok(Some(false))
    requires STAR !in NormalizeRequest(request) && NormalizeRequest(request) in Keys(entries)
    requires Lookup(entries, NormalizeRequest(request)) == Target(target) && !InvalidLiteral(target)
    ensures ResolveExports(ConditionMap(entries), request, conditions)
         == if IsExportableTarget(target) then Ok([target]) else Err(InvalidTarget(Exports, target, true))
  {
    var normalized := NormalizeRequest(request);
    assert ExportsMap(ConditionMap(entries)) == Ok(entries);
    var m := MatchPath(entries, normalized);
    assert m == Exact(normalized);
    assert MatchedValue(entries, m) == Target(target) && CaptureOf(m) == None;
    LiteralStarKept(Exports, target, conditions);
    ResolutionIsChecked(ConditionMap(entries), request, conditions, [target]);
    assert FirstNotExportable([target]) == if IsExportableTarget(target) then None else Some(target);
  }

  /**
   * A bare single-segment target such as `entry`, neither `./`-relative nor
   * protocol-qualified, is rejected by name even when its key names the
   * request exactly.
   */
  lemma BareTargetRejected(request: string, target: string, conditions: seq<string>)
    requires request != "" && STAR !in request
    requires NoSeparator(target) && target != ".." && ':' !in target
    ensures ResolveExports(ConditionMap([("./" + request, Target(target))]), request, conditions)
         == Err(InvalidTarget(Exports, target, true))
  {
    var key := "./" + request;
    var entries := [(key, Target(target))];
    assert Keys(entries) == [key];
    assert key[0] == '.';
    assert IsConditionalObject(Keys(entries)) == Ok(Some(false));
    assert NormalizeRequest(request) == key;
    assert STAR !in key by {
      assert forall k | 2 <= k < |key| :: key[k] == request[k - 2];
    }
    SplitSingle(target);
    assert !InvalidLiteral(target);
    assert !StartsWith(target, "./") by {
      if |target| >= 2 { assert !IsSeparator(target[1]); }
    }
    assert !HasProtocolPattern(target);
    ExactTargetChecked(entries, request, target, conditions);
  }

  /** A target that fails validation is an invalid "exports" target, even under an exact key. */
  lemma InvalidLiteralRejected(request: string, target: string, conditions: seq<string>)
    requires request != "" && STAR !in request && InvalidLiteral(target)
    ensures ResolveExports(ConditionMap([("./" + request, Target(target))]), request, conditions)
         == Err(InvalidTarget(Exports, target, true))
  {
    var key := "./" + request;
    var entries := [(key, Target(target))];
    assert Keys(entries) == [key];
    assert key[0] == '.';
    assert IsConditionalObject(Keys(entries)) == Ok(Some(false));
    assert NormalizeRequest(request) == key;
    assert STAR !in key by {
      assert forall k | 2 <= k < |key| :: key[k] == request[k - 2];
    }
    assert MatchPath(entries, key) == Exact(key);
  }

  /**
   * A `.` segment inside a target, as in `{"./entry": "./lib/./entry.js"}`
   * for the request `entry`, makes it an invalid "exports" target.
   */
  lemma DotSegmentTargetRejected(request: string, head: string, tail: string, conditions: seq<string>)
    requires request != "" && STAR !in request
    ensures ResolveExports(ConditionMap([("./" + request, Target(head + "/./" + tail))]), request, conditions)
         == Err(InvalidTarget(Exports, head + "/./" + tail, true))
  {
    var target := head + "/./" + tail;
    assert target == head + "/" + "." + ("/" + tail);
    InnerSegmentRejected(head, ".", "/" + tail);
    InvalidLiteralRejected(request, target, conditions);
  }
}
