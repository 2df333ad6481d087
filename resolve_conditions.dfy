/**
 * The condition resolver: expands a path-conditions value into the ordered
 * list of literal targets it stands for, under a set of active conditions
 * and an optional `*` capture.
 */
module Conditions {
  import opened PackageTypes
  import opened Text

  /** `/^(\.{1,2}|node_modules)$/i`: `node_modules` matches letter by letter in either case. */
  predicate DisallowedSegment(segment: string)
    ensures DisallowedSegment(segment) <==>
      (segment == "." || segment == ".." ||
       (|segment| == 12 && forall k | 0 <= k < 12 :: LowerAscii(segment[k]) == "node_modules"[k]))
  {
    segment == "." || segment == ".." || Lower(segment) == "node_modules"
  }

  /**
   * A literal target is refused when its first segment is `..` or any later
   * segment is `.`, `..` or `node_modules` in any case.
   */
  predicate InvalidLiteral(target: string)
  {
    var segments := Split(target);
    segments[0] == ".." || exists i | 1 <= i < |segments| :: DisallowedSegment(segments[i])
  }

  /** Validation, stated on a target written as `/`-joined segments: both directions. */
  lemma InvalidLiteralBySegments(segments: seq<string>)
    requires |segments| >= 1
    requires forall i | 0 <= i < |segments| :: NoSeparator(segments[i])
    ensures InvalidLiteral(Join(segments)) <==>
      segments[0] == ".." || exists i | 1 <= i < |segments| :: DisallowedSegment(segments[i])
  {
    SplitJoin(segments);
  }

  /** A target whose first segment is `..` is refused, whatever follows. */
  lemma LeadingParentRejected(rest: string)
    ensures InvalidLiteral("..")
    ensures InvalidLiteral("../" + rest)
  {
    SplitSingle("..");
    assert "../" + rest == ".." + ['/'] + rest;
    SplitAtSeparator("..", '/', rest);
  }

  /** A `.`, `..` or `node_modules` segment after the first one is refused, wherever it sits. */
  lemma InnerSegmentRejected(head: string, segment: string, tail: string)
    requires NoSeparator(segment) && DisallowedSegment(segment)
    requires tail == [] || IsSeparator(tail[0])
    ensures InvalidLiteral(head + "/" + segment + tail)
  {
    SplitSingle(segment);
    var rest := segment + tail;
    assert head + "/" + segment + tail == head + ['/'] + rest;
    SplitAtSeparator(head, '/', rest);
    if tail != [] {
      assert rest == segment + [tail[0]] + tail[1..];
      SplitAtSeparator(segment, tail[0], tail[1..]);
    } else {
      assert rest == segment;
    }
    assert Split(rest)[0] == segment;
    var all := Split(head) + Split(rest);
    assert all[|Split(head)|] == segment;
  }

  // `target.replace(/\*/g, capture)`, read as literal substitution of every `*`.
  function ReplaceStars(target: string, capture: string): string
  {
    if target == [] then []
    else (if target[0] == '*' then capture else [target[0]]) + ReplaceStars(target[1..], capture)
  }

  /** Substitution distributes over concatenation. */
  lemma {:induction false} ReplaceStarsAppend(a: string, b: string, capture: string)
    ensures ReplaceStars(a + b, capture) == ReplaceStars(a, capture) + ReplaceStars(b, capture)
    decreases |a|
  {
    if a == [] {
      assert a + b == b;
    } else {
      assert (a + b)[0] == a[0];
      assert (a + b)[1..] == a[1..] + b;
      ReplaceStarsAppend(a[1..], b, capture);
      var piece := if a[0] == '*' then capture else [a[0]];
      assert ReplaceStars(a + b, capture) == piece + (ReplaceStars(a[1..], capture) + ReplaceStars(b, capture));
      assert ReplaceStars(a, capture) == piece + ReplaceStars(a[1..], capture);
      assert piece + (ReplaceStars(a[1..], capture) + ReplaceStars(b, capture))
          == (piece + ReplaceStars(a[1..], capture)) + ReplaceStars(b, capture);
    }
  }

  /** Every `*` becomes the capture and every other character is kept, so no `*` survives unless the capture has one. */
  lemma {:induction false} ReplaceStarsSpec(target: string, capture: string)
    ensures '*' !in target ==> ReplaceStars(target, capture) == target
    ensures '*' !in capture ==> '*' !in ReplaceStars(target, capture)
    decreases |target|
  {
    if target != [] {
      ReplaceStarsSpec(target[1..], capture);
      assert target == [target[0]] + target[1..];
    }
  }

  lemma ReplaceStarsAroundStar(prefix: string, suffix: string, capture: string)
    requires '*' !in prefix && '*' !in suffix
    ensures ReplaceStars(prefix + "*" + suffix, capture) == prefix + capture + suffix
  {
    ReplaceStarsAppend(prefix + "*", suffix, capture);
    ReplaceStarsAppend(prefix, "*", capture);
    ReplaceStarsSpec(prefix, capture);
    ReplaceStarsSpec(suffix, capture);
  }

  // `target.replace(/\*/g, capture)` as JavaScript evaluates it: the
  // replacement is a template, so `$$`, `$&`, `` $` `` and `$'` in the capture
  // expand (to `$`, the matched `*`, the text before it and the text after it).
  function ReplaceStarsAsWritten(target: string, capture: string): string
  {
    ReplaceFrom(target, capture, 0)
  }

  function ReplaceFrom(target: string, capture: string, i: nat): string
    requires i <= |target|
    decreases |target| - i
  {
    if i == |target| then []
    else if target[i] == '*' then Expand(capture, target[..i], target[i + 1..]) + ReplaceFrom(target, capture, i + 1)
    else [target[i]] + ReplaceFrom(target, capture, i + 1)
  }

  /** The template expansion of a replacement string (`$n` and `$<` stay literal: the pattern has no groups). */
  function Expand(template: string, before: string, after: string): string
    decreases |template|
  {
    if template == [] then []
    else if template[0] == '$' && |template| >= 2 && template[1] in "$&`'" then
      (match template[1]
       case '$' => "$"
       case '&' => "*"
       case '`' => before
       case _ => after)
      + Expand(template[2..], before, after)
    else [template[0]] + Expand(template[1..], before, after)
  }

  lemma {:induction false} ExpandWithoutDollar(template: string, before: string, after: string)
    requires '$' !in template
    ensures Expand(template, before, after) == template
    decreases |template|
  {
    if template != [] {
      ExpandWithoutDollar(template[1..], before, after);
      assert template == [template[0]] + template[1..];
    }
  }

  /** Without a `$` in the capture, the as-written replacement is plain substitution. */
  lemma {:induction false} AsWrittenAgreesWithoutDollar(target: string, capture: string, i: nat)
    requires i <= |target| && '$' !in capture
    ensures ReplaceFrom(target, capture, i) == ReplaceStars(target[i..], capture)
    decreases |target| - i
  {
    if i < |target| {
      AsWrittenAgreesWithoutDollar(target, capture, i + 1);
      ExpandWithoutDollar(capture, target[..i], target[i + 1..]);
      assert target[i..][1..] == target[i + 1..];
    }
  }

  /** Characters other than `*` are copied through unchanged. */
  lemma {:induction false} ReplaceFromCopies(target: string, capture: string, i: nat, j: nat)
    requires i <= j <= |target| && '*' !in target[i..j]
    ensures ReplaceFrom(target, capture, i) == target[i..j] + ReplaceFrom(target, capture, j)
    decreases j - i
  {
    if i < j {
      assert target[i] == target[i..j][0];
      assert target[i + 1..j] == target[i..j][1..];
      ReplaceFromCopies(target, capture, i + 1, j);
      assert ReplaceFrom(target, capture, i) == [target[i]] + ReplaceFrom(target, capture, i + 1);
      assert target[i..j] == [target[i]] + target[i + 1..j];
    }
  }

  /** On a target with one `*`, the as-written replacement inserts the expanded template. */
  lemma AsWrittenAroundStar(prefix: string, suffix: string, capture: string)
    requires '*' !in prefix && '*' !in suffix
    ensures ReplaceStarsAsWritten(prefix + "*" + suffix, capture)
         == prefix + Expand(capture, prefix, suffix) + suffix
  {
    var t := prefix + "*" + suffix;
    var n := |prefix|;
    assert t[0..n] == prefix && t[n] == '*' && t[..n] == prefix && t[n + 1..] == suffix;
    assert t[n + 1..|t|] == suffix;
    ReplaceFromCopies(t, capture, 0, n);
    ReplaceFromCopies(t, capture, n + 1, |t|);
  }

  lemma DollarAmpersand(before: string, after: string)
    ensures Expand("$&", before, after) == "*"
  {
    assert "$&"[2..] == [];
  }

  /** A capture of `$&` is not substituted literally: it re-inserts the `*` it replaces. */
  lemma DollarCaptureIsExpanded()
    ensures ReplaceStarsAsWritten("./dist/*.js", "$&") == "./dist/*.js"
    ensures ReplaceStars("./dist/*.js", "$&") == "./dist/$&.js"
  {
    var prefix, suffix := "./dist/", ".js";
    assert prefix + "*" + suffix == "./dist/*.js";
    assert prefix + "$&" + suffix == "./dist/$&.js";
    ReplaceStarsAroundStar(prefix, suffix, "$&");
    AsWrittenAroundStar(prefix, suffix, "$&");
    DollarAmpersand(prefix, suffix);
  }

  /**
   * The capture is substituted only when there is a non-empty one (an empty
   * string is falsy); a star-free capture leaves no `*` behind.
   */
  function Substitute(target: string, capture: Option<string>): (r: string)
    ensures '*' !in target ==> r == target
    ensures capture.None? || capture == Some("") ==> r == target
    ensures capture.Some? && capture.value != "" && '*' !in capture.value ==> '*' !in r
  {
    if capture.Some? && capture.value != "" then
      ReplaceStarsSpec(target, capture.value);
      ReplaceStars(target, capture.value)
    else target
  }

  predicate Selected(condition: string, conditions: seq<string>)
  {
    condition == "default" || condition in conditions
  }

  /** The errors resolution can raise. */
  predicate ResolutionFailure(f: Failure, kind: Kind)
  {
    f == NumericKey || (f.InvalidTarget? && f.kind == kind)
  }

  /**
   * `resolveConditions`: null gives nothing, a literal is validated and then
   * substituted, an array concatenates its elements' results, a condition map
   * follows its first selected key, and anything else is an invalid target.
   */
  function Resolve(kind: Kind, value: PathConditions, conditions: seq<string>, capture: Option<string>)
    : (r: Result<seq<string>>)
    ensures r.Err? ==> ResolutionFailure(r.error, kind)
    ensures r.Ok? && capture.None? ==> forall t | t in r.value :: !InvalidLiteral(t)
    ensures value.Target? ==> (r.Err? <==> InvalidLiteral(value.path))
    ensures value.Target? && r.Err? ==> r.error == InvalidTarget(kind, value.path, true)
    decreases value, 0
  {
    match value
    case Null => Ok([])
    case Target(target) =>
      if InvalidLiteral(target) then Err(InvalidTarget(kind, target, true))
      else Ok([Substitute(target, capture)])
    case Fallbacks(items) => ResolveAll(kind, items, conditions, capture)
    case ConditionMap(entries) => ResolveMap(kind, entries, conditions, capture)
    case Scalar(text) => Err(InvalidTarget(kind, text, false))
  }

  /** `items.flatMap(resolve)`: the first error wins, otherwise results concatenate in order. */
  function ResolveAll(kind: Kind, items: seq<PathConditions>, conditions: seq<string>, capture: Option<string>)
    : (r: Result<seq<string>>)
    ensures r.Err? ==> ResolutionFailure(r.error, kind)
    ensures r.Ok? && capture.None? ==> forall t | t in r.value :: !InvalidLiteral(t)
    decreases items, 0
  {
    if items == [] then Ok([])
    else
      match Resolve(kind, items[0], conditions, capture)
      case Err(f) => Err(f)
      case Ok(head) =>
        match ResolveAll(kind, items[1..], conditions, capture)
        case Err(f) => Err(f)
        case Ok(tail) => Ok(head + tail)
  }

  /** The key loop of a condition map: a numeric key is an error, the first selected key decides. */
  function ResolveMap(kind: Kind, entries: Entries, conditions: seq<string>, capture: Option<string>)
    : (r: Result<seq<string>>)
    ensures r.Err? ==> ResolutionFailure(r.error, kind)
    ensures r.Ok? && capture.None? ==> forall t | t in r.value :: !InvalidLiteral(t)
    decreases entries, 0
  {
    if entries == [] then Ok([])
    else
      var condition := entries[0].0;
      if IsInteger(condition) then Err(NumericKey)
      else if Selected(condition, conditions) then
        assert entries[0].1 < entries[0];
        Resolve(kind, entries[0].1, conditions, capture)
      else ResolveMap(kind, entries[1..], conditions, capture)
  }

  /** Null (or an absent key) contributes nothing, under any conditions and capture. */
  lemma NullResolvesEmpty(kind: Kind, conditions: seq<string>, capture: Option<string>)
    ensures Resolve(kind, Null, conditions, capture) == Ok([])
  {
  }

  /** A literal that fails validation is an invalid target, reported as defined in the package config. */
  lemma InvalidTargetRejected(kind: Kind, target: string, conditions: seq<string>, capture: Option<string>)
    requires InvalidLiteral(target)
    ensures Resolve(kind, Target(target), conditions, capture) == Err(InvalidTarget(kind, target, true))
    ensures Code(InvalidTarget(kind, target, true)) == Some("ERR_INVALID_PACKAGE_TARGET")
  {
  }

  /** A number or boolean is an invalid target, reported without the package-config suffix. */
  lemma ScalarRejected(kind: Kind, text: string, conditions: seq<string>, capture: Option<string>)
    ensures Resolve(kind, Scalar(text), conditions, capture) == Err(InvalidTarget(kind, text, false))
    ensures Message(InvalidTarget(kind, text, false)) == "Invalid \"" + KindName(kind) + "\" target \"" + text + "\""
  {
  }

  /** Sequencing of two results, first error first. */
  function Chain(a: Result<seq<string>>, b: Result<seq<string>>): Result<seq<string>>
  {
    if a.Err? then a else if b.Err? then b else Ok(a.value + b.value)
  }

  /** Sequencing is associative. */
  lemma ChainAssociative(x: Result<seq<string>>, y: Result<seq<string>>, z: Result<seq<string>>)
    ensures Chain(x, Chain(y, z)) == Chain(Chain(x, y), z)
  {
    if x.Ok? && y.Ok? && z.Ok? {
      assert x.value + (y.value + z.value) == (x.value + y.value) + z.value;
    }
  }

  /** One step of an array: its first element's result, then the rest's. */
  lemma ResolveAllCons(kind: Kind, items: seq<PathConditions>, conditions: seq<string>, capture: Option<string>)
    requires items != []
    ensures ResolveAll(kind, items, conditions, capture)
         == Chain(Resolve(kind, items[0], conditions, capture), ResolveAll(kind, items[1..], conditions, capture))
  {
  }

  /** A fallback array resolves to the in-order concatenation of its parts. */
  lemma {:induction false} FallbacksConcatenate(kind: Kind, a: seq<PathConditions>, b: seq<PathConditions>,
                                                conditions: seq<string>, capture: Option<string>)
    ensures Resolve(kind, Fallbacks(a + b), conditions, capture)
         == Chain(Resolve(kind, Fallbacks(a), conditions, capture), Resolve(kind, Fallbacks(b), conditions, capture))
    decreases |a|
  {
    if a == [] {
      assert a + b == b;
      var all := ResolveAll(kind, b, conditions, capture);
      if all.Ok? {
        assert [] + all.value == all.value;
      }
    } else {
      assert (a + b)[0] == a[0];
      assert (a + b)[1..] == a[1..] + b;
      FallbacksConcatenate(kind, a[1..], b, conditions, capture);
      ResolveAllCons(kind, a + b, conditions, capture);
      ResolveAllCons(kind, a, conditions, capture);
      ChainAssociative(Resolve(kind, a[0], conditions, capture), ResolveAll(kind, a[1..], conditions, capture),
                       ResolveAll(kind, b, conditions, capture));
    }
  }

  /** A one-element array resolves like its element. */
  lemma SingleFallback(kind: Kind, item: PathConditions, conditions: seq<string>, capture: Option<string>)
    ensures Resolve(kind, Fallbacks([item]), conditions, capture) == Resolve(kind, item, conditions, capture)
  {
    var r := Resolve(kind, item, conditions, capture);
    assert [item][0] == item;
    assert [item][1..] == [];
    assert ResolveAll(kind, [], conditions, capture) == Ok([]);
    if r.Ok? {
      assert r.value + [] == r.value;
    }
  }

  /**
   * Only the first key, in map order, that is `default` or an active condition
   * is explored, provided no all-digit key comes before it; the map resolves
   * exactly as that key's value, whatever follows it.
   */
  lemma {:induction false} FirstSelectedBranch(kind: Kind, entries: Entries, conditions: seq<string>,
                                               capture: Option<string>, i: nat)
    requires i < |entries|
    requires forall j | 0 <= j < i :: !IsInteger(entries[j].0) && !Selected(entries[j].0, conditions)
    requires !IsInteger(entries[i].0) && Selected(entries[i].0, conditions)
    ensures Resolve(kind, ConditionMap(entries), conditions, capture)
         == Resolve(kind, entries[i].1, conditions, capture)
    decreases i
  {
    if i > 0 {
      FirstSelectedBranch(kind, entries[1..], conditions, capture, i - 1);
    }
  }

  /** An all-digit key reached before any selected key rejects the map. */
  lemma {:induction false} NumericKeyRejected(kind: Kind, entries: Entries, conditions: seq<string>,
                                              capture: Option<string>, i: nat)
    requires i < |entries|
    requires forall j | 0 <= j < i :: !IsInteger(entries[j].0) && !Selected(entries[j].0, conditions)
    requires IsInteger(entries[i].0)
    ensures Resolve(kind, ConditionMap(entries), conditions, capture) == Err(NumericKey)
    decreases i
  {
    if i > 0 {
      NumericKeyRejected(kind, entries[1..], conditions, capture, i - 1);
    }
  }

  /** A map with no selected key (and no numeric key) resolves to nothing. */
  lemma {:induction false} NoSelectedBranch(kind: Kind, entries: Entries, conditions: seq<string>,
                                            capture: Option<string>)
    requires forall j | 0 <= j < |entries| :: !IsInteger(entries[j].0) && !Selected(entries[j].0, conditions)
    ensures Resolve(kind, ConditionMap(entries), conditions, capture) == Ok([])
    decreases |entries|
  {
    if entries != [] {
      NoSelectedBranch(kind, entries[1..], conditions, capture);
    }
  }

  /**
   * A literal is validated before the capture goes in: a valid literal with a
   * non-empty capture always resolves, to the literal with every `*` replaced.
   */
  lemma ValidationPrecedesSubstitution(kind: Kind, target: string, conditions: seq<string>, capture: string)
    requires !InvalidLiteral(target) && capture != ""
    ensures Resolve(kind, Target(target), conditions, Some(capture)) == Ok([ReplaceStars(target, capture)])
  {
  }

  /** A `./`-relative target with one allowed segment passes validation. */
  lemma RelativeTargetIsValid(name: string)
    requires NoSeparator(name) && !DisallowedSegment(name)
    ensures !InvalidLiteral("./" + name)
  {
    SplitJoin([".", name]);
    assert Join([".", name]) == "./" + name;
    assert forall i | 1 <= i < 2 :: [".", name][i] == name;
  }

  /** The target `./` + `*` resolves to `./` followed by whatever the capture is. */
  lemma RelativeStarTarget(kind: Kind, conditions: seq<string>, capture: string)
    requires capture != ""
    ensures Resolve(kind, Target("./" + "*"), conditions, Some(capture)) == Ok(["./" + capture])
  {
    assert Lower("*") == "*";
    RelativeTargetIsValid("*");
    ReplaceStarsAroundStar("./", "", capture);
    assert "./" + "*" + "" == "./" + "*";
    assert "./" + capture + "" == "./" + capture;
  }

  // Hence a capture can carry a segment the literal itself could not hold:
  // the target `./*` with a capture `../…` resolves to a `./../…` path, which
  // as a literal would be refused.
  lemma CaptureIsNotValidated(kind: Kind, conditions: seq<string>, rest: string)
    ensures Resolve(kind, Target("./" + "*"), conditions, Some("../" + rest)) == Ok(["./" + ("../" + rest)])
    ensures InvalidLiteral("./" + ("../" + rest))
  {
    RelativeStarTarget(kind, conditions, "../" + rest);
    assert "./" + ("../" + rest) == "." + "/" + ".." + ("/" + rest);
    InnerSegmentRejected(".", "..", "/" + rest);
  }

  /** Without a capture a target stays as written, `*` included. */
  lemma LiteralStarKept(kind: Kind, target: string, conditions: seq<string>)
    requires !InvalidLiteral(target)
    ensures Resolve(kind, Target(target), conditions, None) == Ok([target])
  {
  }
}
