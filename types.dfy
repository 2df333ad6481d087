/**
 * The values a package manifest's "exports" / "imports" field can hold, the
 * errors the resolver raises, and the JavaScript-object lookups the resolver
 * performs on them.
 */
module PackageTypes {
  import opened Text

  datatype Option<+T> = None | Some(value: T)

  /** A path-conditions value, as parsed from the manifest. */
  datatype PathConditions =
    | Target(path: string)                          // a literal target path
    | Fallbacks(items: seq<PathConditions>)         // an array: ordered fallbacks
    | ConditionMap(entries: seq<(string, PathConditions)>) // an object, in key order
    | Null                                          // `null`, or a missing key
    | Scalar(text: string)                          // a number or boolean, as String(value) renders it

  /** The (key, value) pairs of an object, in enumeration order. */
  type Entries = seq<(string, PathConditions)>

  /** Which manifest field is being resolved; only used in messages. */
  datatype Kind = Exports | Imports

  datatype Failure =
    | Required(field: Kind)                         // the field is missing (uncoded)
    | NumericKey                                    // a condition map has an all-digit key
    | MixedKeys                                     // "exports" mixes "."-keys and condition keys
    | InvalidTarget(kind: Kind, target: string, inConfig: bool)
    | PathNotExported(request: string)
    | ImportNotDefined(request: string)

  datatype Result<+T> = Ok(value: T) | Err(error: Failure)

  function KindName(kind: Kind): string
  {
    match kind
    case Exports => "exports"
    case Imports => "imports"
  }

  /**
   * The machine-readable `code` of an error; the "required" error has none.
   * A bad configuration (numeric or mixed keys), a bad target, an unexported
   * subpath and an undefined import each carry their own code.
   */
  function Code(f: Failure): (c: Option<string>)
    ensures c.None? <==> f.Required?
    ensures c == Some("ERR_INVALID_PACKAGE_CONFIG") <==> f.NumericKey? || f.MixedKeys?
    ensures c == Some("ERR_INVALID_PACKAGE_TARGET") <==> f.InvalidTarget?
    ensures c == Some("ERR_PACKAGE_PATH_NOT_EXPORTED") <==> f.PathNotExported?
    ensures c == Some("ERR_PACKAGE_IMPORT_NOT_DEFINED") <==> f.ImportNotDefined?
  {
    match f
    case Required(_) => None
    case NumericKey => Some("ERR_INVALID_PACKAGE_CONFIG")
    case MixedKeys => Some("ERR_INVALID_PACKAGE_CONFIG")
    case InvalidTarget(_, _, _) => Some("ERR_INVALID_PACKAGE_TARGET")
    case PathNotExported(_) => Some("ERR_PACKAGE_PATH_NOT_EXPORTED")
    case ImportNotDefined(_) => Some("ERR_PACKAGE_IMPORT_NOT_DEFINED")
  }

  /**
   * The human-readable message passed to the error constructor.  An invalid
   * target read from the package config says so at the end; the not-exported
   * message names the main entry exactly for the request `.`.
   */
  function Message(f: Failure): (m: string)
    ensures f.InvalidTarget? ==> StartsWith(m, "Invalid \"" + KindName(f.kind) + "\" target \"" + f.target)
    ensures f.InvalidTarget? ==> (f.inConfig <==> EndsWith(m, " defined in the package config"))
    ensures f.PathNotExported? ==> (m == "No \"exports\" main defined" <==> f.request == ".")
  {
    match f
    case Required(field) => "\"" + KindName(field) + "\" is required"
    case NumericKey => "Cannot contain numeric property keys"
    case MixedKeys => "\"exports\" cannot contain some keys starting with \".\" and some not"
    case InvalidTarget(kind, target, inConfig) =>
      var quoted := "Invalid \"" + KindName(kind) + "\" target \"" + target + "\"";
      var suffix := " defined in the package config";
      if inConfig then
        assert (quoted + suffix)[|quoted|..] == suffix;
        quoted + suffix
      else
        assert quoted[|quoted| - 1] != suffix[|suffix| - 1];
        quoted
    case PathNotExported(request) =>
      if request == "." then "No \"exports\" main defined"
      else "Package subpath '" + request + "' is not defined by \"exports\""
    case ImportNotDefined(request) =>
      "Package import specifier \"" + request + "\" is not defined in package"
  }

  /** The text of the thrown Error: coded errors are prefixed with `[CODE]: `. */
  function ErrorText(f: Failure): (t: string)
    ensures |Message(f)| <= |t| && t[|t| - |Message(f)|..] == Message(f)
    ensures f.Required? <==> t == Message(f)
  {
    match Code(f)
    case None => Message(f)
    case Some(code) => "[" + code + "]: " + Message(f)
  }

  /**
   * JavaScript falsiness of a manifest value (`!value`): an array or an
   * object is truthy even when empty, null is always falsy.
   */
  predicate Falsy(v: PathConditions)
    ensures v.Fallbacks? || v.ConditionMap? ==> !Falsy(v)
    ensures v.Null? ==> Falsy(v)
  {
    match v
    case Null => true
    case Target(s) => s == ""
    case Scalar(text) => text == "false" || text == "0" || text == "NaN"
    case Fallbacks(_) => false
    case ConditionMap(_) => false
  }

  function Keys(entries: Entries): (keys: seq<string>)
    ensures |keys| == |entries|
    ensures forall i | 0 <= i < |entries| :: keys[i] == entries[i].0
  {
    if entries == [] then [] else [entries[0].0] + Keys(entries[1..])
  }

  /**
   * `object[key]`: the value stored under `key`, or Null (undefined) when the
   * object has no such key.  An object never holds a key twice; on a sequence
   * that does, the first entry is the one found.
   */
  function Lookup(entries: Entries, key: string): (v: PathConditions)
    ensures key !in Keys(entries) ==> v == Null
    ensures v != Null ==> (key, v) in entries
    ensures forall i | 0 <= i < |entries| && entries[i].0 == key ::
              (forall j | 0 <= j < i :: entries[j].0 != key) ==> v == entries[i].1
  {
    if entries == [] then Null
    else if entries[0].0 == key then entries[0].1
    else
      assert forall i | 1 <= i < |entries| :: entries[i] == entries[1..][i - 1];
      Lookup(entries[1..], key)
  }
}
