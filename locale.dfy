/**
  The translation printer of the locale package.

  A Printer is bound to one language at construction and never changes.
  Every lookup falls back to the translation key itself when no usable
  translation is found.

  The collaborators this package uses are parameters here:
  - `catalog` is the translation dictionary loader: `catalog(language)` is
    `None` when the dictionary of that language cannot be loaded;
  - `forms` is the table of plural-form rules, keyed by language, with a
    `"default"` rule for languages that have none of their own;
  - `sprint` and `sprintf` are the formatting functions of the Go standard
    library, left uninterpreted; the formatting arguments (`...interface{}`)
    have their own type `Arg`.
*/
module Locale {
  import opened Wrappers

  /** A dynamically typed dictionary value (a Go `interface{}`). */
  datatype Value =
    | Str(s: string)                 // a `string`
    | AnyList(items: seq<Value>)     // a `[]interface{}`
    | StrList(strs: seq<string>)     // a `[]string`
    | Other(id: nat)                 // a value of any other dynamic type; `id` tells values apart

  type Dict = map<string, Value>

  /** A plural-form rule: maps a count to the index of the plural form. */
  type PluralRule = int -> nat

  /** A printer for one language; the language is fixed at construction. */
  datatype Printer = Printer(language: string)

  /** Creates a printer for the given language. */
  function NewPrinter(language: string): (p: Printer)
    ensures p.language == language
  {
    Printer(language)
  }

  /** True when the loaded dictionary maps `key` to a string value. */
  predicate HasStringTranslation(dict: Option<Dict>, key: string)
  {
    dict.Some? && key in dict.value && dict.value[key].Str?
  }

  /** The translation of `key`, or `key` itself when there is none. */
  function Print(p: Printer, catalog: string -> Option<Dict>, key: string): (r: string)
    ensures HasStringTranslation(catalog(p.language), key) ==>
              r == catalog(p.language).value[key].s
    ensures catalog(p.language).None? ==> r == key
    ensures catalog(p.language).Some? && key !in catalog(p.language).value ==> r == key
    ensures (catalog(p.language).Some? && key in catalog(p.language).value &&
             !catalog(p.language).value[key].Str?) ==> r == key
  {
    match catalog(p.language)
    case Some(dict) =>
      if key in dict then
        match dict[key]
        case Str(translation) => translation
        case _ => key
      else key
    case None => key
  }

  /**
    Formats `args` with the translation of `key` as template; the key
    itself is the template whenever no string translation is found.
  */
  method Printf<Arg>(p: Printer, catalog: string -> Option<Dict>,
                     sprintf: (string, seq<Arg>) -> string,
                     key: string, args: seq<Arg>) returns (r: string)
    ensures HasStringTranslation(catalog(p.language), key) ==>
              r == sprintf(catalog(p.language).value[key].s, args)
    ensures !HasStringTranslation(catalog(p.language), key) ==> r == sprintf(key, args)
    ensures r == sprintf(Print(p, catalog, key), args)
  {
    var translation := key;
    var loaded := catalog(p.language);
    if loaded.Some? {
      var dict := loaded.value;
      if key in dict {
        var str := dict[key];
        var valid := str.Str?;
        translation := if valid then str.s else "";
        if !valid {
          translation := key;
        }
      }
    }
    r := sprintf(translation, args);
  }

  /**
    The plural forms of a `[]interface{}` entry: each element rendered with
    `sprint`, appended one after the other.
  */
  function Normalize(items: seq<Value>, sprint: Value -> string): (plurals: seq<string>)
    ensures |plurals| == |items|
    ensures forall i :: 0 <= i < |items| ==> plurals[i] == sprint(items[i])
  {
    if items == [] then []
    else Normalize(items[..|items| - 1], sprint) + [sprint(items[|items| - 1])]
  }

  /**
    The plural form of `key` for the count `n`, formatted with `args`.

    The entry must be a list of strings or of values; the language's own
    plural rule picks the form, or the `"default"` rule when the language
    has none. An index past the end of the list, a missing entry, an entry
    of any other type and a dictionary that cannot be loaded all give the
    key itself.
  */
  method Plural<Arg>(p: Printer, catalog: string -> Option<Dict>,
                     forms: map<string, PluralRule>,
                     sprint: Value -> string, sprintf: (string, seq<Arg>) -> string,
                     key: string, n: int, args: seq<Arg>) returns (r: string)
    requires p.language in forms || "default" in forms
    ensures catalog(p.language).None? ==> r == key
    ensures catalog(p.language).Some? && key !in catalog(p.language).value ==> r == key
    ensures (catalog(p.language).Some? && key in catalog(p.language).value &&
             !catalog(p.language).value[key].AnyList? &&
             !catalog(p.language).value[key].StrList?) ==> r == key
    ensures (catalog(p.language).Some? && key in catalog(p.language).value &&
             (catalog(p.language).value[key].AnyList? || catalog(p.language).value[key].StrList?)) ==>
              var entry := catalog(p.language).value[key];
              var plurals := if entry.AnyList? then Normalize(entry.items, sprint) else entry.strs;
              var index := if p.language in forms then forms[p.language](n) else forms["default"](n);
              r == if index < |plurals| then sprintf(plurals[index], args) else key
  {
    var loaded := catalog(p.language);
    if loaded.None? {
      return key;
    }
    var dict := loaded.value;

    if key in dict {
      var plurals: seq<string> := [];

      match dict[key] {
        case AnyList(items) =>
          var i := 0;
          while i < |items|
            invariant 0 <= i <= |items|
            invariant plurals == Normalize(items[..i], sprint)
          {
            assert items[..i + 1][..i] == items[..i];
            plurals := plurals + [sprint(items[i])];
            i := i + 1;
          }
          assert items[..|items|] == items;
        case StrList(strs) =>
          plurals := strs;
        case _ =>
          return key;
      }

      var pluralForm := if p.language in forms then forms[p.language] else forms["default"];

      var index := pluralForm(n);
      if |plurals| > index {
        return sprintf(plurals[index], args);
      }
    }

    return key;
  }
}
