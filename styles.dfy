/** The values a style definition is made of, and the style rule record.

    A style object is an ordered list of (key, value) pairs, in the order the
    JavaScript `for...in` loop visits its own keys. A value is a string, a
    number (kept as the text JavaScript prints for it) or a nested style
    object; nested objects are what `:pseudo` and `@media` keys hold. */
module Styles {
  import opened Strings

  datatype Val =
    | Str(s: string)
    | Num(text: string)
    | Group(entries: seq<(string, Val)>)

  /** One registered rule: the generated (or supplied) class name, the pseudo
      suffix of its selector, its style definition and its media condition. */
  datatype StyleClass = StyleClass(
    className: string,
    pseudo: string,
    styleDef: seq<(string, Val)>,
    media: Option<string>)

  /** The text JavaScript produces when a value is concatenated to a string:
      a string as is, a number as its printed form, an object as
      "[object Object]". */
  function ValueText(v: Val): string
  {
    match v
    case Str(s) => s
    case Num(text) => text
    case Group(_) => "[object Object]"
  }

  /** What `for (var key in v)` visits together with `v[key]`: the entries of
      an object, the character positions of a string (key "0", "1", ...,
      value the one-character string there), and nothing for a number. */
  function Entries(v: Val): seq<(string, Val)>
  {
    match v
    case Str(s) => seq(|s|, i requires 0 <= i < |s| => (NatToString(i), Str([s[i]])))
    case Num(_) => []
    case Group(entries) => entries
  }
}
