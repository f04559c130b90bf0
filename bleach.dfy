/** The interface to `bleach.clean`, the HTML cleaner every entry point of the
    sanitizer delegates to. Bleach itself is not modelled: its behaviour is a
    parameter of type `Cleaner` wherever it is called, so nothing here says
    what HTML it produces. What is modelled is which arguments it receives. */
module Bleach {

  /** A Python value reaching a filter, a tag or a field's `clean`: either a
      string (`isinstance(value, basestring)`) or any other object. */
  datatype Value = Str(s: string) | Other(id: int)

  /** An allow-list argument exactly as handed to `bleach.clean`: a list of
      names, a raw string (passed through unparsed), or a per-tag mapping of
      attribute names (the shape of bleach's default attribute list). */
  datatype AllowList =
    | Names(names: seq<string>)
    | Raw(text: string)
    | PerTag(byTag: map<string, seq<string>>)

  /** The keyword arguments of one `bleach.clean` call. */
  datatype Policy = Policy(
    tags: AllowList,
    attributes: AllowList,
    styles: seq<string>,
    strip: bool,
    stripComments: bool)

  /** `bleach.clean(text, tags=…, attributes=…, styles=…, strip=…,
      strip_comments=…)`, supplied by the caller. */
  type Cleaner = (string, Policy) -> string

  /** bleach's `ALLOWED_TAGS`, the default of its `tags` argument. */
  const DefaultTags: AllowList :=
    Names(["a", "abbr", "acronym", "b", "blockquote", "code", "em", "i", "li", "ol", "strong", "ul"])

  /** bleach's `ALLOWED_ATTRIBUTES`, the default of its `attributes` argument. */
  const DefaultAttributes: AllowList :=
    PerTag(map["a" := ["href", "title"], "abbr" := ["title"], "acronym" := ["title"]])

  /** bleach's `ALLOWED_STYLES`, the default of its `styles` argument. */
  const DefaultStyles: seq<string> := []

  /** The default of bleach's `strip_comments` argument. */
  const DefaultStripComments: bool := true

  /** The policy bleach uses for the arguments a caller leaves out, when the
      caller passes only tags, attributes and the strip flag. */
  function CallPolicy(tags: AllowList, attributes: AllowList, strip: bool): (p: Policy)
    ensures p.tags == tags && p.attributes == attributes && p.strip == strip
    ensures p.styles == [] && p.stripComments
  {
    Policy(tags, attributes, DefaultStyles, strip, DefaultStripComments)
  }

  /** The contract shared by every entry point of the sanitizer: a string is
      replaced by what the cleaner makes of it under `policy`; any other value
      comes back as it is, whatever the cleaner would do. */
  ghost predicate Delegates(clean: Cleaner, policy: Policy, value: Value, result: Value) {
    match value
    case Str(s) => result == Str(clean(s, policy))
    case Other(_) => result == value
  }
}
