/** The template library of the sanitizer: the `escape_html`, `strip_html` and
    `sanitize_allow` filters, the `escape_html` and `strip_html` simple tags,
    and the parser that turns a `sanitize_allow` argument such as
    `'a, strong, img; href, src'` into a tag list and an attribute list. */
module TemplateTags {
  import opened Bleach
  import opened PyStr

  datatype Option<T> = None | Some(value: T)

  /** The module-level allow-lists the two global filters use, read once from
      the project settings when the library is loaded. */
  datatype Settings = Settings(allowedTags: AllowList, allowedAttributes: AllowList)

  /** `getattr(settings, 'SANITIZER_ALLOWED_TAGS', [])` and the same for the
      attributes: a setting that is not defined stands for the empty list. */
  function LoadSettings(tagsSetting: Option<AllowList>, attributesSetting: Option<AllowList>): (g: Settings)
    ensures tagsSetting.None? ==> g.allowedTags == Names([])
    ensures attributesSetting.None? ==> g.allowedAttributes == Names([])
    ensures tagsSetting.Some? ==> g.allowedTags == tagsSetting.value
    ensures attributesSetting.Some? ==> g.allowedAttributes == attributesSetting.value
  {
    Settings(
      match tagsSetting case Some(t) => t case None => Names([]),
      match attributesSetting case Some(a) => a case None => Names([]))
  }

  /** The `escape_html` filter (the function `sanitize`): strings are cleaned
      with the settings' lists and `strip=False`, so disallowed markup is
      escaped. */
  function Sanitize(clean: Cleaner, settings: Settings, value: Value): (r: Value)
    ensures Delegates(clean, CallPolicy(settings.allowedTags, settings.allowedAttributes, false), value, r)
  {
    if value.Str? then
      Str(clean(value.s, CallPolicy(settings.allowedTags, settings.allowedAttributes, false)))
    else value
  }

  /** The `strip_html` filter (the function `strip_filter`): as `Sanitize`, but
      with `strip=True`, so disallowed markup is removed. */
  function StripFilter(clean: Cleaner, settings: Settings, value: Value): (r: Value)
    ensures Delegates(clean, CallPolicy(settings.allowedTags, settings.allowedAttributes, true), value, r)
  {
    if value.Str? then
      Str(clean(value.s, CallPolicy(settings.allowedTags, settings.allowedAttributes, true)))
    else value
  }

  /** The tag list and the attribute list read from a `sanitize_allow` argument. */
  datatype AllowArgs = AllowArgs(tags: seq<string>, attributes: seq<string>)

  /** `[piece.strip() for piece in segment.split(',')]`: the comma-separated
      names of one segment, trimmed, in order, empty names included. */
  function CommaList(segment: string): (r: seq<string>)
    ensures |r| == |Split(segment, ',')|
    ensures forall k :: 0 <= k < |r| ==> Trimmed(r[k]) && ',' !in r[k]
  {
    var pieces := Split(segment, ',');
    var r := seq(|pieces|, k requires 0 <= k < |pieces| => Strip(pieces[k]));
    assert forall k :: 0 <= k < |r| ==> ',' !in r[k] by {
      SplitPiecesWithoutSep(segment, ',');
      forall k, c | 0 <= k < |r| && c in r[k] ensures c != ',' {
        StripKeepsCharacters(pieces[k], c);
      }
    }
    r
  }

  /** The two `if len(args) > …` steps: the first segment gives the tags, the
      second the attributes; a missing second segment leaves the attributes
      empty and any further segment is not looked at. */
  function FromSegments(segments: seq<string>): (r: AllowArgs)
    ensures |segments| > 0 ==> |r.tags| >= 1
    ensures |segments| <= 1 ==> r.attributes == []
    ensures |segments| > 1 ==> |r.attributes| >= 1
  {
    var tags := if |segments| > 0 then CommaList(segments[0]) else [];
    var attributes := if |segments| > 1 then CommaList(segments[1]) else [];
    AllowArgs(tags, attributes)
  }

  /** The argument parser of `sanitize_allow`: strip the argument, split it on
      `;`, and read the segments. */
  function ParseAllowArgs(args: string): (r: AllowArgs)
    ensures |r.tags| >= 1
    ensures forall t :: t in r.tags ==> Trimmed(t) && ',' !in t
    ensures forall a :: a in r.attributes ==> Trimmed(a) && ',' !in a
  {
    FromSegments(Split(Strip(args), ';'))
  }

  /** The `sanitize_allow` filter: strings are cleaned with the tags and
      attributes parsed from `args` and `strip=True`. */
  function SanitizeAllow(clean: Cleaner, value: Value, args: string := ""): (r: Value)
    ensures Delegates(clean,
      CallPolicy(Names(ParseAllowArgs(args).tags), Names(ParseAllowArgs(args).attributes), true),
      value, r)
  {
    if value.Str? then
      var parsed := ParseAllowArgs(args);
      Str(clean(value.s, CallPolicy(Names(parsed.tags), Names(parsed.attributes), true)))
    else value
  }

  /** The `escape_html` simple tag: the allow-lists it is given go to the
      cleaner exactly as they are (a string is not split on commas), with
      `strip=False`. */
  function EscapeHtml(clean: Cleaner, value: Value,
                      allowedTags: AllowList := Names([]),
                      allowedAttributes: AllowList := Names([])): (r: Value)
    ensures Delegates(clean, CallPolicy(allowedTags, allowedAttributes, false), value, r)
  {
    if value.Str? then Str(clean(value.s, CallPolicy(allowedTags, allowedAttributes, false)))
    else value
  }

  /** The `strip_html` simple tag: as `EscapeHtml`, with `strip=True`. */
  function StripHtml(clean: Cleaner, value: Value,
                     allowedTags: AllowList := Names([]),
                     allowedAttributes: AllowList := Names([])): (r: Value)
    ensures Delegates(clean, CallPolicy(allowedTags, allowedAttributes, true), value, r)
  {
    if value.Str? then Str(clean(value.s, CallPolicy(allowedTags, allowedAttributes, true)))
    else value
  }

  // ---------------------------------------------------------------------------
  // Properties of the argument parser

  lemma NoSeparatorInSpaces(p: string)
    requires AllSpace(p)
    ensures ',' !in p && ';' !in p
  {
    assert forall i :: 0 <= i < |p| ==> p[i] != ',' && p[i] != ';';
  }

  /** Name `k` is piece `k` of the segment's comma split with the whitespace
      at either end of that piece removed, and nothing else. */
  lemma CommaListPiece(segment: string, k: nat) returns (p: string, q: string)
    requires k < |Split(segment, ',')|
    ensures AllSpace(p) && AllSpace(q)
    ensures Split(segment, ',')[k] == p + CommaList(segment)[k] + q
  {
    p, q := StripDecompose(Split(segment, ',')[k]);
    assert CommaList(segment)[k] == Strip(Split(segment, ',')[k]);
  }

  /** Whitespace around a segment changes none of its names. */
  lemma CommaListPadded(p: string, x: string, q: string)
    requires AllSpace(p) && AllSpace(q)
    ensures CommaList(p + x + q) == CommaList(x)
  {
    NoSeparatorInSpaces(p);
    NoSeparatorInSpaces(q);
    SplitPadded(p, x, q, ',');
    var sx, s := Split(x, ','), Split(p + x + q, ',');
    var n := |sx|;
    forall k | 0 <= k < n
      ensures Strip(s[k]) == Strip(sx[k])
    {
      StripPadded(if k == 0 then p else [], sx[k], if k == n - 1 then q else []);
    }
  }

  /** The outer `strip()` is never observable: every name is trimmed again
      after splitting, so parsing the unstripped argument gives the same lists. */
  lemma OuterStripUnobservable(args: string)
    ensures ParseAllowArgs(args) == FromSegments(Split(args, ';'))
  {
    var p, q := StripDecompose(args);
    var m := Strip(args);
    NoSeparatorInSpaces(p);
    NoSeparatorInSpaces(q);
    SplitPadded(p, m, q, ';');
    var sm, s := Split(m, ';'), Split(args, ';');
    var n := |sm|;
    CommaListPadded(p, sm[0], if n == 1 then q else []);
    if n > 1 {
      CommaListPadded([], sm[1], if n == 2 then q else []);
    }
  }

  /** Without a `;` the whole argument is the tag list and there are no
      attributes. */
  lemma {:induction false} NoSemicolon(args: string)
    requires ';' !in args
    ensures ParseAllowArgs(args) == AllowArgs(CommaList(args), [])
  {
    OuterStripUnobservable(args);
    SplitWithoutSep(args, ';');
  }

  /** `tags; attributes`: the part before the `;` gives the tags and the part
      after it the attributes. */
  lemma {:induction false} TwoSegments(tags: string, attributes: string)
    requires ';' !in tags && ';' !in attributes
    ensures ParseAllowArgs(tags + ";" + attributes) == AllowArgs(CommaList(tags), CommaList(attributes))
  {
    OuterStripUnobservable(tags + ";" + attributes);
    SplitAtSep(tags, attributes, ';');
    SplitWithoutSep(attributes, ';');
  }

  /** Segments after the second `;` are dropped without a trace. */
  lemma {:induction false} ExtraSegmentsIgnored(tags: string, attributes: string, rest: string)
    requires ';' !in tags && ';' !in attributes
    ensures ParseAllowArgs(tags + ";" + attributes + ";" + rest) == ParseAllowArgs(tags + ";" + attributes)
  {
    var whole := tags + ";" + attributes + ";" + rest;
    var segments := Split(whole, ';');
    assert |segments| >= 2 && segments[0] == tags && segments[1] == attributes by {
      assert whole == tags + [';'] + (attributes + [';'] + rest);
      SplitAtSep(tags, attributes + [';'] + rest, ';');
      SplitAtSep(attributes, rest, ';');
    }
    OuterStripUnobservable(whole);
    TwoSegments(tags, attributes);
  }

  /** A blank argument does not give an empty tag list: `''.split(',')` is
      `['']`, so the tag list is one empty name. */
  lemma {:induction false} BlankArgument(args: string)
    requires AllSpace(args)
    ensures ParseAllowArgs(args) == AllowArgs([""], [])
  {
    NoSeparatorInSpaces(args);
    NoSemicolon(args);
    CommaListPadded(args, [], []);
    assert args + [] + [] == args;
    assert CommaList([]) == [""] by {
      assert Split([], ',') == [[]];
      StripUnique([], [], []);
    }
  }

  /** The attribute list is empty exactly when the argument has no `;`. */
  lemma {:induction false} AttributesIffSemicolon(args: string)
    ensures ParseAllowArgs(args).attributes == [] <==> ';' !in args
  {
    OuterStripUnobservable(args);
    SplitCount(args, ';');
    assert ';' in args <==> multiset(args)[';'] > 0;
  }

  /** Comma-joined names come back as they went in, provided each is trimmed
      and has no comma of its own. */
  lemma {:induction false} CommaListJoin(names: seq<string>)
    requires |names| >= 1
    requires forall k :: 0 <= k < |names| ==> Trimmed(names[k]) && ',' !in names[k]
    ensures CommaList(Join(names, ',')) == names
  {
    SplitJoin(names, ',');
    forall k | 0 <= k < |names| ensures Strip(names[k]) == names[k] {
      StripUnique([], names[k], []);
      assert [] + names[k] + [] == names[k];
    }
  }

  /** Names as the filter's documentation writes them: separated by `", "`. */
  function ListArgument(names: seq<string>): string
    requires |names| >= 1
  {
    Join(Spaced(names), ',')
  }

  /** Every name but the first preceded by one space. */
  function Spaced(names: seq<string>): (r: seq<string>)
    requires |names| >= 1
    ensures |r| == |names| && r[0] == names[0]
    ensures forall k :: 1 <= k < |names| ==> r[k] == " " + names[k]
  {
    [names[0]] + Prefixed(names[1..])
  }

  function Prefixed(names: seq<string>): (r: seq<string>)
    ensures |r| == |names|
    ensures forall k :: 0 <= k < |names| ==> r[k] == " " + names[k]
  {
    if names == [] then [] else [" " + names[0]] + Prefixed(names[1..])
  }

  /** A `sanitize_allow` argument in the documented form `"tags; attributes"`. */
  function AllowArgument(tags: seq<string>, attributes: seq<string>): string
    requires |tags| >= 1 && |attributes| >= 1
  {
    ListArgument(tags) + ";" + (" " + ListArgument(attributes))
  }

  /** A name the parser can give back: trimmed, without `,` or `;`. */
  predicate PlainName(name: string) {
    Trimmed(name) && ',' !in name && ';' !in name
  }

  lemma {:induction false} NotInJoin(parts: seq<string>, sep: char, c: char)
    requires |parts| >= 1 && c != sep
    requires forall k :: 0 <= k < |parts| ==> c !in parts[k]
    ensures c !in Join(parts, sep)
    decreases |parts|
  {
    if |parts| > 1 {
      NotInJoin(parts[1..], sep, c);
    }
  }

  /** A documented list of plain names parses back into those names. */
  lemma ListArgumentRoundTrip(names: seq<string>)
    requires |names| >= 1
    requires forall k :: 0 <= k < |names| ==> PlainName(names[k])
    ensures CommaList(ListArgument(names)) == names
    ensures ';' !in ListArgument(names)
  {
    var spaced := Spaced(names);
    assert forall k :: 0 <= k < |spaced| ==> ',' !in spaced[k] && ';' !in spaced[k];
    SplitJoin(spaced, ',');
    NotInJoin(spaced, ',', ';');
    forall k | 0 <= k < |names| ensures Strip(spaced[k]) == names[k] {
      if k == 0 {
        StripUnique([], names[k], []);
        assert [] + names[k] + [] == names[k];
      } else {
        StripUnique(" ", names[k], []);
        assert " " + names[k] + [] == spaced[k];
      }
    }
  }

  /** Parsing undoes the documented format, tags only: the tags come back and
      there are no attributes. */
  lemma TagArgumentRoundTrip(tags: seq<string>)
    requires |tags| >= 1
    requires forall k :: 0 <= k < |tags| ==> PlainName(tags[k])
    ensures ParseAllowArgs(ListArgument(tags)) == AllowArgs(tags, [])
  {
    ListArgumentRoundTrip(tags);
    NoSemicolon(ListArgument(tags));
  }

  /** Parsing undoes the documented format `"tags; attributes"`: both lists
      come back as they were written. */
  lemma AllowArgumentRoundTrip(tags: seq<string>, attributes: seq<string>)
    requires |tags| >= 1 && |attributes| >= 1
    requires forall k :: 0 <= k < |tags| ==> PlainName(tags[k])
    requires forall k :: 0 <= k < |attributes| ==> PlainName(attributes[k])
    ensures ParseAllowArgs(AllowArgument(tags, attributes)) == AllowArgs(tags, attributes)
  {
    var first, rest := ListArgument(tags), ListArgument(attributes);
    var second := " " + rest;
    assert CommaList(first) == tags && ';' !in first by { ListArgumentRoundTrip(tags); }
    assert CommaList(second) == attributes && ';' !in second by {
      ListArgumentRoundTrip(attributes);
      assert second == " " + rest + [];
      CommaListPadded(" ", rest, []);
    }
    assert AllowArgument(tags, attributes) == first + ";" + second;
    TwoSegments(first, second);
  }

  /** A single plain name is a tag list of that one name. */
  lemma SingleTagArgument(name: string)
    requires PlainName(name)
    ensures ParseAllowArgs(name) == AllowArgs([name], [])
  {
    TagArgumentRoundTrip([name]);
  }

  /** `"tag; attribute"` allows that one tag with that one attribute. */
  lemma SingleTagAndAttributeArgument(tag: string, attribute: string)
    requires PlainName(tag) && PlainName(attribute)
    ensures ParseAllowArgs(tag + "; " + attribute) == AllowArgs([tag], [attribute])
  {
    assert AllowArgument([tag], [attribute]) == tag + "; " + attribute by {
      assert ListArgument([tag]) == tag;
      assert ListArgument([attribute]) == attribute;
      assert tag + ";" + (" " + attribute) == tag + "; " + attribute;
    }
    AllowArgumentRoundTrip([tag], [attribute]);
  }

  /** The one-name arguments the package's tests pass to `sanitize_allow`. */
  lemma TestTagArguments()
    ensures ParseAllowArgs("br") == AllowArgs(["br"], [])
    ensures ParseAllowArgs("a") == AllowArgs(["a"], [])
  {
    assert PlainName("br") && PlainName("a");
    SingleTagArgument("br");
    SingleTagArgument("a");
  }

  /** The tag-and-attribute argument the package's tests pass. */
  lemma TestTagAndAttributeArgument()
    ensures ParseAllowArgs("a; href") == AllowArgs(["a"], ["href"])
  {
    assert PlainName("a") && PlainName("href");
    assert "a" + "; " + "href" == "a; href";
    SingleTagAndAttributeArgument("a", "href");
  }

  // ---------------------------------------------------------------------------
  // Properties of the entry points

  /** No entry point looks at a non-string value: each returns it unchanged,
      whatever the cleaner is. */
  lemma NonStringsPassThrough(clean: Cleaner, settings: Settings, value: Value,
                              args: string, tags: AllowList, attributes: AllowList)
    requires !value.Str?
    ensures Sanitize(clean, settings, value) == value
    ensures StripFilter(clean, settings, value) == value
    ensures SanitizeAllow(clean, value, args) == value
    ensures EscapeHtml(clean, value, tags, attributes) == value
    ensures StripHtml(clean, value, tags, attributes) == value
  {
  }

  /** The calls `sanitize_allow` makes in the package's tests: the parsed
      lists go to bleach with `strip=True`. */
  lemma SanitizeAllowTestCalls(clean: Cleaner, html: string)
    ensures SanitizeAllow(clean, Str(html), "br") == Str(clean(html, CallPolicy(Names(["br"]), Names([]), true)))
    ensures SanitizeAllow(clean, Str(html), "a") == Str(clean(html, CallPolicy(Names(["a"]), Names([]), true)))
    ensures SanitizeAllow(clean, Str(html), "a; href")
         == Str(clean(html, CallPolicy(Names(["a"]), Names(["href"]), true)))
  {
    TestTagArguments();
    TestTagAndAttributeArgument();
  }

  /** Without an argument, `sanitize_allow` allows the one tag named `""`,
      not no tags at all. */
  lemma SanitizeAllowWithoutArgument(clean: Cleaner, html: string)
    ensures SanitizeAllow(clean, Str(html)) == Str(clean(html, CallPolicy(Names([""]), Names([]), true)))
  {
    BlankArgument("");
  }

  /** The entry points differ only in where their lists come from: the global
      filters are the simple tags applied to the settings' lists, and
      `sanitize_allow` is `strip_html` applied to the parsed lists. */
  lemma EntryPointsAgree(clean: Cleaner, settings: Settings, value: Value, args: string)
    ensures Sanitize(clean, settings, value)
         == EscapeHtml(clean, value, settings.allowedTags, settings.allowedAttributes)
    ensures StripFilter(clean, settings, value)
         == StripHtml(clean, value, settings.allowedTags, settings.allowedAttributes)
    ensures SanitizeAllow(clean, value, args)
         == StripHtml(clean, value, Names(ParseAllowArgs(args).tags), Names(ParseAllowArgs(args).attributes))
  {
  }
}
