# django-html_sanitizer, modelled in Dafny

django-html_sanitizer connects Django templates and forms to the HTML cleaner
`bleach.clean`. This project models the two pieces of logic the package has
of its own:

- **The template library** (`sanitizer/templatetags/sanitizer.py`). It
  provides the `escape_html` and `strip_html` filters, which use allow-lists
  from the settings, and the `escape_html` and `strip_html` simple tags, which
  take their allow-lists as arguments. It also provides the `sanitize_allow`
  filter, whose argument `'a, strong, img; href, src'` is parsed into a tag
  list and an attribute list. All of these are pure functions (module
  `TemplateTags`). The parser uses Python's `str.strip()` and `str.split(sep)`,
  which are modelled in module `PyStr`.
- **The `sanitize` form-class decorator** (`sanitizer/decorators.py`). It
  walks a form class's `base_fields` and rebinds the `clean` of every
  `CharField` to a closure: run the original clean, then clean a string
  result with bleach. Field objects are a Dafny class whose `clean` attribute
  `ActualDecorator` updates in a loop. The closures are data (`CleanFn`), and
  `Run` interprets them (module `Decorators`).

`bleach.clean` itself is not modelled. Module `Bleach` says only what it is
called with: a `Policy` of tags, attributes, styles, `strip` and
`strip_comments`. Its behaviour is a function parameter `clean: Cleaner`, so
nothing here claims anything about the HTML it produces. A Python value is
`Value = Str(s) | Other(id)`, which stands for the `isinstance(value,
basestring)` test. An allow-list is passed to bleach unchanged, as an
`AllowList`: a list of names, a raw string, or a per-tag map.

The code is followed where its documentation says otherwise: the simple
tags' docstrings (sanitizer.py:83-85, 109-111) say a comma-separated string is
accepted, but the code passes the string to bleach as it is, and
`EscapeHtml`/`StripHtml` do the same.

A blank `sanitize_allow` argument, including the default `''`, yields the tag
list `[""]` (one empty name), not `[]`, because Python's `''.split(',')` is
`['']` (`BlankArgument`, `SanitizeAllowWithoutArgument`).

## Model

| member | source | states |
|---|---|---|
| `TemplateTags.LoadSettings` | sanitizer/templatetags/sanitizer.py:9-10 | a setting that is not defined gives the empty list; one that is defined is used as it is |
| `TemplateTags.Sanitize` | sanitizer/templatetags/sanitizer.py:27-30 | the `escape_html` filter cleans a string with the settings' lists, no styles, `strip=False`, `strip_comments=True`; any other value is returned untouched |
| `TemplateTags.StripFilter` | sanitizer/templatetags/sanitizer.py:47-50 | the `strip_html` filter does the same with `strip=True` |
| `TemplateTags.CommaList` | sanitizer/templatetags/sanitizer.py:70 | a segment gives one name per comma-separated piece (one more than its commas); each name is trimmed and has no comma |
| `TemplateTags.CommaListPiece` | sanitizer/templatetags/sanitizer.py:70 | name `k` is piece `k` of `segment.split(',')` with only whitespace removed from its two ends, for every segment and every `k` |
| `TemplateTags.FromSegments` | sanitizer/templatetags/sanitizer.py:65-72 | the tags come from the first segment and are never empty; the attributes are empty with fewer than two segments and not empty otherwise |
| `TemplateTags.ParseAllowArgs` | sanitizer/templatetags/sanitizer.py:68-72 | the tag list is never empty; every tag and attribute is trimmed and has no comma |
| `TemplateTags.SanitizeAllow` | sanitizer/templatetags/sanitizer.py:64-76 | a string is cleaned with the parsed tags and attributes and `strip=True`; any other value is returned untouched |
| `TemplateTags.EscapeHtml` | sanitizer/templatetags/sanitizer.py:101-104 | the `escape_html` tag hands its allow-list arguments to bleach as they are, with no comma splitting, and `strip=False`; a non-string is returned untouched |
| `TemplateTags.StripHtml` | sanitizer/templatetags/sanitizer.py:127-130 | the `strip_html` tag does the same with `strip=True` |
| `TemplateTags.CommaListPadded` | sanitizer/templatetags/sanitizer.py:70 | whitespace around a segment changes none of its names |
| `TemplateTags.OuterStripUnobservable` | sanitizer/templatetags/sanitizer.py:68-72 | parsing the argument without the outer `strip()` gives the same lists, because every name is trimmed again |
| `TemplateTags.NoSemicolon` | sanitizer/templatetags/sanitizer.py:66-70 | an argument without `;` gives its comma list as tags and no attributes |
| `TemplateTags.TwoSegments` | sanitizer/templatetags/sanitizer.py:68-72 | `t;a` gives the comma list of `t` as tags and that of `a` as attributes |
| `TemplateTags.ExtraSegmentsIgnored` | sanitizer/templatetags/sanitizer.py:68-72 | anything after a second `;` does not change the result |
| `TemplateTags.BlankArgument` | sanitizer/templatetags/sanitizer.py:65-70 | an empty or all-blank argument gives tags `[""]` and no attributes |
| `TemplateTags.AttributesIffSemicolon` | sanitizer/templatetags/sanitizer.py:66-72 | the attribute list is empty if and only if the argument has no `;` |
| `TemplateTags.CommaListJoin` | sanitizer/templatetags/sanitizer.py:70 | comma-joined trimmed names without commas come back unchanged |
| `TemplateTags.ListArgumentRoundTrip` | sanitizer/templatetags/sanitizer.py:62-70 | names written in the documented `"a, b, c"` form come back unchanged, and that form has no `;` |
| `TemplateTags.TagArgumentRoundTrip` | sanitizer/templatetags/sanitizer.py:62-70 | a documented tag-only argument parses to exactly its tags, with no attributes |
| `TemplateTags.AllowArgumentRoundTrip` | sanitizer/templatetags/sanitizer.py:62-72 | a documented `"tags; attributes"` argument parses back to both lists, in order |
| `TemplateTags.SingleTagArgument` | sanitizer/templatetags/sanitizer.py:68-70 | one plain name as the argument allows exactly that tag and no attributes |
| `TemplateTags.SingleTagAndAttributeArgument` | sanitizer/templatetags/sanitizer.py:68-72 | `"tag; attribute"` allows exactly that tag with exactly that attribute |
| `TemplateTags.TestTagArguments` | sanitizer/tests.py:39-41 | the tests' arguments `'br'` and `'a'` give that one tag and no attributes |
| `TemplateTags.TestTagAndAttributeArgument` | sanitizer/tests.py:42 | the tests' argument `'a; href'` gives tags `["a"]` and attributes `["href"]` |
| `TemplateTags.SanitizeAllowTestCalls` | sanitizer/tests.py:39-42 | in the tests, `sanitize_allow` calls bleach with those lists and `strip=True` |
| `TemplateTags.SanitizeAllowWithoutArgument` | sanitizer/templatetags/sanitizer.py:56-75 | with the default argument `''`, bleach is called with tags `[""]`, no attributes and `strip=True` |
| `TemplateTags.NonStringsPassThrough` | sanitizer/templatetags/sanitizer.py:27-130 | every filter and tag returns a non-string unchanged, whatever bleach does |
| `TemplateTags.EntryPointsAgree` | sanitizer/templatetags/sanitizer.py:27-130 | the global filters are the simple tags applied to the settings' lists; `sanitize_allow` is `strip_html` applied to the parsed lists |
| `Bleach.CallPolicy` | sanitizer/templatetags/sanitizer.py:28-29 | arguments a caller leaves out take bleach's defaults: no styles, `strip_comments=True` |
| `PyStr.Strip` | sanitizer/templatetags/sanitizer.py:68 | `strip()` returns a string with no whitespace at either end |
| `PyStr.StripUnique` | sanitizer/templatetags/sanitizer.py:68 | a trimmed string with whitespace on both sides strips to exactly that string |
| `PyStr.StripDecompose` | sanitizer/templatetags/sanitizer.py:68 | every string is its stripped form with only whitespace on either side |
| `PyStr.StripPadded` | sanitizer/templatetags/sanitizer.py:70 | added whitespace does not change what `strip()` returns |
| `PyStr.StripIdempotent` | sanitizer/templatetags/sanitizer.py:70 | stripping twice is stripping once |
| `PyStr.StripKeepsCharacters` | sanitizer/templatetags/sanitizer.py:70 | `strip()` only removes characters |
| `PyStr.Split` | sanitizer/templatetags/sanitizer.py:68 | `split(sep)` gives at least one piece, even for the empty string |
| `PyStr.SplitPiecesWithoutSep` | sanitizer/templatetags/sanitizer.py:68 | no piece contains `sep` |
| `PyStr.JoinSplit` | sanitizer/templatetags/sanitizer.py:68 | joining the pieces with `sep` gives back the string |
| `PyStr.SplitJoin` | sanitizer/templatetags/sanitizer.py:68 | splitting undoes joining, for pieces without `sep` |
| `PyStr.SplitCount` | sanitizer/templatetags/sanitizer.py:68 | there is one more piece than there are separators |
| `PyStr.SplitWithoutSep` | sanitizer/templatetags/sanitizer.py:68 | a string without the separator is one piece |
| `PyStr.SplitAtSep` | sanitizer/templatetags/sanitizer.py:68 | the part before the first separator is the first piece; the rest is split in its turn |
| `PyStr.SplitPrefix` | sanitizer/templatetags/sanitizer.py:68 | text without the separator put in front only lengthens the first piece |
| `PyStr.SplitSuffix` | sanitizer/templatetags/sanitizer.py:68 | text without the separator put at the end only lengthens the last piece |
| `PyStr.SplitPadded` | sanitizer/templatetags/sanitizer.py:68 | separator-free text around a string only lengthens the first and last pieces |
| `Decorators.Run` | sanitizer/decorators.py:7-11 | calling a clean, however often wrapped, raises exactly when the undecorated clean at its core raises, and with that same error |
| `Decorators.GetSanitizedCleanFunc` | sanitizer/decorators.py:6-12 | the wrapper runs the original clean first; an error passes through and bleach is not reached; a non-string result is returned unchanged; a string result is cleaned with exactly the stored keyword arguments |
| `Decorators.Delegated` | sanitizer/decorators.py:9-11 | only a string result is handed to bleach |
| `Decorators.WrappedKeepsErrors` | sanitizer/decorators.py:7-8 | however often a clean is wrapped, an error of the original comes out unchanged |
| `Decorators.WrappedKeepsNonStrings` | sanitizer/decorators.py:9-11 | however often a clean is wrapped, a non-string result of the original comes out unchanged |
| `Decorators.WrappedCleansRepeatedly` | sanitizer/decorators.py:7-11 | a string result goes through bleach once per wrapping |
| `Decorators.RewrappingHarmlessIfIdempotent` | sanitizer/decorators.py:38-40 | wrapping more than once changes nothing if bleach is idempotent for the policy, which this package does not itself ensure |
| `Decorators.CharFieldEntries` | sanitizer/decorators.py:36 | every selected entry is a `base_fields` entry whose field is a `CharField`, and every such entry is selected |
| `Decorators.CharFieldEntriesAppend` | sanitizer/decorators.py:36 | selection keeps dictionary order: selecting from two parts in turn is selecting from the whole |
| `Decorators.CharFieldOccurrences` | sanitizer/decorators.py:36 | a `CharField` object is selected once per entry holding it, any other field object never |
| `Decorators.SelectedOnce` | sanitizer/decorators.py:36-40 | a field object that no other name shares is selected once if it is a `CharField` and never otherwise |
| `Decorators.NonCharFieldNotSelected` | sanitizer/decorators.py:36 | a field that is not a `CharField` is never selected |
| `Decorators.SharedCharFieldSelectedTwice` | sanitizer/decorators.py:36-40 | in any form, a `CharField` object under two names is selected, and so wrapped, at least twice |
| `Decorators.Sanitize.constructor` | sanitizer/decorators.py:18-27 | the stored keyword arguments are the given ones; the defaults are bleach's tags and attributes, no styles, `strip=False`, `strip_comments=True` |
| `Decorators.Sanitize.ActualDecorator` | sanitizer/decorators.py:35-40 | every field object's `clean` is wrapped once per `CharField` entry holding it, so a `CharField`'s once per name it has in `base_fields`, all with the same stored keyword arguments; a non-`CharField` keeps its `clean`; an unshared `CharField` is wrapped exactly once; the class and its entries are unchanged |
| `Decorators.Sanitize.Call` | sanitizer/decorators.py:30-32 | the decorator returns the very class it was given, after decorating it |

## Left out

- `bleach.clean` is a parameter, not a model. Its tokenising, escaping and allow-list filtering are not modelled. Its idempotence, and the claim that its output only contains allowed markup, are not claimed. Errors it raises are not modelled.
- The `@stringfilter` decorator (sanitizer/templatetags/sanitizer.py:15, 35, 55) is Django machinery and is not modelled. It rebinds each filter's name to a wrapper that converts a positional first argument to a string, for template use and for direct calls such as those in sanitizer/tests.py:33-42 alike. The non-string branch of the three filters is reached only through a keyword call (`sanitize(value=5)`) or the undecorated function. The model covers the function bodies.
- Django machinery: the settings lookup is reduced to the optional values given to `LoadSettings`. Filter and tag registration is not modelled. Neither is the copying of `base_fields` into each form instance.
- The original `clean` of a field, which is Django's, is a parameter `native` of `Run`.
- sanitizer/models.py and sanitizer/forms.py are not part of this model. Each calls the Django base conversion and then bleach; with both abstracted, no behaviour of their own is left.
- setup.py is packaging metadata only.
- `sanitize_text` is imported by sanitizer/tests.py but is not defined in the template library, so it is not modelled.
- `sanitize_allow` with an argument that is not a string raises `AttributeError` in Python. The model takes the argument as a string.
- `PyStr.IsSpace` is the whitespace set of Python 2.7 `unicode.strip()`. A byte-string argument would have only ASCII whitespace stripped.
- Python's mutable default arguments (`styles=[]`, `allowed_tags=[]`) are never mutated by the package, so they are modelled as values.
- The filter's documented example `'a, strong, img; href, src'` is covered by `AllowArgumentRoundTrip` for all such arguments, not by a separate lemma about that literal.
