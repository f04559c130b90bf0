/** The `sanitize` class decorator for forms: it rebinds the `clean` of every
    `CharField` in a form class's `base_fields` to a function that runs the
    original `clean` and then passes a string result through bleach. */
module Decorators {
  import opened Bleach
  import opened PyStr

  /** What a field's `clean` does with a value: it returns a value or raises a
      validation error (identified by its message). */
  datatype Outcome = Returned(value: Value) | Raised(message: string)

  /** A field's `clean` callable. `Native(id)` is the clean method a field
      object had before any decoration (Django's own, for the field numbered
      `id`); `Sanitized(original, policy)` is the closure `fn` built by
      `get_sanitized_clean_func` around `original` with bleach's keyword
      arguments `policy`. */
  datatype CleanFn = Native(id: nat) | Sanitized(original: CleanFn, policy: Policy)

  /** The undecorated clean method at the core of `f`. */
  function Innermost(f: CleanFn): nat {
    match f
    case Native(id) => id
    case Sanitized(original, _) => Innermost(original)
  }

  /** Calling a clean callable on `value`. `native` gives the behaviour of the
      undecorated clean methods and `clean` that of `bleach.clean`. However
      deeply a clean is wrapped, it raises exactly when the undecorated clean
      at its core raises, and then with the same error. */
  function Run(f: CleanFn, native: (nat, Value) -> Outcome, clean: Cleaner, value: Value): (r: Outcome)
    ensures r.Raised? <==> native(Innermost(f), value).Raised?
    ensures r.Raised? ==> r == native(Innermost(f), value)
  {
    match f
    case Native(id) => native(id, value)
    case Sanitized(original, policy) =>
      match Run(original, native, clean, value)
      case Raised(message) => Raised(message)
      case Returned(v) => Returned(if v.Str? then Str(clean(v.s, policy)) else v)
  }

  /** `get_sanitized_clean_func(original_clean, **kwargs)`: the returned
      callable runs `original` first; an error it raises goes through without
      bleach being reached, a non-string result comes back as it is, and a
      string result is cleaned with exactly `policy`. */
  function GetSanitizedCleanFunc(original: CleanFn, policy: Policy): (f: CleanFn)
    ensures forall native, clean, value ::
      Run(original, native, clean, value).Raised? ==>
        Run(f, native, clean, value) == Run(original, native, clean, value)
    ensures forall native, clean, value ::
      Run(original, native, clean, value).Returned? ==>
        Run(f, native, clean, value)
          == Returned(Delegated(clean, policy, Run(original, native, clean, value).value))
  {
    Sanitized(original, policy)
  }

  /** The value the wrapper hands back for a value `v` the original clean
      returned: `Delegates` holds of it. */
  function Delegated(clean: Cleaner, policy: Policy, v: Value): (r: Value)
    ensures Delegates(clean, policy, v, r)
  {
    if v.Str? then Str(clean(v.s, policy)) else v
  }

  /** `original` wrapped `n` times with the same policy. */
  function Wrapped(original: CleanFn, policy: Policy, n: nat): CleanFn
  {
    if n == 0 then original else Sanitized(Wrapped(original, policy, n - 1), policy)
  }

  /** bleach applied `n` times to `s`. */
  function CleanTimes(clean: Cleaner, policy: Policy, s: string, n: nat): string
  {
    if n == 0 then s else clean(CleanTimes(clean, policy, s, n - 1), policy)
  }

  /** However often a clean is wrapped, an error raised by the original clean
      comes out unchanged. */
  lemma {:induction false} WrappedKeepsErrors(original: CleanFn, policy: Policy, n: nat,
                                              native: (nat, Value) -> Outcome, clean: Cleaner,
                                              value: Value)
    requires Run(original, native, clean, value).Raised?
    ensures Run(Wrapped(original, policy, n), native, clean, value) == Run(original, native, clean, value)
  {
    if n > 0 {
      WrappedKeepsErrors(original, policy, n - 1, native, clean, value);
    }
  }

  /** However often a clean is wrapped, a non-string result of the original
      clean comes out unchanged. */
  lemma {:induction false} WrappedKeepsNonStrings(original: CleanFn, policy: Policy, n: nat,
                                                  native: (nat, Value) -> Outcome, clean: Cleaner,
                                                  value: Value)
    requires Run(original, native, clean, value).Returned?
    requires !Run(original, native, clean, value).value.Str?
    ensures Run(Wrapped(original, policy, n), native, clean, value) == Run(original, native, clean, value)
  {
    if n > 0 {
      WrappedKeepsNonStrings(original, policy, n - 1, native, clean, value);
    }
  }

  /** A string result of the original clean goes through bleach once per
      wrapping. */
  lemma {:induction false} WrappedCleansRepeatedly(original: CleanFn, policy: Policy, n: nat,
                                                   native: (nat, Value) -> Outcome, clean: Cleaner,
                                                   value: Value, s: string)
    requires Run(original, native, clean, value) == Returned(Str(s))
    ensures Run(Wrapped(original, policy, n), native, clean, value)
         == Returned(Str(CleanTimes(clean, policy, s, n)))
  {
    if n > 0 {
      WrappedCleansRepeatedly(original, policy, n - 1, native, clean, value, s);
    }
  }

  /** Wrapping a clean more than once makes no difference when bleach is
      idempotent for the policy; the sanitizer itself does not ensure that. */
  lemma {:induction false} RewrappingHarmlessIfIdempotent(original: CleanFn, policy: Policy, n: nat,
                                                          native: (nat, Value) -> Outcome, clean: Cleaner,
                                                          value: Value)
    requires n >= 1
    requires forall t :: clean(clean(t, policy), policy) == clean(t, policy)
    ensures Run(Wrapped(original, policy, n), native, clean, value)
         == Run(Wrapped(original, policy, 1), native, clean, value)
  {
    if n > 1 {
      RewrappingHarmlessIfIdempotent(original, policy, n - 1, native, clean, value);
    }
  }

  /** A form field object. Whether it is a `CharField` (or an instance of a
      subclass of it) never changes; its `clean` attribute is what the
      decorator rebinds. */
  class Field {
    const isCharField: bool
    var clean: CleanFn

    constructor (isCharField: bool, id: nat)
      ensures this.isCharField == isCharField && clean == Native(id)
    {
      this.isCharField := isCharField;
      clean := Native(id);
    }
  }

  /** A form class: its `base_fields`, an ordered dictionary from field name
      to field object. Two names may refer to the same field object. */
  class FormClass {
    var baseFields: seq<(string, Field)>

    ghost function FieldObjects(): set<Field>
      reads this
    {
      set e | e in baseFields :: e.1
    }
  }

  /** The list comprehension of `actual_decorator`: the `(name, field)`
      entries whose field is a `CharField`, in dictionary order. */
  function CharFieldEntries(entries: seq<(string, Field)>): (r: seq<(string, Field)>)
    ensures forall k :: 0 <= k < |r| ==> r[k].1.isCharField && r[k] in entries
    ensures forall k :: 0 <= k < |entries| && entries[k].1.isCharField ==> entries[k] in r
    ensures |r| <= |entries|
  {
    if entries == [] then []
    else
      var rest := CharFieldEntries(entries[1..]);
      assert entries == [entries[0]] + entries[1..];
      if entries[0].1.isCharField then [entries[0]] + rest else rest
  }

  /** How many entries of `entries` hold the field object `f`. */
  function Occurrences(entries: seq<(string, Field)>, f: Field): nat
  {
    if entries == [] then 0
    else Occurrences(entries[..|entries| - 1], f) + (if entries[|entries| - 1].1 == f then 1 else 0)
  }

  lemma {:induction false} OccurrencesOfAbsent(entries: seq<(string, Field)>, f: Field)
    requires forall e :: e in entries ==> e.1 != f
    ensures Occurrences(entries, f) == 0
    decreases |entries|
  {
    if entries != [] {
      OccurrencesOfAbsent(entries[..|entries| - 1], f);
    }
  }

  lemma {:induction false} OccurrencesSplit(a: seq<(string, Field)>, b: seq<(string, Field)>, f: Field)
    ensures Occurrences(a + b, f) == Occurrences(a, f) + Occurrences(b, f)
    decreases |b|
  {
    if b == [] {
      assert a + b == a;
    } else {
      assert (a + b)[..|a + b| - 1] == a + b[..|b| - 1];
      OccurrencesSplit(a, b[..|b| - 1], f);
    }
  }

  /** No other entry holds the field object of entry `i`. */
  predicate Unshared(entries: seq<(string, Field)>, i: nat)
    requires i < |entries|
  {
    forall j :: 0 <= j < |entries| && j != i ==> entries[j].1 != entries[i].1
  }

  /** A field object that no other name shares is rebound exactly once if it
      is a `CharField`, and not at all otherwise. */
  lemma {:induction false} SelectedOnce(entries: seq<(string, Field)>, i: nat)
    requires i < |entries| && Unshared(entries, i)
    ensures Occurrences(CharFieldEntries(entries), entries[i].1)
         == if entries[i].1.isCharField then 1 else 0
    decreases |entries|
  {
    var f := entries[i].1;
    var rest := entries[1..];
    assert entries == [entries[0]] + rest;
    if i == 0 {
      OccurrencesOfAbsent(CharFieldEntries(rest), f);
      if f.isCharField {
        assert CharFieldEntries(entries) == [entries[0]] + CharFieldEntries(rest);
        OccurrencesSplit([entries[0]], CharFieldEntries(rest), f);
        assert Occurrences([entries[0]], f) == 1 by {
          var single := [entries[0]];
          assert single[..0] == [];
        }
      }
    } else {
      assert Unshared(rest, i - 1) by {
        forall j | 0 <= j < |rest| && j != i - 1 ensures rest[j].1 != rest[i - 1].1 {
          assert rest[j] == entries[j + 1];
        }
      }
      SelectedOnce(rest, i - 1);
      assert rest[i - 1] == entries[i];
      if entries[0].1.isCharField {
        assert CharFieldEntries(entries) == [entries[0]] + CharFieldEntries(rest);
        OccurrencesSplit([entries[0]], CharFieldEntries(rest), f);
        assert Occurrences([entries[0]], f) == 0 by {
          var single := [entries[0]];
          assert single[..0] == [];
        }
      }
    }
  }

  /** Selection keeps the order of the entries: selecting from two parts one
      after the other is selecting from the whole. */
  lemma {:induction false} CharFieldEntriesAppend(a: seq<(string, Field)>, b: seq<(string, Field)>)
    ensures CharFieldEntries(a + b) == CharFieldEntries(a) + CharFieldEntries(b)
    decreases |a|
  {
    if a == [] {
      assert a + b == b;
    } else {
      assert (a + b)[0] == a[0];
      assert (a + b)[1..] == a[1..] + b;
      CharFieldEntriesAppend(a[1..], b);
      if a[0].1.isCharField {
        Associative([a[0]], CharFieldEntries(a[1..]), CharFieldEntries(b));
      }
    }
  }

  /** A `CharField` object is selected once for every entry that holds it, and
      any other field object never: the number of times the decorator wraps a
      field's `clean`. */
  lemma {:induction false} CharFieldOccurrences(entries: seq<(string, Field)>, f: Field)
    ensures Occurrences(CharFieldEntries(entries), f)
         == if f.isCharField then Occurrences(entries, f) else 0
    decreases |entries|
  {
    if entries != [] {
      var head, rest := [entries[0]], entries[1..];
      CharFieldOccurrences(rest, f);
      assert entries == head + rest;
      OccurrencesSplit(head, rest, f);
      var none: seq<(string, Field)> := [];
      assert head[..0] == none;
      if entries[0].1.isCharField {
        assert CharFieldEntries(entries) == head + CharFieldEntries(rest);
        OccurrencesSplit(head, CharFieldEntries(rest), f);
      }
    }
  }

  /** An entry's field object occurs at least once. */
  lemma OccurrencesOfEntry(entries: seq<(string, Field)>, i: nat)
    requires i < |entries|
    ensures Occurrences(entries, entries[i].1) >= 1
  {
    var prefix, suffix := entries[..i + 1], entries[i + 1..];
    assert prefix[..|prefix| - 1] == entries[..i];
    assert entries == prefix + suffix;
    OccurrencesSplit(prefix, suffix, entries[i].1);
  }

  /** One `CharField` object under two names is selected twice or more, so its
      `clean` is wrapped more than once. */
  lemma SharedCharFieldSelectedTwice(entries: seq<(string, Field)>, i: nat, j: nat)
    requires i < j < |entries|
    requires entries[i].1 == entries[j].1 && entries[i].1.isCharField
    ensures Occurrences(CharFieldEntries(entries), entries[i].1) >= 2
  {
    var f := entries[i].1;
    var a, b := entries[..j], entries[j..];
    assert Occurrences(a, f) >= 1 by {
      assert a[i].1 == f;
      OccurrencesOfEntry(a, i);
    }
    assert Occurrences(b, f) >= 1 by {
      assert b[0].1 == f;
      OccurrencesOfEntry(b, 0);
    }
    assert entries == a + b;
    OccurrencesSplit(a, b, f);
    CharFieldOccurrences(entries, f);
  }

  /** A field object that is not a `CharField` is never selected. */
  lemma NonCharFieldNotSelected(entries: seq<(string, Field)>, f: Field)
    requires !f.isCharField
    ensures Occurrences(CharFieldEntries(entries), f) == 0
  {
    OccurrencesOfAbsent(CharFieldEntries(entries), f);
  }

  /** The decorator object: `sanitize(tags=…, attributes=…, styles=…,
      strip=…, strip_comments=…)`, holding the keyword arguments it will
      hand to bleach. */
  class Sanitize {
    var kwargs: Policy

    /** `__init__`: the defaults are bleach's own allow-lists, no styles,
        `strip=False` and `strip_comments=True`. */
    constructor (tags: AllowList := DefaultTags,
                 attributes: AllowList := DefaultAttributes,
                 styles: seq<string> := [],
                 strip: bool := false,
                 stripComments: bool := true)
      ensures kwargs == Policy(tags, attributes, styles, strip, stripComments)
    {
      kwargs := Policy(tags, attributes, styles, strip, stripComments);
    }

    /** `actual_decorator`: every field object of `cls` has its `clean`
        wrapped once for each `CharField` entry that holds it, all with the
        same keyword arguments; the form class and its entries are not
        changed. */
    method ActualDecorator(cls: FormClass)
      modifies cls.FieldObjects()
      ensures forall f :: f in cls.FieldObjects() ==>
        f.clean == Wrapped(old(f.clean), kwargs, Occurrences(CharFieldEntries(cls.baseFields), f))
      ensures forall f :: f in cls.FieldObjects() && f.isCharField ==>
        f.clean == Wrapped(old(f.clean), kwargs, Occurrences(cls.baseFields, f))
      ensures forall f :: f in cls.FieldObjects() && !f.isCharField ==> f.clean == old(f.clean)
      ensures forall i :: 0 <= i < |cls.baseFields| && cls.baseFields[i].1.isCharField
                          && Unshared(cls.baseFields, i) ==>
        cls.baseFields[i].1.clean == Sanitized(old(cls.baseFields[i].1.clean), kwargs)
    {
      var fields := CharFieldEntries(cls.baseFields);
      var i := 0;
      while i < |fields|
        invariant 0 <= i <= |fields|
        invariant forall f :: f in cls.FieldObjects() ==>
          f.clean == Wrapped(old(f.clean), kwargs, Occurrences(fields[..i], f))
      {
        var (_, fieldObject) := fields[i];
        assert fields[i] in cls.baseFields;
        var originalClean := fieldObject.clean;
        var cleanFunc := GetSanitizedCleanFunc(originalClean, kwargs);
        fieldObject.clean := cleanFunc;
        assert fields[..i + 1][..i] == fields[..i];
        i := i + 1;
      }
      assert fields[..i] == fields;
      forall f | f in cls.FieldObjects()
        ensures Occurrences(fields, f) == if f.isCharField then Occurrences(cls.baseFields, f) else 0
      {
        CharFieldOccurrences(cls.baseFields, f);
      }
      forall i | 0 <= i < |cls.baseFields| && Unshared(cls.baseFields, i)
        ensures Occurrences(fields, cls.baseFields[i].1)
             == if cls.baseFields[i].1.isCharField then 1 else 0
      {
        SelectedOnce(cls.baseFields, i);
      }
    }

    /** `__call__`: decorate `cls` and return that same class object. */
    method Call(cls: FormClass) returns (r: FormClass)
      modifies cls.FieldObjects()
      ensures r == cls
      ensures forall f :: f in cls.FieldObjects() ==>
        f.clean == Wrapped(old(f.clean), kwargs, Occurrences(CharFieldEntries(cls.baseFields), f))
    {
      ActualDecorator(cls);
      r := cls;
    }
  }
}
