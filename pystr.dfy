/** Python's `str.strip()` and `str.split(sep)` for a one-character separator,
    on strings modelled as `seq<char>`. These are the two library calls the
    `sanitize_allow` filter builds its argument parser from. */
module PyStr {

  /** The characters `unicode.isspace()` accepts in Python 2.7: what a bare
      `strip()` removes from either end of a unicode string. */
  predicate IsSpace(c: char) {
    ('\t' <= c <= '\r') || ('\U{1C}' <= c <= '\U{1F}') || c == ' '
    || c == '\U{85}' || c == '\U{A0}' || c == '\U{1680}' || c == '\U{180E}'
    || ('\U{2000}' <= c <= '\U{200A}') || c == '\U{2028}' || c == '\U{2029}'
    || c == '\U{202F}' || c == '\U{205F}' || c == '\U{3000}'
  }

  predicate AllSpace(s: string) {
    forall i :: 0 <= i < |s| ==> IsSpace(s[i])
  }

  /** No whitespace at either end: what `strip()` returns. */
  predicate Trimmed(s: string) {
    s == [] || (!IsSpace(s[0]) && !IsSpace(s[|s| - 1]))
  }

  /** How many whitespace characters `lstrip()` removes from the front of `s`. */
  function LeadingSpaces(s: string): (n: nat)
    ensures n <= |s| && AllSpace(s[..n])
    ensures n < |s| ==> !IsSpace(s[n])
  {
    if |s| > 0 && IsSpace(s[0]) then
      var n := 1 + LeadingSpaces(s[1..]);
      assert s[..n] == [s[0]] + s[1..][..n - 1];
      n
    else 0
  }

  /** How many whitespace characters `rstrip()` removes from the end of `s`. */
  function TrailingSpaces(s: string): (n: nat)
    ensures n <= |s| && AllSpace(s[|s| - n..])
    ensures n < |s| ==> !IsSpace(s[|s| - n - 1])
  {
    if |s| > 0 && IsSpace(s[|s| - 1]) then
      var init := s[..|s| - 1];
      var n := 1 + TrailingSpaces(init);
      var start := |s| - n;
      var spaces, initSpaces := s[start..], init[start..];
      assert AllSpace(spaces) by {
        assert forall i :: 0 <= i < n - 1 ==> spaces[i] == initSpaces[i];
      }
      assert n < |s| ==> s[start - 1] == init[start - 1];
      n
    else 0
  }

  /** `s.strip()`: `s` without its leading and trailing whitespace. */
  function Strip(s: string): (r: string)
    ensures Trimmed(r)
  {
    var l := s[LeadingSpaces(s)..];
    l[..|l| - TrailingSpaces(l)]
  }

  /** Stripping only removes characters: every character of the result occurs
      in the argument. */
  lemma StripKeepsCharacters(s: string, c: char)
    requires c in Strip(s)
    ensures c in s
  {
    var i := LeadingSpaces(s);
    var l := s[i..];
    var r := Strip(s);
    assert r == l[..|l| - TrailingSpaces(l)];
    var k :| 0 <= k < |r| && r[k] == c;
    assert l[k] == c;
    assert s[i + k] == c;
  }

  lemma {:induction false} LeadingSpacesPadded(p: string, m: string)
    requires AllSpace(p)
    requires m == [] || !IsSpace(m[0])
    ensures LeadingSpaces(p + m) == |p|
    decreases |p|
  {
    if p == [] {
      assert p + m == m;
    } else {
      assert (p + m)[1..] == p[1..] + m;
      LeadingSpacesPadded(p[1..], m);
    }
  }

  lemma {:induction false} TrailingSpacesPadded(m: string, q: string)
    requires AllSpace(q)
    requires m == [] || !IsSpace(m[|m| - 1])
    ensures TrailingSpaces(m + q) == |q|
    decreases |q|
  {
    if q == [] {
      assert m + q == m;
    } else {
      assert (m + q)[..|m + q| - 1] == m + q[..|q| - 1];
      TrailingSpacesPadded(m, q[..|q| - 1]);
    }
  }

  /** `strip()` is determined by its result: whatever whitespace surrounds a
      trimmed string, stripping gives back exactly that string. */
  lemma StripUnique(p: string, m: string, q: string)
    requires AllSpace(p) && AllSpace(q) && Trimmed(m)
    ensures Strip(p + m + q) == m
  {
    var s := p + m + q;
    if m == [] {
      assert s == p + q;
      assert AllSpace(s);
      LeadingSpacesPadded(s, []);
      assert s + [] == s;
      assert s[LeadingSpaces(s)..] == [];
    } else {
      assert s == p + (m + q);
      LeadingSpacesPadded(p, m + q);
      assert s[|p|..] == m + q;
      TrailingSpacesPadded(m, q);
      assert (m + q)[..|m|] == m;
    }
  }

  /** Every string is its stripped form with whitespace on both sides. */
  lemma StripDecompose(s: string) returns (p: string, q: string)
    ensures AllSpace(p) && AllSpace(q)
    ensures s == p + Strip(s) + q
  {
    var i := LeadingSpaces(s);
    var l := s[i..];
    var j := |l| - TrailingSpaces(l);
    p := s[..i];
    q := l[j..];
    var m := l[..j];
    assert s == p + m + q by {
      SliceSplit(l, j);
      SliceSplit(s, i);
      Associative(p, m, q);
    }
    assert Strip(s) == m;
  }

  /** Stripping twice is stripping once. */
  lemma StripIdempotent(s: string)
    ensures Strip(Strip(s)) == Strip(s)
  {
    StripUnique([], Strip(s), []);
    assert [] + Strip(s) + [] == Strip(s);
  }

  /** Cutting a string at `i` and putting the halves together again gives it back. */
  lemma SliceSplit(s: string, i: nat)
    requires i <= |s|
    ensures s == s[..i] + s[i..]
  {
  }

  /** Concatenation is associative. */
  lemma Associative<T>(a: seq<T>, b: seq<T>, c: seq<T>)
    ensures a + (b + c) == a + b + c
  {
  }

  /** Two runs of whitespace make one. */
  lemma AllSpaceConcat(a: string, b: string)
    requires AllSpace(a) && AllSpace(b)
    ensures AllSpace(a + b)
  {
    assert forall i :: 0 <= i < |a + b| ==> IsSpace((a + b)[i]) by {
      forall i | 0 <= i < |a + b| ensures IsSpace((a + b)[i]) {
        if i < |a| { assert (a + b)[i] == a[i]; } else { assert (a + b)[i] == b[i - |a|]; }
      }
    }
  }

  /** Whitespace added around a string does not change what `strip()` returns. */
  lemma StripPadded(p: string, s: string, q: string)
    requires AllSpace(p) && AllSpace(q)
    ensures Strip(p + s + q) == Strip(s)
  {
    var p', q' := StripDecompose(s);
    var m := Strip(s);
    calc {
      p + s + q;
      p + (p' + m + q') + q;
      { Associative(p, p' + m, q'); }
      p + (p' + m) + q' + q;
      { Associative(p, p', m); }
      p + p' + m + q' + q;
      { Associative(p + p' + m, q', q); }
      (p + p') + m + (q' + q);
    }
    assert AllSpace(p + p') && AllSpace(q' + q) by {
      AllSpaceConcat(p, p');
      AllSpaceConcat(q', q);
    }
    StripUnique(p + p', m, q' + q);
  }

  /** `s.split(sep)` for a single-character `sep`, as Python computes it: the
      pieces between separators, always at least one (`"".split(",") == [""]`). */
  function Split(s: string, sep: char): (r: seq<string>)
    ensures |r| >= 1
    decreases |s|
  {
    if s == [] then [[]]
    else
      var rest := Split(s[1..], sep);
      if s[0] == sep then [[]] + rest
      else [[s[0]] + rest[0]] + rest[1..]
  }

  /** `sep.join(parts)`. */
  function Join(parts: seq<string>, sep: char): string
    requires |parts| >= 1
  {
    if |parts| == 1 then parts[0] else parts[0] + [sep] + Join(parts[1..], sep)
  }

  /** No piece contains the separator. */
  lemma {:induction false} SplitPiecesWithoutSep(s: string, sep: char)
    ensures forall k :: 0 <= k < |Split(s, sep)| ==> sep !in Split(s, sep)[k]
    decreases |s|
  {
    if s != [] {
      SplitPiecesWithoutSep(s[1..], sep);
    }
  }

  /** Text put in front of the first piece ends up in front of the joined string. */
  lemma JoinPrefix(c: string, parts: seq<string>, sep: char)
    requires |parts| >= 1
    ensures Join([c + parts[0]] + parts[1..], sep) == c + Join(parts, sep)
  {
    var longer := [c + parts[0]] + parts[1..];
    if |parts| > 1 {
      assert longer[1..] == parts[1..];
      assert Join(longer, sep) == (c + parts[0]) + [sep] + Join(parts[1..], sep);
    }
  }

  /** Joining the pieces back with the separator gives the original string. */
  lemma {:induction false} JoinSplit(s: string, sep: char)
    ensures Join(Split(s, sep), sep) == s
    decreases |s|
  {
    if s != [] {
      var rest := Split(s[1..], sep);
      JoinSplit(s[1..], sep);
      assert s == [s[0]] + s[1..];
      if s[0] == sep {
        var r: seq<string> := [[]] + rest;
        assert r[1..] == rest;
        assert Join(r, sep) == [] + [sep] + Join(rest, sep);
      } else {
        JoinPrefix([s[0]], rest, sep);
      }
    }
  }

  /** There is one more piece than there are separators. */
  lemma {:induction false} SplitCount(s: string, sep: char)
    ensures |Split(s, sep)| == multiset(s)[sep] + 1
    decreases |s|
  {
    if s != [] {
      SplitCount(s[1..], sep);
      assert s == [s[0]] + s[1..];
      assert multiset(s) == multiset([s[0]]) + multiset(s[1..]);
    }
  }

  /** A string without the separator is a single piece. */
  lemma {:induction false} SplitWithoutSep(s: string, sep: char)
    requires sep !in s
    ensures Split(s, sep) == [s]
    decreases |s|
  {
    if s != [] {
      assert s[0] != sep by { assert s[0] in s; }
      SplitWithoutSep(s[1..], sep);
      assert [s[0]] + s[1..] == s;
    }
  }

  /** A separator-free prefix only lengthens the first piece. */
  lemma {:induction false} SplitPrefix(p: string, s: string, sep: char)
    requires sep !in p
    ensures Split(p + s, sep) == [p + Split(s, sep)[0]] + Split(s, sep)[1..]
    decreases |p|
  {
    if p != [] {
      assert (p + s)[1..] == p[1..] + s;
      SplitPrefix(p[1..], s, sep);
      assert [p[0]] + (p[1..] + Split(s, sep)[0]) == p + Split(s, sep)[0];
    } else {
      var r := Split(s, sep);
      assert p + s == s;
      assert p + r[0] == r[0];
      assert [r[0]] + r[1..] == r;
    }
  }

  /** `r` with `q` appended to its last element. */
  function ExtendLast(r: seq<string>, q: string): (e: seq<string>)
    requires |r| >= 1
    ensures |e| == |r|
  {
    r[..|r| - 1] + [r[|r| - 1] + q]
  }

  /** Extending the last piece commutes with adding a piece in front. */
  lemma ExtendLastCons(x: string, r: seq<string>, q: string)
    requires |r| >= 1
    ensures ExtendLast([x] + r, q) == [x] + ExtendLast(r, q)
  {
    var xr := [x] + r;
    assert xr[..|xr| - 1] == [x] + r[..|r| - 1];
  }

  /** Extending the last piece commutes with lengthening the first one. */
  lemma ExtendLastHead(c: string, r: seq<string>, q: string)
    requires |r| >= 1
    ensures var e := ExtendLast(r, q);
      ExtendLast([c + r[0]] + r[1..], q) == [c + e[0]] + e[1..]
  {
    var e := ExtendLast(r, q);
    var cr := [c + r[0]] + r[1..];
    if |r| == 1 {
      assert e == [r[0] + q];
      assert cr == [c + r[0]];
      assert ExtendLast(cr, q) == [(c + r[0]) + q];
      assert (c + r[0]) + q == c + (r[0] + q);
    } else {
      assert e[0] == r[0];
      assert e[1..] == r[1..|r| - 1] + [r[|r| - 1] + q];
      assert cr[..|cr| - 1] == [c + r[0]] + r[1..|r| - 1];
      assert cr[|cr| - 1] == r[|r| - 1];
    }
  }

  /** A separator-free suffix only lengthens the last piece. */
  lemma {:induction false} SplitSuffix(s: string, q: string, sep: char)
    requires sep !in q
    ensures Split(s + q, sep) == ExtendLast(Split(s, sep), q)
    decreases |s|
  {
    if s == [] {
      SplitWithoutSep(q, sep);
      assert s + q == q;
    } else {
      var t := s[1..];
      assert (s + q)[1..] == t + q;
      SplitSuffix(t, q, sep);
      if s[0] == sep {
        ExtendLastCons([], Split(t, sep), q);
      } else {
        ExtendLastHead([s[0]], Split(t, sep), q);
      }
    }
  }

  /** Separator-free text around a string only lengthens the first and the
      last piece. */
  lemma SplitPadded(p: string, s: string, q: string, sep: char)
    requires sep !in p && sep !in q
    ensures |Split(p + s + q, sep)| == |Split(s, sep)|
    ensures var r, n := Split(s, sep), |Split(s, sep)|;
      forall k :: 0 <= k < n ==>
        Split(p + s + q, sep)[k] == (if k == 0 then p else []) + r[k] + (if k == n - 1 then q else [])
  {
    var r := Split(s, sep);
    SplitSuffix(s, q, sep);
    assert p + s + q == p + (s + q);
    SplitPrefix(p, s + q, sep);
    var w := Split(p + s + q, sep);
    forall k | 0 <= k < |r|
      ensures w[k] == (if k == 0 then p else []) + r[k] + (if k == |r| - 1 then q else [])
    {
      PaddedPiece(p, r, q, k);
    }
  }

  /** One piece of `r` with `p` put in front of the first and `q` after the last. */
  lemma PaddedPiece(p: string, r: seq<string>, q: string, k: nat)
    requires k < |r|
    ensures var e := ExtendLast(r, q);
      ([p + e[0]] + e[1..])[k] == (if k == 0 then p else []) + r[k] + (if k == |r| - 1 then q else [])
  {
    var e := ExtendLast(r, q);
    var w := [p + e[0]] + e[1..];
    var none: string := [];
    var before := if k == 0 then p else none;
    var after := if k == |r| - 1 then q else none;
    assert e[k] == r[k] + after by {
      if k < |r| - 1 {
        assert e[k] == r[..|r| - 1][k];
        assert r[k] + none == r[k];
      }
    }
    assert w[k] == before + e[k] by {
      if k > 0 {
        assert w[k] == e[1..][k - 1];
        assert none + e[k] == e[k];
      }
    }
    Associative(before, r[k], after);
  }

  /** Splitting at the first separator: the leading separator-free part is the
      first piece, and the rest is split in its turn. */
  lemma SplitAtSep(a: string, b: string, sep: char)
    requires sep !in a
    ensures Split(a + [sep] + b, sep) == [a] + Split(b, sep)
  {
    assert a + [sep] + b == a + ([sep] + b);
    SplitPrefix(a, [sep] + b, sep);
    assert ([sep] + b)[1..] == b;
    assert a + [] == a;
  }

  /** Splitting undoes joining, for pieces that do not contain the separator. */
  lemma {:induction false} SplitJoin(parts: seq<string>, sep: char)
    requires |parts| >= 1
    requires forall k :: 0 <= k < |parts| ==> sep !in parts[k]
    ensures Split(Join(parts, sep), sep) == parts
    decreases |parts|
  {
    if |parts| == 1 {
      SplitWithoutSep(parts[0], sep);
    } else {
      SplitJoin(parts[1..], sep);
      SplitAtSep(parts[0], Join(parts[1..], sep), sep);
      assert [parts[0]] + parts[1..] == parts;
    }
  }
}
