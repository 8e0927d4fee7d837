/** Splitting a string on a one-character separator, as JavaScript's
    `String.prototype.split` does for `key.split('.')` (a translation key
    path) and `navigator.language.split('-')` (a locale tag). */
module KeyPaths {

  /** The segments of `s` between occurrences of `sep`, in order. There is
      always at least one segment: `""` splits to `[""]`, `"a..b"` to
      `["a", "", "b"]`. */
  function Split(s: string, sep: char): (parts: seq<string>)
    ensures |parts| >= 1
    ensures forall i :: 0 <= i < |parts| ==> sep !in parts[i]
    decreases |s|
  {
    if s == [] then [[]]
    else
      var rest := Split(s[1..], sep);
      if s[0] == sep then [[]] + rest
      else [[s[0]] + rest[0]] + rest[1..]
  }

  /** The inverse of `Split`: the segments with `sep` between each two. */
  function Join(parts: seq<string>, sep: char): (s: string)
    requires |parts| >= 1
    decreases |parts|
  {
    if |parts| == 1 then parts[0] else parts[0] + [sep] + Join(parts[1..], sep)
  }

  /** Splitting and joining again gives back the original string. */
  lemma {:induction false} JoinSplit(s: string, sep: char)
    ensures Join(Split(s, sep), sep) == s
    decreases |s|
  {
    if s != [] {
      var rest := Split(s[1..], sep);
      JoinSplit(s[1..], sep);
      if s[0] == sep {
        assert ([[]] + rest)[1..] == rest;
      } else if |rest| > 1 {
        var parts := [[s[0]] + rest[0]] + rest[1..];
        assert parts[1..] == rest[1..];
        assert Join(rest, sep) == rest[0] + [sep] + Join(rest[1..], sep);
        assert s == [s[0]] + s[1..];
      } else {
        assert s == [s[0]] + s[1..];
      }
    }
  }

  /** A segment free of the separator splits to itself. */
  lemma {:induction false} SplitWithoutSeparator(a: string, sep: char)
    requires sep !in a
    ensures Split(a, sep) == [a]
    decreases |a|
  {
    if a != [] {
      SplitWithoutSeparator(a[1..], sep);
      assert [a[0]] + a[1..] == a;
    }
  }

  /** Splitting distributes over a separator: the segments of
      `a + sep + b` are those of `a` followed by those of `b`. */
  lemma {:induction false} SplitAround(a: string, b: string, sep: char)
    ensures Split(a + [sep] + b, sep) == Split(a, sep) + Split(b, sep)
    decreases |a|
  {
    var s := a + [sep] + b;
    var rb := Split(b, sep);
    if a == [] {
      assert s == [sep] + b;
      assert s[1..] == b;
      assert Split(s, sep) == [[]] + rb;
    } else {
      assert s[0] == a[0];
      assert s[1..] == a[1..] + [sep] + b;
      SplitAround(a[1..], b, sep);
      var ra := Split(a[1..], sep);
      assert Split(s[1..], sep) == ra + rb;
      if a[0] == sep {
        assert Split(s, sep) == [[]] + (ra + rb);
        assert Split(a, sep) == [[]] + ra;
      } else {
        assert Split(s, sep) == [[a[0]] + (ra + rb)[0]] + (ra + rb)[1..];
        assert Split(a, sep) == [[a[0]] + ra[0]] + ra[1..];
        ConsFirst([a[0]], ra, rb);
      }
    }
  }

  /** Extending the first of several segments commutes with appending
      further segments. */
  lemma ConsFirst(x: string, ra: seq<string>, rb: seq<string>)
    requires |ra| >= 1
    ensures [x + (ra + rb)[0]] + (ra + rb)[1..] == ([x + ra[0]] + ra[1..]) + rb
  {
    assert (ra + rb)[0] == ra[0];
    assert (ra + rb)[1..] == ra[1..] + rb;
  }

  /** Joining separator-free segments and splitting again gives back the
      segments: a key path written with dots is read back segment by
      segment. */
  lemma {:induction false} SplitJoin(parts: seq<string>, sep: char)
    requires |parts| >= 1
    requires forall i :: 0 <= i < |parts| ==> sep !in parts[i]
    ensures Split(Join(parts, sep), sep) == parts
    decreases |parts|
  {
    if |parts| == 1 {
      SplitWithoutSeparator(parts[0], sep);
    } else {
      SplitJoin(parts[1..], sep);
      SplitAround(parts[0], Join(parts[1..], sep), sep);
      SplitWithoutSeparator(parts[0], sep);
      assert [parts[0]] + parts[1..] == parts;
    }
  }

  /** The first segment is the longest prefix of `s` that does not contain
      the separator: it is a prefix, and either it is all of `s` or the
      separator comes right after it. */
  lemma {:induction false} FirstSegment(s: string, sep: char)
    ensures Split(s, sep)[0] <= s
    ensures Split(s, sep)[0] == s || s[|Split(s, sep)[0]|] == sep
    decreases |s|
  {
    if s != [] && s[0] != sep {
      FirstSegment(s[1..], sep);
      assert s == [s[0]] + s[1..];
    }
  }

  /** The primary subtag of a locale: the text before its first `-`. */
  function PrimarySubtag(locale: string): (tag: string)
    ensures tag <= locale && '-' !in tag
  {
    FirstSegment(locale, '-');
    Split(locale, '-')[0]
  }

  /** A locale's primary subtag is `tag` (itself free of `-`) exactly when
      the locale is `tag` alone or `tag` followed by `-` and more. */
  lemma PrimarySubtagIs(locale: string, tag: string)
    requires '-' !in tag
    ensures PrimarySubtag(locale) == tag <==>
              locale == tag || (|locale| > |tag| && locale[..|tag| + 1] == tag + "-")
  {
    FirstSegment(locale, '-');
    var p := PrimarySubtag(locale);
    assert p == locale[..|p|];
    if locale == tag {
      assert p == locale;
    } else if |locale| > |tag| && locale[..|tag| + 1] == tag + "-" {
      assert locale[|tag|] == '-';
      assert locale[..|tag|] == tag;
    }
  }
}
