/**
 * How the three readers cut an edge-list line into fields: splitting at
 * separator characters (Rust `split`, Python `split(",")`), Java's
 * `String.split` with its trailing-empty-field rule, and Python's `strip`.
 */
module Tokens {
  /** What one input line is, once the reader has looked at it. */
  datatype Line = Comment | Fields2(first: string, second: string) | Malformed

  /** `s` starts with the character `c` (Java `startsWith`, Rust `starts_with`). */
  predicate StartsWith(s: string, c: char) {
    |s| > 0 && s[0] == c
  }

  predicate NoSep(s: string, seps: set<char>) {
    forall k :: 0 <= k < |s| ==> s[k] !in seps
  }

  /** Index of the first separator in `s`, or `|s|` when there is none. */
  function SepIndex(s: string, seps: set<char>): (i: nat)
    ensures i <= |s|
    ensures NoSep(s[..i], seps)
    ensures i < |s| ==> s[i] in seps
  {
    if s == [] then 0
    else if s[0] in seps then 0
    else
      var j := SepIndex(s[1..], seps);
      assert s[..1 + j] == [s[0]] + s[1..][..j];
      1 + j
  }

  /** The number of separator characters in `s`. */
  function SepCount(s: string, seps: set<char>): nat {
    if s == [] then 0 else (if s[0] in seps then 1 else 0) + SepCount(s[1..], seps)
  }

  /** A string without separators counts none. */
  lemma {:induction false} SepCountNone(s: string, seps: set<char>)
    requires NoSep(s, seps)
    ensures SepCount(s, seps) == 0
  {
    if s != [] {
      assert s[0] !in seps;
      assert NoSep(s[1..], seps) by {
        forall k | 0 <= k < |s[1..]| ensures s[1..][k] !in seps {
          assert s[1..][k] == s[k + 1];
        }
      }
      SepCountNone(s[1..], seps);
    }
  }

  /** The separators of `s` are the first one, at `i`, and those after it. */
  lemma {:induction false} SepCountAt(s: string, i: nat, seps: set<char>)
    requires i < |s| && NoSep(s[..i], seps) && s[i] in seps
    ensures SepCount(s, seps) == 1 + SepCount(s[i + 1..], seps)
    decreases i
  {
    if i > 0 {
      assert s[0] == s[..i][0] && s[0] !in seps;
      var t := s[1..];
      var head, u := s[..i], t[..i - 1];
      assert NoSep(u, seps) by {
        forall k | 0 <= k < |u| ensures u[k] !in seps {
          assert u[k] == head[k + 1];
        }
      }
      assert t[i - 1] == s[i];
      SepCountAt(t, i - 1, seps);
      assert t[i..] == s[i + 1..];
    }
  }

  /**
   * The fields of `s` between separator characters, empty fields included
   * (`n` separators give `n + 1` fields: `FieldsCount`).
   */
  function Fields(s: string, seps: set<char>): (r: seq<string>)
    ensures |r| >= 1
    ensures forall k :: 0 <= k < |r| ==> NoSep(r[k], seps)
    decreases |s|
  {
    var i := SepIndex(s, seps);
    if i == |s| then [s] else [s[..i]] + Fields(s[i + 1..], seps)
  }

  /** There is one field more than there are separators. */
  lemma {:induction false} FieldsCount(s: string, seps: set<char>)
    ensures |Fields(s, seps)| == SepCount(s, seps) + 1
    decreases |s|
  {
    var i := SepIndex(s, seps);
    if i == |s| {
      assert s[..i] == s;
      SepCountNone(s, seps);
    } else {
      SepCountAt(s, i, seps);
      FieldsCount(s[i + 1..], seps);
    }
  }

  /** The fields joined back with the separator `c` between them. */
  function Join(fs: seq<string>, c: char): string
    requires |fs| >= 1
  {
    if |fs| == 1 then fs[0] else fs[0] + [c] + Join(fs[1..], c)
  }

  lemma {:induction false} SepIndexOfField(a: string, rest: string, seps: set<char>)
    requires NoSep(a, seps)
    requires rest == [] || rest[0] in seps
    ensures SepIndex(a + rest, seps) == |a|
  {
    var s := a + rest;
    if a == [] {
      assert s == rest;
    } else {
      assert s[0] == a[0] && a[0] !in seps;
      assert s[1..] == a[1..] + rest;
      assert NoSep(a[1..], seps) by {
        forall k | 0 <= k < |a[1..]| ensures a[1..][k] !in seps {
          assert a[1..][k] == a[k + 1];
        }
      }
      SepIndexOfField(a[1..], rest, seps);
    }
  }

  /** A field without separators followed by a separator splits off as the first field. */
  lemma {:induction false} FieldsCons(a: string, c: char, b: string, seps: set<char>)
    requires NoSep(a, seps) && c in seps
    ensures Fields(a + [c] + b, seps) == [a] + Fields(b, seps)
  {
    var s := a + [c] + b;
    SepIndexOfField(a, [c] + b, seps);
    assert s == a + ([c] + b);
    assert s[..|a|] == a;
    assert s[|a| + 1..] == b;
  }

  /** A string without separators is a single field. */
  lemma {:induction false} FieldsSingle(a: string, seps: set<char>)
    requires NoSep(a, seps)
    ensures Fields(a, seps) == [a]
  {
    SepIndexOfField(a, [], seps);
    assert a + [] == a;
  }

  /** Splitting a join gives back the fields: `Fields` inverts `Join`. */
  lemma {:induction false} FieldsOfJoin(fs: seq<string>, c: char, seps: set<char>)
    requires |fs| >= 1 && c in seps
    requires forall k :: 0 <= k < |fs| ==> NoSep(fs[k], seps)
    ensures Fields(Join(fs, c), seps) == fs
  {
    if |fs| == 1 {
      FieldsSingle(fs[0], seps);
    } else {
      var rest := fs[1..];
      assert Join(fs, c) == fs[0] + [c] + Join(rest, c);
      assert NoSep(fs[0], seps);
      FieldsCons(fs[0], c, Join(rest, c), seps);
      assert forall k :: 0 <= k < |rest| ==> NoSep(rest[k], seps) by {
        forall k | 0 <= k < |rest| ensures NoSep(rest[k], seps) {
          assert rest[k] == fs[k + 1];
        }
      }
      FieldsOfJoin(rest, c, seps);
      assert fs == [fs[0]] + rest;
    }
  }

  /** With one separator character, joining the fields gives back the string: `Join` inverts `Fields`. */
  lemma {:induction false} JoinOfFields(s: string, c: char)
    ensures Join(Fields(s, {c}), c) == s
    decreases |s|
  {
    var i := SepIndex(s, {c});
    if i == |s| {
      assert s[..i] == s;
      assert Fields(s, {c}) == [s];
    } else {
      var head, rest := s[..i], Fields(s[i + 1..], {c});
      assert Fields(s, {c}) == [head] + rest;
      JoinOfFields(s[i + 1..], c);
      assert Join([head] + rest, c) == head + [c] + Join(rest, c) by {
        assert ([head] + rest)[0] == head && ([head] + rest)[1..] == rest;
      }
      assert s == head + [c] + s[i + 1..];
    }
  }

  /** Every field of Java's split is a field of the plain split, at the same place. */
  function DropTrailingEmpty(fs: seq<string>): (r: seq<string>)
    ensures |r| <= |fs| && r == fs[..|r|]
    ensures r == [] || r[|r| - 1] != ""
    ensures forall k :: |r| <= k < |fs| ==> fs[k] == ""
  {
    if fs == [] then []
    else if fs[|fs| - 1] == "" then DropTrailingEmpty(fs[..|fs| - 1])
    else fs
  }

  /**
   * Java `String.split(regex)` for a regex that is one character class:
   * a string with no separator is returned whole; otherwise the fields,
   * with trailing empty fields removed.
   */
  function JavaSplit(s: string, seps: set<char>): (r: seq<string>)
    ensures |r| <= SepCount(s, seps) + 1
    ensures forall k :: 0 <= k < |r| ==> NoSep(r[k], seps)
  {
    if NoSep(s, seps) then [s]
    else
      FieldsCount(s, seps);
      DropTrailingEmpty(Fields(s, seps))
  }

  /**
   * Java's split keeps the first two fields of the plain split whenever the
   * second one is not empty.
   */
  lemma {:induction false} JavaSplitFirstTwo(a: string, c: char, b: string, rest: string, seps: set<char>)
    requires NoSep(a, seps) && NoSep(b, seps) && c in seps && b != ""
    requires rest == [] || rest[0] in seps
    ensures var r := JavaSplit(a + [c] + b + rest, seps); |r| >= 2 && r[0] == a && r[1] == b
  {
    var s := a + [c] + b + rest;
    assert s[|a|] == c;
    FieldsFirstTwo(a, c, b, rest, seps);
  }

  /** The plain split of a line shaped `a c b rest` starts with the fields `a` and `b`. */
  lemma {:induction false} FieldsFirstTwo(a: string, c: char, b: string, rest: string, seps: set<char>)
    requires NoSep(a, seps) && NoSep(b, seps) && c in seps
    requires rest == [] || rest[0] in seps
    ensures var r := Fields(a + [c] + b + rest, seps); |r| >= 2 && r[0] == a && r[1] == b
  {
    var s := a + [c] + b + rest;
    assert s == a + [c] + (b + rest);
    FieldsCons(a, c, b + rest, seps);
    if rest == [] {
      assert b + rest == b;
      FieldsSingle(b, seps);
    } else {
      assert b + rest == b + [rest[0]] + rest[1..];
      FieldsCons(b, rest[0], rest[1..], seps);
    }
  }

  /**
   * Python's `str.isspace` for one character: the ASCII whitespace and
   * separator controls, NEL, NO-BREAK SPACE and the Unicode spaces.
   */
  predicate IsSpace(c: char) {
    var k := c as int;
    (9 <= k <= 13) || (28 <= k <= 32) || k == 0x85 || k == 0xA0 || k == 0x1680
    || (0x2000 <= k <= 0x200A) || k == 0x2028 || k == 0x2029 || k == 0x202F
    || k == 0x205F || k == 0x3000
  }

  /** `s` without its leading whitespace. */
  function TrimStart(s: string): (r: string)
    ensures |r| <= |s| && r == s[|s| - |r|..]
    ensures forall k :: 0 <= k < |s| - |r| ==> IsSpace(s[k])
    ensures r != [] ==> !IsSpace(r[0])
  {
    if s != [] && IsSpace(s[0]) then TrimStart(s[1..]) else s
  }

  /** `s` without its trailing whitespace. */
  function TrimEnd(s: string): (r: string)
    ensures |r| <= |s| && r == s[..|r|]
    ensures forall k :: |r| <= k < |s| ==> IsSpace(s[k])
    ensures r != [] ==> !IsSpace(r[|r| - 1])
  {
    if s != [] && IsSpace(s[|s| - 1]) then TrimEnd(s[..|s| - 1]) else s
  }

  /** Python `str.strip()`: the string without leading and trailing whitespace. */
  function Strip(s: string): (r: string)
    ensures |r| <= |s|
  {
    TrimEnd(TrimStart(s))
  }

  /**
   * The stripped string neither starts nor ends with whitespace; it is empty
   * exactly when the string is all whitespace, and equal to the string when
   * that has no whitespace at its ends.
   */
  lemma StripEnds(s: string)
    ensures var r := Strip(s);
      && (r != [] ==> !IsSpace(r[0]) && !IsSpace(r[|r| - 1]))
      && (AllSpace(s) <==> r == [])
      && (s != [] && !IsSpace(s[0]) && !IsSpace(s[|s| - 1]) ==> r == s)
  {
  }

  predicate AllSpace(w: string) {
    forall k :: 0 <= k < |w| ==> IsSpace(w[k])
  }

  /** Stripping removes exactly the whitespace padding around a text that has none at its ends. */
  lemma {:induction false} StripPadding(w1: string, a: string, w2: string)
    requires AllSpace(w1) && AllSpace(w2)
    requires a == [] || (!IsSpace(a[0]) && !IsSpace(a[|a| - 1]))
    ensures Strip(w1 + a + w2) == a
  {
    if a == [] {
      assert w1 + a + w2 == w1 + w2;
      TrimStartPadding(w1, w2);
    } else {
      var t := a + w2;
      assert w1 + a + w2 == w1 + t;
      assert t[0] == a[0];
      assert !AllSpace(t);
      TrimStartPadding(w1, t);
      TrimEndPadding(a, w2);
    }
  }

  lemma {:induction false} TrimStartPadding(w: string, t: string)
    requires AllSpace(w)
    requires t == [] || !IsSpace(t[0]) || AllSpace(t)
    ensures TrimStart(w + t) == if AllSpace(t) then [] else t
    decreases |t|, |w|
  {
    if w == [] {
      assert w + t == t;
      if AllSpace(t) && t != [] {
        assert t == [t[0]] + t[1..];
        TrimStartPadding([t[0]], t[1..]);
      }
    } else {
      assert (w + t)[1..] == w[1..] + t;
      TrimStartPadding(w[1..], t);
    }
  }

  lemma {:induction false} TrimEndPadding(t: string, w: string)
    requires AllSpace(w)
    requires t == [] || !IsSpace(t[|t| - 1])
    ensures TrimEnd(t + w) == t
  {
    if w == [] {
      assert t + w == t;
    } else {
      assert (t + w)[..|t + w| - 1] == t + w[..|w| - 1];
      TrimEndPadding(t, w[..|w| - 1]);
    }
  }
}
