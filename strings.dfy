/**
 * The JavaScript string operations the core relies on: `includes`,
 * case-insensitive `contains` and `split` on a one-character separator.
 */
module Strings {

  predicate IsPrefix(p: string, s: string) {
    |p| <= |s| && s[..|p|] == p
  }

  /** `s.includes(needle)`: `needle` occurs in `s` as a contiguous substring. */
  predicate Includes(s: string, needle: string)
    decreases |s|
  {
    IsPrefix(needle, s) || (|s| > 0 && Includes(s[1..], needle))
  }

  /** Every string includes itself, and includes the empty string. */
  lemma IncludesSelf(s: string)
    ensures Includes(s, s) && Includes(s, "")
  {
    assert s[..|s|] == s;
  }

  /** A string never includes anything longer than itself. */
  lemma {:induction false} IncludesNotLonger(s: string, needle: string)
    requires |needle| > |s|
    ensures !Includes(s, needle)
  {
    if |s| > 0 {
      IncludesNotLonger(s[1..], needle);
    }
  }

  /** `Includes` is exactly "occurs at some offset". */
  lemma {:induction false} IncludesAt(s: string, needle: string)
    ensures Includes(s, needle) <==>
      exists i :: 0 <= i <= |s| - |needle| && IsPrefix(needle, s[i..])
  {
    if IsPrefix(needle, s) {
      assert s[0..] == s;
    } else if |s| == 0 {
      forall i | 0 <= i <= |s| - |needle| ensures !IsPrefix(needle, s[i..]) {
        assert s[i..] == s;
      }
    } else {
      IncludesAt(s[1..], needle);
      if Includes(s[1..], needle) {
        var i :| 0 <= i <= |s[1..]| - |needle| && IsPrefix(needle, s[1..][i..]);
        assert s[1..][i..] == s[i + 1..];
      } else {
        forall i | 0 <= i <= |s| - |needle| ensures !IsPrefix(needle, s[i..]) {
          if i > 0 {
            assert s[1..][i - 1..] == s[i..];
          } else {
            assert s[0..] == s;
          }
        }
      }
    }
  }

  /** ASCII lower-casing of one character. */
  function LowerChar(c: char): char {
    if 'A' <= c <= 'Z' then (c as int + 32) as char else c
  }

  function Lower(s: string): (r: string)
    ensures |r| == |s|
  {
    seq(|s|, i requires 0 <= i < |s| => LowerChar(s[i]))
  }

  /** The store's `contains` filter with `mode: 'insensitive'`. */
  predicate IncludesInsensitive(s: string, needle: string) {
    Includes(Lower(s), Lower(needle))
  }

  /** The inverse of `Split`: the parts joined with the separator between them. */
  function Join(parts: seq<string>, sep: char): string
    requires |parts| >= 1
  {
    if |parts| == 1 then parts[0] else parts[0] + [sep] + Join(parts[1..], sep)
  }

  /**
   * `s.split(sep)` for a one-character separator: the maximal separator-free
   * pieces between separators, including empty ones at either end.
   */
  function Split(s: string, sep: char): (parts: seq<string>)
    ensures |parts| >= 1
    ensures forall k :: 0 <= k < |parts| ==> sep !in parts[k]
    ensures Join(parts, sep) == s
  {
    if s == [] then [""]
    else
      var rest := Split(s[1..], sep);
      if s[0] == sep then
        assert [s[0]] + s[1..] == s;
        [""] + rest
      else
        var parts := [[s[0]] + rest[0]] + rest[1..];
        assert parts[1..] == rest[1..];
        assert sep !in parts[0];
        assert Join(parts, sep) == s by {
          if |rest| == 1 {
            assert [s[0]] + s[1..] == s;
          } else {
            assert rest == [rest[0]] + rest[1..];
            assert Join(rest, sep) == rest[0] + [sep] + Join(rest[1..], sep);
            assert [s[0]] + s[1..] == s;
          }
        }
        parts
  }

  /** Splitting a join of separator-free parts gives the parts back. */
  lemma {:induction false} SplitJoin(parts: seq<string>, sep: char)
    requires |parts| >= 1
    requires forall k :: 0 <= k < |parts| ==> sep !in parts[k]
    ensures Split(Join(parts, sep), sep) == parts
  {
    var p := parts[0];
    if |parts| == 1 {
      SplitNoSep(p, sep);
    } else {
      var tail := Join(parts[1..], sep);
      SplitJoin(parts[1..], sep);
      SplitPrefix(p, tail, sep);
      assert parts == [p] + parts[1..];
    }
  }

  /** A separator-free string splits into itself alone. */
  lemma {:induction false} SplitNoSep(s: string, sep: char)
    requires sep !in s
    ensures Split(s, sep) == [s]
  {
    if s != [] {
      SplitNoSep(s[1..], sep);
      assert [s[0]] + s[1..] == s;
    }
  }

  /** Splitting `p + [sep] + t` for a separator-free `p` puts `p` in front of the pieces of `t`. */
  lemma {:induction false} SplitPrefix(p: string, t: string, sep: char)
    requires sep !in p
    ensures Split(p + [sep] + t, sep) == [p] + Split(t, sep)
  {
    var s := p + [sep] + t;
    if p == [] {
      assert s[0] == sep && s[1..] == t;
    } else {
      assert s[0] == p[0];
      assert s[1..] == p[1..] + [sep] + t;
      SplitPrefix(p[1..], t, sep);
      assert [p[0]] + p[1..] == p;
    }
  }
}
