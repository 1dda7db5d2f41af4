/**
 * The Python `str` operations the installer relies on, over strings taken as
 * sequences of code points: `sep.join`, `str.split(sep)`, `str.replace(old, new)`
 * and `str.center(width)`.
 */
module PyStr {

  /** Python's `max(a, b)` on two integers: the larger of the two. */
  function Max(a: int, b: int): (m: int)
    ensures m >= a && m >= b && (m == a || m == b)
  {
    if a >= b then a else b
  }

  /** `pat` occurs in `s` as the contiguous slice starting at index `i`. */
  predicate OccursAt(s: string, pat: string, i: int)
  {
    0 <= i <= |s| - |pat| && s[i..i + |pat|] == pat
  }

  /** Python's `pat in s`: `pat` is a contiguous slice of `s`. */
  ghost predicate Occurs(s: string, pat: string)
  {
    exists i :: OccursAt(s, pat, i)
  }

  /** The last element of a non-empty list (Python's `xs[-1]`). */
  function Last<T>(xs: seq<T>): (x: T)
    requires |xs| > 0
    ensures x in xs
  {
    xs[|xs| - 1]
  }

  /** `xs[-1]` of a list built by appending `y` is `y`, whatever came before. */
  lemma LastOfSnoc<T>(init: seq<T>, y: T)
    ensures Last(init + [y]) == y
  {
  }

  // ---------------------------------------------------------------------------
  // sep.join(parts)

  /** `sep.join(parts)`: the result starts with the first part. */
  function Join(parts: seq<string>, sep: string): (r: string)
    ensures |parts| >= 1 ==> |parts[0]| <= |r| && r[..|parts[0]|] == parts[0]
  {
    if |parts| == 0 then ""
    else if |parts| == 1 then parts[0]
    else parts[0] + sep + Join(parts[1..], sep)
  }

  // ---------------------------------------------------------------------------
  // s.split(sep): occurrences of `sep` are found left to right and never overlap

  function Split(s: string, sep: string): (parts: seq<string>)
    requires sep != []
    ensures |parts| >= 1
    decreases |s|
  {
    if |s| < |sep| then [s]
    else if s[..|sep|] == sep then [""] + Split(s[|sep|..], sep)
    else
      var rest := Split(s[1..], sep);
      [[s[0]] + rest[0]] + rest[1..]
  }

  // ---------------------------------------------------------------------------
  // s.replace(old, new): the same left-to-right, non-overlapping scan as split

  /** `s.replace(pat, rep)`: a replacement no longer than the pattern never lengthens the string. */
  function Replace(s: string, pat: string, rep: string): (r: string)
    requires pat != []
    ensures |rep| <= |pat| ==> |r| <= |s|
    decreases |s|
  {
    if |s| < |pat| then s
    else if s[..|pat|] == pat then rep + Replace(s[|pat|..], pat, rep)
    else [s[0]] + Replace(s[1..], pat, rep)
  }

  // ---------------------------------------------------------------------------
  // s.center(width), with a space as fill character

  function Spaces(n: nat): (r: string)
    ensures |r| == n && forall i :: 0 <= i < n ==> r[i] == ' '
  {
    seq(n, _ => ' ')
  }

  /**
   * The number of spaces `str.center` puts before a string of length `len`.
   * CPython gives the odd space of an odd margin to the left exactly when the
   * width is odd; otherwise it goes to the right.
   */
  function CenterOffset(len: nat, width: int): (left: nat)
    ensures len >= width ==> left == 0
    ensures len < width ==> left <= width - len
    ensures len < width ==> -1 <= (width - len - left) - left <= 1
    ensures len < width ==>
              ((width - len - left) - left == -1 <==> (width - len) % 2 == 1 && width % 2 == 1)
  {
    if len >= width then 0
    else
      var marg := width - len;
      marg / 2 + (if marg % 2 == 1 && width % 2 == 1 then 1 else 0)
  }

  function Center(s: string, width: int): (r: string)
    ensures |r| == Max(|s|, width)
    ensures OccursAt(r, s, CenterOffset(|s|, width))
    ensures forall i :: 0 <= i < |r| && !(CenterOffset(|s|, width) <= i < CenterOffset(|s|, width) + |s|) ==>
              r[i] == ' '
  {
    if |s| >= width then s
    else
      var left := CenterOffset(|s|, width);
      var r := Spaces(left) + s + Spaces(width - |s| - left);
      assert r[left..left + |s|] == s;
      r
  }

  // ---------------------------------------------------------------------------
  // Lemmas

  lemma JoinCons(c: string, parts: seq<string>, sep: string)
    requires |parts| >= 1
    ensures Join([c + parts[0]] + parts[1..], sep) == c + Join(parts, sep)
  {
    var q := [c + parts[0]] + parts[1..];
    if |parts| > 1 {
      assert q[1..] == parts[1..];
    }
  }

  /** Joining the parts of a split with the same separator gives back the string. */
  lemma {:induction false} JoinSplit(s: string, sep: string)
    requires sep != []
    ensures Join(Split(s, sep), sep) == s
    decreases |s|
  {
    if |s| < |sep| {
    } else if s[..|sep|] == sep {
      var rest := Split(s[|sep|..], sep);
      JoinSplit(s[|sep|..], sep);
      assert ([""] + rest)[1..] == rest;
      assert s == sep + s[|sep|..];
    } else {
      var rest := Split(s[1..], sep);
      JoinSplit(s[1..], sep);
      JoinCons([s[0]], rest, sep);
      assert s == [s[0]] + s[1..];
    }
  }

  /** Python's identity `s.replace(old, new) == new.join(s.split(old))`. */
  lemma {:induction false} ReplaceIsJoinSplit(s: string, pat: string, rep: string)
    requires pat != []
    ensures Replace(s, pat, rep) == Join(Split(s, pat), rep)
    decreases |s|
  {
    if |s| < |pat| {
    } else if s[..|pat|] == pat {
      var rest := Split(s[|pat|..], pat);
      ReplaceIsJoinSplit(s[|pat|..], pat, rep);
      assert ([""] + rest)[1..] == rest;
    } else {
      var rest := Split(s[1..], pat);
      ReplaceIsJoinSplit(s[1..], pat, rep);
      JoinCons([s[0]], rest, rep);
    }
  }

  /** The first part of a split is a prefix of the string. */
  lemma {:induction false} SplitHeadIsPrefix(s: string, sep: string)
    requires sep != []
    ensures |Split(s, sep)[0]| <= |s| && Split(s, sep)[0] == s[..|Split(s, sep)[0]|]
    decreases |s|
  {
    if |s| < |sep| {
    } else if s[..|sep|] == sep {
    } else {
      SplitHeadIsPrefix(s[1..], sep);
      var head := Split(s[1..], sep)[0];
      assert Split(s, sep)[0] == [s[0]] + head;
      assert s[..1 + |head|] == [s[0]] + s[1..][..|head|];
    }
  }

  /** No part of a split contains the separator. */
  lemma {:induction false} SplitPartsAvoidSep(s: string, sep: string)
    requires sep != []
    ensures forall k, i :: 0 <= k < |Split(s, sep)| ==> !OccursAt(Split(s, sep)[k], sep, i)
    decreases |s|
  {
    var parts := Split(s, sep);
    if |s| < |sep| {
      forall i ensures !OccursAt(s, sep, i) {
      }
    } else if s[..|sep|] == sep {
      SplitPartsAvoidSep(s[|sep|..], sep);
      var rest := Split(s[|sep|..], sep);
      forall k, i | 0 <= k < |parts| ensures !OccursAt(parts[k], sep, i) {
        if k > 0 {
          assert parts[k] == rest[k - 1];
        }
      }
    } else {
      var rest := Split(s[1..], sep);
      SplitPartsAvoidSep(s[1..], sep);
      SplitHeadIsPrefix(s[1..], sep);
      var p := [s[0]] + rest[0];
      assert p == s[..|p|];
      forall i ensures !OccursAt(p, sep, i) {
        if i == 0 {
          if |sep| <= |p| {
            assert p[..|sep|] == s[..|sep|];
          }
        } else if 0 < i <= |p| - |sep| {
          assert p[i..i + |sep|] == rest[0][i - 1..i - 1 + |sep|];
          assert !OccursAt(rest[0], sep, i - 1);
        }
      }
      forall k, i | 0 <= k < |parts| ensures !OccursAt(parts[k], sep, i) {
        if k > 0 {
          assert parts[k] == rest[k];
        }
      }
    }
  }

  /** A string with no occurrence of the separator splits into itself alone. */
  lemma {:induction false} SplitWithoutSep(s: string, sep: string)
    requires sep != [] && !Occurs(s, sep)
    ensures Split(s, sep) == [s]
    decreases |s|
  {
    if |s| >= |sep| {
      assert !OccursAt(s, sep, 0);
      forall i ensures !OccursAt(s[1..], sep, i) {
        if 0 <= i <= |s| - 1 - |sep| {
          assert s[1..][i..i + |sep|] == s[i + 1..i + 1 + |sep|];
          assert !OccursAt(s, sep, i + 1);
        }
      }
      SplitWithoutSep(s[1..], sep);
      assert s == [s[0]] + s[1..];
    }
  }

  /** Replacing a pattern that does not occur leaves the string unchanged. */
  lemma {:induction false} ReplaceWithoutOccurrence(s: string, pat: string, rep: string)
    requires pat != [] && !Occurs(s, pat)
    ensures Replace(s, pat, rep) == s
    decreases |s|
  {
    if |s| >= |pat| {
      assert !OccursAt(s, pat, 0);
      forall i ensures !OccursAt(s[1..], pat, i) {
        if 0 <= i <= |s| - 1 - |pat| {
          assert s[1..][i..i + |pat|] == s[i + 1..i + 1 + |pat|];
          assert !OccursAt(s, pat, i + 1);
        }
      }
      ReplaceWithoutOccurrence(s[1..], pat, rep);
      assert s == [s[0]] + s[1..];
    }
  }

  /** Replacement introduces no character that neither the string nor the replacement has. */
  lemma {:induction false} ReplaceAvoidsChar(s: string, pat: string, rep: string, c: char)
    requires pat != [] && c !in s && c !in rep
    ensures c !in Replace(s, pat, rep)
    decreases |s|
  {
    if |s| < |pat| {
    } else if s[..|pat|] == pat {
      ReplaceAvoidsChar(s[|pat|..], pat, rep, c);
    } else {
      ReplaceAvoidsChar(s[1..], pat, rep, c);
    }
  }

  /**
   * When `prefix` holds no character of the pattern's first, the scan copies it
   * unchanged and continues after it.
   */
  lemma {:induction false} ReplaceAfterCleanPrefix(prefix: string, pat: string, rest: string, rep: string)
    requires pat != [] && pat[0] !in prefix
    ensures Replace(prefix + pat + rest, pat, rep) == prefix + rep + Replace(rest, pat, rep)
    decreases |prefix|
  {
    var s := prefix + pat + rest;
    if prefix == [] {
      assert s == pat + rest;
      assert s[..|pat|] == pat && s[|pat|..] == rest;
    } else {
      var tail := prefix[1..] + pat + rest;
      assert s == [prefix[0]] + tail;
      assert s[0] != pat[0];
      assert s[..|pat|] != pat by {
        assert s[..|pat|][0] == s[0];
      }
      assert s[1..] == tail;
      ReplaceAfterCleanPrefix(prefix[1..], pat, rest, rep);
      assert Replace(s, pat, rep) == [prefix[0]] + Replace(tail, pat, rep);
      assert [prefix[0]] + (prefix[1..] + rep + Replace(rest, pat, rep)) == prefix + rep + Replace(rest, pat, rep);
    }
  }

  /** A pattern whose first character is missing from `s` does not occur in `s`. */
  lemma FirstCharAbsent(s: string, pat: string)
    requires pat != [] && pat[0] !in s
    ensures !Occurs(s, pat)
  {
    forall i ensures !OccursAt(s, pat, i) {
      if 0 <= i <= |s| - |pat| {
        assert s[i..i + |pat|][0] == s[i];
      }
    }
  }

  lemma {:induction false} JoinSnoc(parts: seq<string>, sep: string)
    requires |parts| >= 2
    ensures Join(parts, sep) == Join(parts[..|parts| - 1], sep) + sep + Last(parts)
    decreases |parts|
  {
    var init := parts[..|parts| - 1];
    if |parts| > 2 {
      var tail := parts[1..];
      JoinSnoc(tail, sep);
      assert tail[..|tail| - 1] == init[1..];
      assert Last(tail) == Last(parts);
      assert Join(init, sep) == init[0] + sep + Join(init[1..], sep);
    } else {
      assert init == [parts[0]];
    }
  }
}
