/**
 * String helpers with the meaning the JavaScript runtime gives them:
 * `toLowerCase` (restricted to ASCII), `startsWith`, `includes` and
 * `split` on a one-character separator.
 */
module Text {

  type String = seq<char>

  predicate IsUpper(c: char) {
    'A' <= c <= 'Z'
  }

  /** ASCII lowering of one character; every other character is unchanged. */
  function LowerChar(c: char): char {
    if IsUpper(c) then (c as int + 32) as char else c
  }

  /** `s.toLowerCase()`, character by character. */
  function ToLower(s: String): (r: String)
    ensures |r| == |s|
    ensures forall i :: 0 <= i < |s| ==> r[i] == LowerChar(s[i])
    ensures forall i :: 0 <= i < |r| ==> !IsUpper(r[i])
  {
    seq(|s|, i requires 0 <= i < |s| => LowerChar(s[i]))
  }

  /** Lowering twice is lowering once. */
  lemma LowerIdempotent(s: String)
    ensures ToLower(ToLower(s)) == ToLower(s)
  {
    var t := ToLower(s);
    assert forall i :: 0 <= i < |t| ==> LowerChar(t[i]) == t[i];
  }

  /** `s.startsWith(p)`: `p` matches `s` character by character from the front. */
  predicate StartsWith(s: String, p: String)
    ensures StartsWith(s, p) <==> |p| <= |s| && forall i :: 0 <= i < |p| ==> s[i] == p[i]
  {
    |p| <= |s| && s[..|p|] == p
  }

  /** `q` occurs in `s` starting at index `i`. */
  predicate OccursAt(s: String, q: String, i: int) {
    0 <= i && i + |q| <= |s| && s[i..i + |q|] == q
  }

  /** `s.includes(q)`: try every start position from the left. */
  predicate Includes(s: String, q: String)
    ensures Includes(s, q) ==> |q| <= |s|
    ensures |q| == 0 ==> Includes(s, q)
    decreases |s|
  {
    StartsWith(s, q) || (|s| > 0 && Includes(s[1..], q))
  }

  /** `includes` holds exactly when there is a position at which `q` occurs. */
  lemma {:induction false} IncludesIffOccurs(s: String, q: String)
    ensures Includes(s, q) <==> exists i :: OccursAt(s, q, i)
    decreases |s|
  {
    if StartsWith(s, q) {
      assert OccursAt(s, q, 0);
    } else if |s| > 0 {
      IncludesIffOccurs(s[1..], q);
      if i :| OccursAt(s, q, i) {
        assert i != 0;
        assert s[1..][i - 1..i - 1 + |q|] == s[i..i + |q|];
        assert OccursAt(s[1..], q, i - 1);
      }
      if j :| OccursAt(s[1..], q, j) {
        assert s[j + 1..j + 1 + |q|] == s[1..][j..j + |q|];
        assert OccursAt(s, q, j + 1);
      }
    }
  }

  /** `s.split(sep)`: the maximal separator-free pieces between separators. */
  function Split(s: String, sep: char): (parts: seq<String>)
    ensures |parts| >= 1
    ensures forall k :: 0 <= k < |parts| ==> sep !in parts[k]
    decreases |s|
  {
    if |s| == 0 then [[]]
    else
      var rest := Split(s[1..], sep);
      if s[0] == sep then [[]] + rest
      else [[s[0]] + rest[0]] + rest[1..]
  }

  /** `parts.join(sep)`: the inverse of `Split` on separator-free pieces. */
  function Join(parts: seq<String>, sep: char): String
    requires |parts| >= 1
    decreases |parts|
  {
    if |parts| == 1 then parts[0] else parts[0] + [sep] + Join(parts[1..], sep)
  }

  function Last<T>(s: seq<T>): T
    requires |s| >= 1
  {
    s[|s| - 1]
  }

  /** Joining the pieces back with the separator gives the original string. */
  lemma {:induction false} JoinSplit(s: String, sep: char)
    ensures Join(Split(s, sep), sep) == s
    decreases |s|
  {
    if |s| > 0 {
      var rest := Split(s[1..], sep);
      JoinSplit(s[1..], sep);
      if s[0] == sep {
        assert Split(s, sep) == [[]] + rest;
        assert Join([[]] + rest, sep) == [] + [sep] + Join(rest, sep);
      } else {
        var parts := [[s[0]] + rest[0]] + rest[1..];
        assert Split(s, sep) == parts;
        if |rest| == 1 {
          assert Join(parts, sep) == [s[0]] + rest[0];
        } else {
          assert parts[1..] == rest[1..];
          assert Join(parts, sep) == [s[0]] + rest[0] + [sep] + Join(rest[1..], sep);
          assert Join(rest, sep) == rest[0] + [sep] + Join(rest[1..], sep);
        }
        assert s == [s[0]] + s[1..];
      }
    }
  }

  /** A separator-free string splits into itself alone. */
  lemma {:induction false} SplitSeparatorFree(a: String, sep: char)
    requires sep !in a
    ensures Split(a, sep) == [a]
    decreases |a|
  {
    if |a| > 0 {
      assert sep !in a[1..];
      SplitSeparatorFree(a[1..], sep);
      assert a == [a[0]] + a[1..];
    }
  }

  /** Splitting `a + sep + b` with a separator-free `a` yields `a` then the pieces of `b`. */
  lemma {:induction false} SplitAfterPiece(a: String, b: String, sep: char)
    requires sep !in a
    ensures Split(a + [sep] + b, sep) == [a] + Split(b, sep)
    decreases |a|
  {
    var s := a + [sep] + b;
    if |a| == 0 {
      assert s == [sep] + b;
      assert s[1..] == b;
    } else {
      assert s[1..] == a[1..] + [sep] + b;
      assert sep !in a[1..];
      SplitAfterPiece(a[1..], b, sep);
      assert a == [a[0]] + a[1..];
    }
  }

  /** Splitting a join of separator-free pieces gives the pieces back. */
  lemma {:induction false} SplitJoin(parts: seq<String>, sep: char)
    requires |parts| >= 1
    requires forall k :: 0 <= k < |parts| ==> sep !in parts[k]
    ensures Split(Join(parts, sep), sep) == parts
    decreases |parts|
  {
    if |parts| == 1 {
      SplitSeparatorFree(parts[0], sep);
    } else {
      SplitJoin(parts[1..], sep);
      SplitAfterPiece(parts[0], Join(parts[1..], sep), sep);
      assert [parts[0]] + parts[1..] == parts;
    }
  }

  /**
   * `last` is the text after the last separator of `s`: a separator-free
   * suffix of `s` that is either all of `s` or preceded by a separator.
   */
  predicate FollowsLastSeparator(s: String, last: String, sep: char) {
    && sep !in last
    && |last| <= |s|
    && s[|s| - |last|..] == last
    && (|last| < |s| ==> s[|s| - |last| - 1] == sep)
  }

  /** A string with two or more pieces contains the separator. */
  lemma SeveralPiecesHaveSeparator(t: String, sep: char)
    requires |Split(t, sep)| > 1
    ensures sep in t
  {
    var rest := Split(t, sep);
    JoinSplit(t, sep);
    assert t == rest[0] + [sep] + Join(rest[1..], sep);
    assert t[|rest[0]|] == sep;
  }

  /** A string with a single piece is that piece. */
  lemma SinglePieceIsWhole(t: String, sep: char)
    requires |Split(t, sep)| == 1
    ensures Split(t, sep)[0] == t
  {
    JoinSplit(t, sep);
  }

  /** A name whose first character is not a separator, with a single-piece tail, is one piece. */
  lemma SingleLeadingPiece(s: String, sep: char)
    requires |s| > 0 && s[0] != sep && |Split(s[1..], sep)| == 1
    ensures Last(Split(s, sep)) == s
  {
    SinglePieceIsWhole(s[1..], sep);
    assert Split(s, sep) == [[s[0]] + s[1..]];
    assert [s[0]] + s[1..] == s;
  }

  /** Otherwise the last piece of `s` is the last piece of its tail. */
  lemma LastPieceOfTail(s: String, sep: char)
    requires |s| > 0 && (s[0] == sep || |Split(s[1..], sep)| > 1)
    ensures Last(Split(s, sep)) == Last(Split(s[1..], sep))
  {
  }

  /** The text after the last separator of the tail is that of the whole string, unless it is the whole tail. */
  lemma ExtendFollows(s: String, last: String, sep: char)
    requires |s| > 0 && FollowsLastSeparator(s[1..], last, sep)
    requires |last| < |s| - 1 || s[0] == sep
    ensures FollowsLastSeparator(s, last, sep)
  {
    var n := |s| - |last|;
    assert s[n..] == last by {
      assert s[1..][n - 1..] == s[n..];
    }
    assert n > 0 ==> s[n - 1] == sep by {
      if n > 1 {
        assert s[1..][n - 2] == s[n - 1];
      }
    }
  }

  /** `s.split(sep).pop()` is the text after the last separator of `s`. */
  lemma {:induction false} LastPieceFollowsLastSeparator(s: String, sep: char)
    ensures FollowsLastSeparator(s, Last(Split(s, sep)), sep)
    decreases |s|
  {
    if |s| > 0 {
      var t := s[1..];
      LastPieceFollowsLastSeparator(t, sep);
      if s[0] != sep && |Split(t, sep)| == 1 {
        SingleLeadingPiece(s, sep);
      } else {
        LastPieceOfTail(s, sep);
        var last := Last(Split(t, sep));
        if s[0] != sep && |last| == |t| {
          // several pieces: `t` contains a separator, so `last` cannot be all of it
          SeveralPiecesHaveSeparator(t, sep);
          assert false;
        }
        ExtendFollows(s, last, sep);
      }
    }
  }

  /** Only one piece of text follows the last separator. */
  lemma LastPieceUnique(s: String, a: String, b: String, sep: char)
    requires FollowsLastSeparator(s, a, sep) && FollowsLastSeparator(s, b, sep)
    ensures a == b
  {
  }

  /** Without a separator the last piece is the whole string. */
  lemma NoSeparatorLastPieceIsWhole(s: String, sep: char)
    requires sep !in s
    ensures Last(Split(s, sep)) == s
  {
    LastPieceFollowsLastSeparator(s, sep);
    assert FollowsLastSeparator(s, Last(Split(s, sep)), sep);
  }

  /** A string that is empty or ends in the separator has an empty last piece. */
  lemma TrailingSeparatorLastPieceIsEmpty(s: String, sep: char)
    requires |s| == 0 || s[|s| - 1] == sep
    ensures Last(Split(s, sep)) == []
  {
    LastPieceFollowsLastSeparator(s, sep);
    assert FollowsLastSeparator(s, Last(Split(s, sep)), sep);
  }

  /**
   * The extension of a file name: the lower-cased text after its last dot,
   * or the whole lower-cased name when it has no dot.
   */
  function Extension(fileName: String): (r: String)
    ensures '.' !in r
    ensures |r| <= |fileName|
    ensures r == ToLower(fileName[|fileName| - |r|..])
    ensures |r| < |fileName| ==> fileName[|fileName| - |r| - 1] == '.'
  {
    var last := Last(Split(fileName, '.'));
    LastPieceFollowsLastSeparator(fileName, '.');
    assert forall i :: 0 <= i < |last| ==> LowerChar(last[i]) != '.';
    ToLower(last)
  }

  /** Lowering commutes with taking a suffix. */
  lemma LowerSuffix(s: String, k: nat)
    requires k <= |s|
    ensures ToLower(s)[k..] == ToLower(s[k..])
  {
    var a, b := ToLower(s)[k..], ToLower(s[k..]);
    assert forall i :: 0 <= i < |a| ==> a[i] == b[i];
  }

  /** Lowering a name first does not change its extension. */
  lemma ExtensionIgnoresCase(fileName: String)
    ensures Extension(ToLower(fileName)) == Extension(fileName)
  {
    var lowered := ToLower(fileName);
    var e := Extension(fileName);
    var n := |fileName|;
    var tail := fileName[n - |e|..];
    LowerSuffix(fileName, n - |e|);
    assert lowered[n - |e|..] == e;
    assert FollowsLastSeparator(lowered, e, '.');
    LastPieceFollowsLastSeparator(lowered, '.');
    LastPieceUnique(lowered, e, Last(Split(lowered, '.')), '.');
    LowerIdempotent(tail);
  }

  /** A name with exactly one dot has the lower-cased text after it as its extension. */
  lemma ExtensionAfterOneDot(stem: String, ext: String)
    requires '.' !in stem && '.' !in ext
    ensures Extension(stem + ['.'] + ext) == ToLower(ext)
  {
    SplitAfterPiece(stem, ext, '.');
    SplitSeparatorFree(ext, '.');
  }
}
