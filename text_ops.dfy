/**
 * The handful of Python `str` operations the generator relies on:
 * `split`, `strip`, `join`, `replace` and the substring test `in`.
 * Strings are sequences of characters; only ASCII whitespace is
 * considered by `strip`, as for Python 2 byte strings.
 */
module TextOps {

  /** The characters Python 2's `str.strip()` removes. */
  predicate IsSpace(c: char)
  {
    c == ' ' || (9 <= c as int <= 13)
  }

  /** `w` occurs at the very start of `s`. */
  predicate StartsWith(s: string, w: string)
  {
    |w| <= |s| && s[..|w|] == w
  }

  /** Python's `w in s` for strings. */
  predicate Contains(s: string, w: string)
    ensures Contains(s, w) ==> |w| <= |s|
    decreases |s|
  {
    StartsWith(s, w) || (|s| > 0 && Contains(s[1..], w))
  }

  /** Python's `s.lstrip()`: the suffix of `s` left after dropping leading whitespace. */
  function LStrip(s: string): (r: string)
    ensures |r| <= |s| && r == s[|s| - |r|..]
    ensures r == [] || !IsSpace(r[0])
    ensures forall k :: 0 <= k < |s| - |r| ==> IsSpace(s[k])
  {
    if |s| > 0 && IsSpace(s[0]) then LStrip(s[1..]) else s
  }

  /** Python's `s.rstrip()`: the prefix of `s` left after dropping trailing whitespace. */
  function RStrip(s: string): (r: string)
    ensures |r| <= |s| && r == s[..|r|]
    ensures r == [] || !IsSpace(r[|r| - 1])
    ensures forall k :: |r| <= k < |s| ==> IsSpace(s[k])
  {
    if |s| > 0 && IsSpace(s[|s| - 1]) then RStrip(s[..|s| - 1]) else s
  }

  /** A string with no whitespace at either end. */
  predicate Stripped(s: string)
  {
    |s| == 0 || (!IsSpace(s[0]) && !IsSpace(s[|s| - 1]))
  }

  /** `r` is the slice of `s` at `i`, and everything of `s` before and after it is whitespace. */
  predicate TrimmedAt(s: string, r: string, i: int)
  {
    0 <= i <= |s| - |r| && r == s[i..i + |r|]
    && (forall k :: 0 <= k < i ==> IsSpace(s[k]))
    && (forall k :: i + |r| <= k < |s| ==> IsSpace(s[k]))
  }

  /** Python's `s.strip()`: the input with its leading and its trailing whitespace removed. */
  function Strip(s: string): (r: string)
    ensures Stripped(r)
    ensures exists i :: TrimmedAt(s, r, i)
  {
    var l := LStrip(s);
    var r := RStrip(l);
    PrefixOfSuffix(s, l, r);
    r
  }

  /**
   * A prefix `r` of a suffix `l` of `s`, with only whitespace before `l` and
   * after `r`, is `s` trimmed at the start of `l`.
   */
  lemma PrefixOfSuffix(s: string, l: string, r: string)
    requires |l| <= |s| && l == s[|s| - |l|..]
    requires |r| <= |l| && r == l[..|r|]
    requires forall k :: |r| <= k < |l| ==> IsSpace(l[k])
    requires l == [] || !IsSpace(l[0])
    requires r == [] || !IsSpace(r[|r| - 1])
    requires forall k :: 0 <= k < |s| - |l| ==> IsSpace(s[k])
    ensures Stripped(r)
    ensures TrimmedAt(s, r, |s| - |l|)
  {
    var i := |s| - |l|;
    forall k | i + |r| <= k < |s|
      ensures IsSpace(s[k])
    {
      assert s[k] == l[k - i];
    }
  }

  /** Stripping only removes characters: what is left is a slice of the input. */
  lemma StripIsSlice(s: string, c: char)
    requires c in Strip(s)
    ensures c in s
  {
    var l := LStrip(s);
    var r := RStrip(l);
    var k :| 0 <= k < |r| && r[k] == c;
    assert l[k] == c;
    assert s[|s| - |l| + k] == c;
  }

  lemma StripOfStripped(s: string)
    requires Stripped(s)
    ensures Strip(s) == s
  {
  }

  /** Python's `s.split(sep)` with a one-character separator. */
  function Split(s: string, sep: char): (r: seq<string>)
    ensures |r| >= 1
    ensures forall i :: 0 <= i < |r| ==> sep !in r[i]
  {
    if |s| == 0 then [""]
    else
      var rest := Split(s[1..], sep);
      if s[0] == sep then [""] + rest
      else [[s[0]] + rest[0]] + rest[1..]
  }

  /** Python's `sep.join(xs)`: it starts with the first piece. */
  function Join(xs: seq<string>, sep: string): (r: string)
    ensures |xs| > 0 ==> StartsWith(r, xs[0])
  {
    if |xs| == 0 then ""
    else if |xs| == 1 then xs[0]
    else xs[0] + sep + Join(xs[1..], sep)
  }

  /** Joining the pieces of a split with the separator gives back the original string. */
  lemma {:induction false} JoinSplit(s: string, sep: char)
    ensures Join(Split(s, sep), [sep]) == s
  {
    if |s| > 0 {
      var rest := Split(s[1..], sep);
      JoinSplit(s[1..], sep);
      if s[0] == sep {
        assert Split(s, sep)[1..] == rest;
      } else {
        var r := Split(s, sep);
        assert r[1..] == rest[1..];
        if |rest| == 1 {
          assert Join(r, [sep]) == [s[0]] + rest[0];
        } else {
          assert Join(r, [sep]) == [s[0]] + rest[0] + [sep] + Join(rest[1..], [sep]);
          assert Join(rest, [sep]) == rest[0] + [sep] + Join(rest[1..], [sep]);
        }
        assert s == [s[0]] + s[1..];
      }
    }
  }

  /** The last piece of a split is a suffix of the string, preceded by the separator when it is not the whole string. */
  lemma {:induction false} LastPieceIsSuffix(s: string, sep: char)
    ensures
      var parts := Split(s, sep);
      var last := parts[|parts| - 1];
      |last| <= |s| && s[|s| - |last|..] == last &&
      (|last| < |s| ==> s[|s| - |last| - 1] == sep) &&
      (|parts| > 1 ==> |last| < |s|)
  {
    if |s| > 0 {
      LastPieceIsSuffix(s[1..], sep);
      var rest := Split(s[1..], sep);
      if s[0] != sep && |rest| == 1 {
        JoinSplit(s[1..], sep);
        assert rest[0] == s[1..];
        assert Split(s, sep) == [[s[0]] + s[1..]];
        assert [s[0]] + s[1..] == s;
      } else {
        assert Split(s, sep)[|Split(s, sep)| - 1] == rest[|rest| - 1];
        var last := rest[|rest| - 1];
        assert s[1..][|s[1..]| - |last|..] == s[|s| - |last|..];
      }
    }
  }

  /** A piece without the separator stays glued to the first piece of what follows it. */
  lemma {:induction false} SplitGlued(a: string, t: string, sep: char)
    requires sep !in a
    ensures Split(a + t, sep) == [a + Split(t, sep)[0]] + Split(t, sep)[1..]
  {
    if |a| > 0 {
      var r := Split(t, sep);
      SplitGlued(a[1..], t, sep);
      assert a[0] in a;
      assert (a + t)[1..] == a[1..] + t;
      assert (a + t)[0] == a[0];
      var rest := Split(a[1..] + t, sep);
      assert rest[0] == a[1..] + r[0] && rest[1..] == r[1..];
      assert Split(a + t, sep) == [[a[0]] + rest[0]] + rest[1..];
      assert [a[0]] + (a[1..] + r[0]) == a + r[0];
    } else {
      assert a + t == t;
      var r := Split(t, sep);
      assert a + r[0] == r[0];
      assert [r[0]] + r[1..] == r;
    }
  }

  /** Python's `s.replace(pat, repl)`: every non-overlapping occurrence of `pat`, left to right, becomes `repl`. */
  function Replace(s: string, pat: string, repl: string): (r: string)
    requires |pat| > 0
    ensures !Contains(s, pat) ==> r == s
    ensures |pat| <= |repl| ==> |s| <= |r|
    decreases |s|
  {
    if |s| == 0 then ""
    else if StartsWith(s, pat) then repl + Replace(s[|pat|..], pat, repl)
    else [s[0]] + Replace(s[1..], pat, repl)
  }

  /** Prepending a character keeps every occurrence. */
  lemma ContainsPrepend(c: char, s: string, w: string)
    requires Contains(s, w)
    ensures Contains([c] + s, w)
  {
    assert ([c] + s)[1..] == s;
  }

  /** Dropping leading whitespace keeps a word that does not start with whitespace. */
  lemma {:induction false} ContainsLStrip(s: string, w: string)
    requires |w| > 0 && !IsSpace(w[0])
    requires Contains(s, w)
    ensures Contains(LStrip(s), w)
  {
    if |s| > 0 && IsSpace(s[0]) {
      assert !StartsWith(s, w);
      ContainsLStrip(s[1..], w);
    }
  }

  /** Dropping a last character that differs from the word's last character keeps the word. */
  lemma {:induction false} ContainsDropLast(s: string, w: string)
    requires |w| > 0 && |s| > 0 && s[|s| - 1] != w[|w| - 1]
    requires Contains(s, w)
    ensures Contains(s[..|s| - 1], w)
  {
    if StartsWith(s, w) {
      assert |w| < |s|;
      assert s[..|s| - 1][..|w|] == s[..|w|];
    } else {
      assert Contains(s[1..], w);
      assert s[1..][|s[1..]| - 1] == s[|s| - 1];
      ContainsDropLast(s[1..], w);
      assert s[..|s| - 1][1..] == s[1..][..|s[1..]| - 1];
    }
  }

  /** Dropping trailing whitespace keeps a word that does not end with whitespace. */
  lemma {:induction false} ContainsRStrip(s: string, w: string)
    requires |w| > 0 && !IsSpace(w[|w| - 1])
    requires Contains(s, w)
    ensures Contains(RStrip(s), w)
  {
    if |s| > 0 && IsSpace(s[|s| - 1]) {
      ContainsDropLast(s, w);
      ContainsRStrip(s[..|s| - 1], w);
    }
  }

  /** Stripping keeps a word with no whitespace at its ends. */
  lemma ContainsStrip(s: string, w: string)
    requires Stripped(w) && |w| > 0
    requires Contains(s, w)
    ensures Contains(Strip(s), w)
  {
    ContainsLStrip(s, w);
    ContainsRStrip(LStrip(s), w);
  }
}
