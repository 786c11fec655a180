/** String primitives of JavaScript that the form, the prefill link and the
    filename logic rely on: `trim`, ASCII case folding, `substring(0, n)`, and the
    relation "obtained by deleting characters" that every sanitising step keeps. */
module Strings {

  /** The characters `String.prototype.trim` removes: WhiteSpace and
      LineTerminator of ECMAScript. */
  predicate IsWhitespace(c: char) {
    || c == ' ' || c == '\t' || c == '\n' || c == '\r'
    || c == '\U{000B}' || c == '\U{000C}' || c == '\U{00A0}' || c == '\U{FEFF}'
    || c == '\U{1680}' || ('\U{2000}' <= c <= '\U{200A}')
    || c == '\U{2028}' || c == '\U{2029}' || c == '\U{202F}' || c == '\U{205F}'
    || c == '\U{3000}'
  }

  predicate IsAsciiDigit(c: char) {
    '0' <= c <= '9'
  }

  predicate IsAsciiLower(c: char) {
    'a' <= c <= 'z'
  }

  /** `\w` of a regular expression without the `u` flag. */
  predicate IsWordChar(c: char) {
    IsAsciiLower(c) || ('A' <= c <= 'Z') || IsAsciiDigit(c) || c == '_'
  }

  /** `toLowerCase` restricted to ASCII; every other character is kept as it is. */
  function LowerChar(c: char): (r: char)
    ensures 'A' <= c <= 'Z' ==> IsAsciiLower(r)
    ensures !('A' <= c <= 'Z') ==> r == c
  {
    if 'A' <= c <= 'Z' then (c as int - 'A' as int + 'a' as int) as char else c
  }

  function Lower(s: string): (r: string)
    ensures |r| == |s|
    ensures forall i :: 0 <= i < |s| ==> r[i] == LowerChar(s[i])
  {
    if s == [] then [] else [LowerChar(s[0])] + Lower(s[1..])
  }

  /** `s.substring(0, n)` for a non-negative `n`. */
  function Take<T>(s: seq<T>, n: nat): (r: seq<T>)
    ensures |r| <= n && |r| <= |s|
    ensures |s| <= n ==> r == s
    ensures n <= |s| ==> |r| == n
    ensures r == s[..|r|]
  {
    if |s| <= n then s else s[..n]
  }

  /** `trimStart`: the suffix left after dropping the leading whitespace. */
  function TrimStart(s: string): (r: string)
    ensures |r| <= |s| && r == s[|s| - |r|..]
    ensures r == [] || !IsWhitespace(r[0])
    ensures forall i :: 0 <= i < |s| - |r| ==> IsWhitespace(s[i])
  {
    if |s| > 0 && IsWhitespace(s[0]) then TrimStart(s[1..]) else s
  }

  /** `trimEnd`: the prefix left after dropping the trailing whitespace. */
  function TrimEnd(s: string): (r: string)
    ensures |r| <= |s| && r == s[..|r|]
    ensures r == [] || !IsWhitespace(r[|r| - 1])
    ensures forall i :: |r| <= i < |s| ==> IsWhitespace(s[i])
  {
    if |s| > 0 && IsWhitespace(s[|s| - 1]) then TrimEnd(s[..|s| - 1]) else s
  }

  /** `trim`: a middle slice of `s`, framed by whitespace only and neither
      starting nor ending with whitespace. */
  function Trim(s: string): (r: string)
    ensures |r| <= |s|
    ensures r == [] || (!IsWhitespace(r[0]) && !IsWhitespace(r[|r| - 1]))
  {
    TrimEnd(TrimStart(s))
  }

  /** Trimming only deletes characters. */
  lemma TrimSubseq(s: string)
    ensures Subseq(Trim(s), s)
  {
    var t := TrimStart(s);
    var r := TrimEnd(t);
    SubseqSlice(t, 0, |r|);
    assert t[0..|r|] == r;
    SubseqOfSuffix(r, s, |s| - |t|);
  }

  /** JavaScript's `!s.trim()`: the string holds nothing but whitespace. */
  predicate IsBlank(s: string) {
    Trim(s) == []
  }

  lemma {:induction false} BlankIffAllWhitespace(s: string)
    ensures IsBlank(s) <==> forall i :: 0 <= i < |s| ==> IsWhitespace(s[i])
  {
    var t := TrimStart(s);
    if t != [] {
      // the first character of TrimStart(s) is no whitespace and TrimEnd keeps it
      assert !IsWhitespace(s[|s| - |t|]);
    }
  }

  /** `Trim` does nothing to a string with no whitespace at either end. */
  lemma {:induction false} TrimFixesTrimmed(s: string)
    requires s == [] || (!IsWhitespace(s[0]) && !IsWhitespace(s[|s| - 1]))
    ensures Trim(s) == s
  {
  }

  /** Concatenation regroups around the first element. */
  lemma AppendCons<T>(x: seq<T>, z: seq<T>)
    requires x != []
    ensures x + z == [x[0]] + (x[1..] + z)
  {
  }

  /** `r` is obtained from `s` by deleting characters (and keeping the order of
      the rest). */
  ghost predicate Subseq<T>(r: seq<T>, s: seq<T>)
    decreases |s|
  {
    if r == [] then true
    else if s == [] then false
    else (r[0] == s[0] && Subseq(r[1..], s[1..])) || Subseq(r, s[1..])
  }

  lemma {:induction false} SubseqRefl<T>(s: seq<T>)
    ensures Subseq(s, s)
  {
    if s != [] {
      SubseqRefl(s[1..]);
    }
  }

  lemma {:induction false} SubseqTrans<T>(a: seq<T>, b: seq<T>, c: seq<T>)
    requires Subseq(a, b) && Subseq(b, c)
    ensures Subseq(a, c)
    decreases |c|
  {
    if a != [] {
      if Subseq(b, c[1..]) {
        SubseqTrans(a, b, c[1..]);
      } else if a[0] == b[0] && Subseq(a[1..], b[1..]) {
        SubseqTrans(a[1..], b[1..], c[1..]);
      } else {
        SubseqTrans(a, b[1..], c[1..]);
      }
    }
  }

  /** Appending to the original, optionally also to the subsequence, keeps it a
      subsequence. */
  lemma {:induction false} SubseqAppend<T>(r: seq<T>, s: seq<T>, x: T, keep: bool)
    requires Subseq(r, s)
    ensures Subseq(if keep then r + [x] else r, s + [x])
    decreases |s|
  {
    if r == [] {
      if keep {
        SubseqSuffix(s, [x]);
        assert r + [x] == [x];
      }
    } else if r[0] == s[0] && Subseq(r[1..], s[1..]) {
      SubseqAppend(r[1..], s[1..], x, keep);
      assert (s + [x])[1..] == s[1..] + [x];
      if keep {
        assert (r + [x])[1..] == r[1..] + [x];
        assert (r + [x])[0] == (s + [x])[0];
      }
    } else {
      SubseqAppend(r, s[1..], x, keep);
      assert (s + [x])[1..] == s[1..] + [x];
    }
  }

  /** A subsequence of the tail is a subsequence of the whole. */
  lemma {:induction false} SubseqSuffix<T>(s: seq<T>, t: seq<T>)
    ensures Subseq(t, s + t)
    decreases |s|
  {
    if s == [] {
      SubseqRefl(t);
      assert s + t == t;
    } else {
      SubseqSuffix(s[1..], t);
      assert (s + t)[1..] == s[1..] + t;
    }
  }

  /** Every element of a subsequence occurs in the original. */
  lemma {:induction false} SubseqMember<T>(r: seq<T>, s: seq<T>, x: T)
    requires Subseq(r, s) && x in r
    ensures x in s
    decreases |s|
  {
    if r[0] == s[0] && Subseq(r[1..], s[1..]) {
      if x != r[0] {
        SubseqMember(r[1..], s[1..], x);
      }
    } else {
      SubseqMember(r, s[1..], x);
    }
  }

  /** Keeping one more leading character on both sides keeps a subsequence. */
  lemma SubseqCons<T>(x: T, r: seq<T>, s: seq<T>)
    requires Subseq(r, s)
    ensures Subseq([x] + r, [x] + s)
  {
    assert ([x] + r)[1..] == r && ([x] + s)[1..] == s;
  }

  /** Dropping a leading character of the original keeps a subsequence. */
  lemma SubseqSkip<T>(x: T, r: seq<T>, s: seq<T>)
    requires Subseq(r, s)
    ensures Subseq(r, [x] + s)
  {
    assert ([x] + s)[1..] == s;
  }

  /** A common prefix keeps a subsequence a subsequence. */
  lemma {:induction false} SubseqPrepend<T>(a: seq<T>, r: seq<T>, s: seq<T>)
    requires Subseq(r, s)
    ensures Subseq(a + r, a + s)
    decreases |a|
  {
    if a != [] {
      SubseqPrepend(a[1..], r, s);
      SubseqCons(a[0], a[1..] + r, a[1..] + s);
      assert [a[0]] + (a[1..] + r) == a + r;
      assert [a[0]] + (a[1..] + s) == a + s;
    } else {
      assert a + r == r && a + s == s;
    }
  }

  /** A subsequence of a suffix is a subsequence of the whole. */
  lemma SubseqOfSuffix<T>(r: seq<T>, s: seq<T>, k: nat)
    requires k <= |s| && Subseq(r, s[k..])
    ensures Subseq(r, s)
  {
    SubseqSlice(s, k, |s|);
    assert s[k..|s|] == s[k..];
    SubseqTrans(r, s[k..], s);
  }

  /** Every slice of `s` is a subsequence of `s`. */
  lemma {:induction false} SubseqSlice<T>(s: seq<T>, i: nat, j: nat)
    requires i <= j <= |s|
    ensures Subseq(s[i..j], s)
    decreases |s|
  {
    if i < j {
      if i == 0 {
        SubseqSlice(s[1..], 0, j - 1);
        assert s[1..][0..j - 1] == s[0..j][1..];
      } else {
        SubseqSlice(s[1..], i - 1, j - 1);
        assert s[1..][i - 1..j - 1] == s[i..j];
      }
    }
  }
}
